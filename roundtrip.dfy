/** The round trip: decoding what the encoder writes gives back the number. */
module RomanRoundTrip {
  import opened JsText
  import opened RomanSymbols
  import opened RomanEncode
  import opened RomanDecode

  /** One table row, scanned on its own, is worth its value; its first symbol
      weighs no more than the row and its last symbol no less. */
  lemma RowTally(e: Entry)
    requires WellFormed(e)
    ensures var syms := SymbolsOf(e.numeral, e.overline);
      syms != [] && Tally(syms) == e.value &&
      Weight(syms[0]) <= e.value <= Weight(syms[|syms| - 1])
  {
    var syms := SymbolsOf(e.numeral, e.overline);
    if |syms| == 1 {
      assert Tally(syms) == Weight(syms[0]) + Tally([]);
    } else {
      assert syms[1..][1..] == [];
      assert Tally(syms[1..]) == Weight(syms[1]) + Tally([]);
      WeightGap(syms[0], syms[1]);
    }
  }

  /** Rows in non-increasing value are tallied row by row: at each seam the last
      symbol of a row weighs at least the row, which is at least the next row,
      which is at least that row's first symbol, so nothing is subtracted there. */
  lemma {:induction false} TallySpelled(es: seq<Entry>)
    requires AllWellFormed(es) && Descending(es)
    ensures Tally(Spelled(es)) == Sum(es)
    ensures es != [] ==> Spelled(es) != [] && Weight(Spelled(es)[0]) <= es[0].value
    decreases |es|
  {
    if es != [] {
      var head := SymbolsOf(es[0].numeral, es[0].overline);
      assert WellFormed(es[0]);
      RowTally(es[0]);
      assert Spelled(es) == head + Spelled(es[1..]);
      TallySpelled(es[1..]);
      if es[1..] != [] {
        assert es[1..][0] == es[1];
      }
      TallyAppend(head, Spelled(es[1..]));
    }
  }

  /** A legal numeral character is neither a lower-case letter nor white space. */
  lemma RomanCharPlain(c: char)
    requires IsRomanChar(c)
    ensures !IsLower(c) && !IsWhitespace(c)
  {
    assert c == Overline || c in {'I', 'V', 'X', 'L', 'C', 'D', 'M'};
  }

  /** A string of legal numeral characters is left alone by `toUpperCase()` and
      by `toUpperCase().trim()`. */
  lemma NormalizeKeepsRoman(s: string)
    requires AllRomanChars(s)
    ensures Upper(s) == s && Normalize(s) == s
  {
    forall k | 0 <= k < |s| ensures !IsLower(s[k]) && !IsWhitespace(s[k]) {
      RomanCharPlain(s[k]);
    }
    UpperKeeps(s);
    TrimKeeps(s);
  }

  /** `fromRoman(toRomanString(n)) == n` on the whole extended range. */
  lemma RoundTrip(num: int)
    requires 1 <= num <= MaxExtended
    ensures Decode(ToRomanString(num)) == num
  {
    var es := Greedy(0, num);
    ToRomanStringSpells(num);
    ToRomanStringOverline(num);
    NormalizeKeepsRoman(ToRomanString(num));
    GreedyShape(0, num);
    SpelledLetters(es);
    ScanRender(Spelled(es));
    TallySpelled(es);
    SegmentsFacts(num);
  }

  /** `fromRoman(toRoman(n)) == n` on 1..3999. */
  lemma PlainRoundTrip(num: int)
    requires 1 <= num <= MaxPlain
    ensures Decode(Plain(num)) == num
  {
    ToRomanStringOverline(num);
    RoundTrip(num);
  }

  /** The marked string determines its number: distinct numbers in range are
      written differently. */
  lemma ToRomanStringInjective(a: int, b: int)
    requires 1 <= a <= MaxExtended && 1 <= b <= MaxExtended
    requires ToRomanString(a) == ToRomanString(b)
    ensures a == b
  {
    RoundTrip(a);
    RoundTrip(b);
  }
}
