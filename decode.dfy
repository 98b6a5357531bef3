/** The decoder: a left-to-right scan over the normalised text, one logical
    symbol (a letter and an optional U+0305) at a time, with one symbol of
    lookahead for subtractive pairs. 0 signals an empty or illegal input. */
module RomanDecode {
  import opened JsText
  import opened RomanSymbols

  datatype Option<T> = None | Some(value: T)

  /** What the lookahead reads at the head of t: the value of a letter, times 1000
      when U+0305 follows it; 0 when t is empty or starts with U+0305 or with a
      character outside the table. */
  function PeekValue(t: string): nat {
    if |t| > 0 && t[0] != Overline && t[0] in RomanToArabic then
      RomanToArabic[t[0]] * (if |t| > 1 && t[1] == Overline then 1000 else 1)
    else 0
  }

  /** The scan over what is left of the text: a stray U+0305 is skipped, a
      character outside the table fails the whole scan, and a letter is added,
      or subtracted when the next logical symbol is worth more. */
  function Scan(t: string): Option<int>
    decreases |t|
  {
    if t == [] then Some(0)
    else if t[0] == Overline then Scan(t[1..])
    else if t[0] !in RomanToArabic then None
    else
      var hasOverline := |t| > 1 && t[1] == Overline;
      var adjusted := RomanToArabic[t[0]] * (if hasOverline then 1000 else 1);
      var rest := if hasOverline then t[2..] else t[1..];
      var delta := if adjusted < PeekValue(rest) then -adjusted else adjusted;
      match Scan(rest)
      case None => None
      case Some(r) => Some(delta + r)
  }

  /** The scan's total, or 0 when it fails. */
  function ScanOrZero(t: string): int {
    match Scan(t)
    case None => 0
    case Some(total) => total
  }

  /** What `fromRoman` returns. */
  function Decode(roman: string): int {
    var normalized := Normalize(roman);
    if normalized == [] then 0 else ScanOrZero(normalized)
  }

  /** A partial scan result carried forward by what has been counted so far. */
  function Offset(total: int, o: Option<int>): Option<int> {
    match o
    case None => None
    case Some(r) => Some(total + r)
  }

  predicate HasLetter(t: string) {
    exists k :: 0 <= k < |t| && t[k] in RomanToArabic
  }

  /** `fromRoman`: normalise, answer 0 for an empty result, otherwise run the
      cursor loop. */
  method FromRoman(roman: string) returns (total: int)
    ensures total == Decode(roman)
  {
    var normalized := Normalize(roman);
    if normalized == [] {
      return 0;
    }
    total := ScanLoop(normalized);
  }

  /** The cursor loop of `fromRoman`, advancing by one character, or by two past
      a letter that carries U+0305; it returns 0 at the first character outside
      the table. */
  method ScanLoop(normalized: string) returns (total: int)
    ensures total == ScanOrZero(normalized)
  {
    total := 0;
    var i := 0;
    while i < |normalized|
      invariant 0 <= i <= |normalized|
      invariant Scan(normalized) == Offset(total, Scan(normalized[i..]))
      decreases |normalized| - i
    {
      var c := normalized[i];
      if c == Overline {
        ScanSkipsAt(normalized, i);
        i := i + 1;
        continue;
      }
      if c !in RomanToArabic {
        assert Scan(normalized[i..]) == None;
        return 0;
      }
      var currentValue: int := RomanToArabic[c];
      var hasOverline := false;
      if i + 1 < |normalized| && normalized[i + 1] == Overline {
        hasOverline := true;
      }
      var adjustedValue := currentValue * (if hasOverline then 1000 else 1);

      var nextIndex := i + 1;
      if hasOverline {
        nextIndex := nextIndex + 1;
      }
      ScanLetterAt(normalized, i, hasOverline, adjustedValue, nextIndex);
      var nextValue := LookAhead(normalized, nextIndex);
      ghost var delta := if adjustedValue < nextValue then -adjustedValue else adjustedValue;
      ghost var after := Scan(normalized[nextIndex..]);
      OffsetTwice(total, delta, after);

      if adjustedValue < nextValue {
        total := total - adjustedValue;
      } else {
        total := total + adjustedValue;
      }
      i := i + 1;
      if hasOverline {
        i := i + 1;
      }
    }
    assert normalized[i..] == [];
  }

  /** The lookahead block of `fromRoman`: the value of the logical symbol at
      `nextIndex`, 0 when there is none there. */
  method LookAhead(normalized: string, nextIndex: nat) returns (nextValue: int)
    requires nextIndex <= |normalized|
    ensures nextValue == PeekValue(normalized[nextIndex..])
  {
    nextValue := 0;
    var nextHasOverline := false;
    if nextIndex < |normalized| {
      var nextChar := normalized[nextIndex];
      if nextChar != Overline && nextChar in RomanToArabic {
        nextValue := RomanToArabic[nextChar];
        if nextIndex + 1 < |normalized| && normalized[nextIndex + 1] == Overline {
          nextHasOverline := true;
        }
        nextValue := nextValue * (if nextHasOverline then 1000 else 1);
      }
    }
    PeekAt(normalized, nextIndex);
  }

  lemma OffsetTwice(a: int, b: int, o: Option<int>)
    ensures Offset(a, Offset(b, o)) == Offset(a + b, o)
  {
  }

  /** The lookahead, read at a cursor. */
  lemma PeekAt(t: string, j: nat)
    requires j <= |t|
    ensures PeekValue(t[j..]) ==
      if j < |t| && t[j] != Overline && t[j] in RomanToArabic then
        RomanToArabic[t[j]] * (if j + 1 < |t| && t[j + 1] == Overline then 1000 else 1)
      else 0
  {
  }

  /** One step of the scan, read at a cursor: a stray U+0305 is passed over. */
  lemma ScanSkipsAt(t: string, i: nat)
    requires i < |t| && t[i] == Overline
    ensures Scan(t[i..]) == Scan(t[i + 1..])
  {
    assert t[i..][1..] == t[i + 1..];
  }

  /** One step of the scan, read at a cursor: a letter, with its vinculum if it
      has one, is counted against the symbol after it. */
  lemma ScanLetterAt(t: string, i: nat, hasOverline: bool, adjusted: int, next: nat)
    requires i < |t| && t[i] != Overline && t[i] in RomanToArabic
    requires hasOverline == (i + 1 < |t| && t[i + 1] == Overline)
    requires adjusted == RomanToArabic[t[i]] * (if hasOverline then 1000 else 1)
    requires next == if hasOverline then i + 2 else i + 1
    ensures next <= |t|
    ensures Scan(t[i..]) == Offset(if adjusted < PeekValue(t[next..]) then -adjusted else adjusted, Scan(t[next..]))
  {
    assert t[i..][next - i..] == t[next..];
  }

  // ---------------------------------------------------------------------------
  // When the scan fails, and the sign of what it returns.

  /** The scan fails exactly when some character is neither a table letter nor
      U+0305; otherwise it returns a non-negative total that is positive exactly
      when there is at least one letter, and at least the head symbol's value. */
  lemma {:induction false} ScanOutcome(t: string)
    ensures Scan(t).None? <==> !AllRomanChars(t)
    ensures AllRomanChars(t) ==> Scan(t).value >= 0 && (Scan(t).value > 0 <==> HasLetter(t))
    ensures AllRomanChars(t) ==> Scan(t).value >= PeekValue(t)
    decreases |t|
  {
    if t == [] {
    } else if t[0] == Overline {
      ScanOutcome(t[1..]);
      assert AllRomanChars(t) <==> AllRomanChars(t[1..]);
      assert HasLetter(t) <==> HasLetter(t[1..]) by {
        if HasLetter(t) {
          var k :| 0 <= k < |t| && t[k] in RomanToArabic;
          assert t[1..][k - 1] in RomanToArabic;
        }
        if HasLetter(t[1..]) {
          var k :| 0 <= k < |t[1..]| && t[1..][k] in RomanToArabic;
          assert t[k + 1] in RomanToArabic;
        }
      }
    } else if t[0] !in RomanToArabic {
    } else {
      var hasOverline := |t| > 1 && t[1] == Overline;
      var adjusted := RomanToArabic[t[0]] * (if hasOverline then 1000 else 1);
      var rest := if hasOverline then t[2..] else t[1..];
      ScanOutcome(rest);
      assert AllRomanChars(t) <==> AllRomanChars(rest) by {
        if AllRomanChars(rest) {
          forall k | 0 <= k < |t| ensures IsRomanChar(t[k]) {
            if k >= |t| - |rest| {
              assert t[k] == rest[k - (|t| - |rest|)];
            }
          }
        }
      }
      assert HasLetter(t);
      if AllRomanChars(t) {
        var next := PeekValue(rest);
        if adjusted < next {
          WeightGap(Symbol(t[0], hasOverline), Symbol(rest[0], |rest| > 1 && rest[1] == Overline));
        }
      }
    }
  }

  /** `fromRoman` never returns a negative number, and returns 0 exactly when the
      normalised input is empty, holds a character other than I V X L C D M and
      U+0305, or holds no letter at all (only U+0305 marks). */
  lemma DecodeZero(roman: string)
    ensures Decode(roman) >= 0
    ensures Decode(roman) == 0 <==>
      var n := Normalize(roman); n == [] || !AllRomanChars(n) || !HasLetter(n)
  {
    ScanOutcome(Normalize(roman));
  }

  /** `fromRoman` is case-insensitive and ignores surrounding white space. */
  lemma DecodeNormalizes(roman: string)
    ensures Decode(Upper(roman)) == Decode(roman)
    ensures Decode(Trim(roman)) == Decode(roman)
    ensures Decode(Normalize(roman)) == Decode(roman)
  {
    NormalizeUpper(roman);
    DecodeSameNormal(Upper(roman), roman);
    NormalizeTrim(roman);
    DecodeSameNormal(Trim(roman), roman);
    NormalizeIdempotent(roman);
    DecodeSameNormal(Normalize(roman), roman);
  }

  lemma DecodeSameNormal(a: string, b: string)
    requires Normalize(a) == Normalize(b)
    ensures Decode(a) == Decode(b)
  {
  }

  // ---------------------------------------------------------------------------
  // The scan over a written list of symbols.

  /** The lookahead rule over logical symbols: each symbol counts positive,
      or negative when the next one weighs more. */
  function Tally(syms: seq<Symbol>): int {
    if syms == [] then 0
    else (if |syms| > 1 && Weight(syms[0]) < Weight(syms[1]) then -(Weight(syms[0]) as int) else Weight(syms[0]) as int) + Tally(syms[1..])
  }

  /** The lookahead reads the head symbol of a written symbol list. */
  lemma PeekRender(syms: seq<Symbol>)
    requires AllLetters(syms)
    ensures PeekValue(Render(syms)) == if syms == [] then 0 else Weight(syms[0])
  {
    if syms != [] {
      RenderChars(syms);
      var rest := Render(syms[1..]);
      assert Render(syms) == [syms[0].letter] + (if syms[0].overline then [Overline] else []) + rest;
      if !syms[0].overline && syms[1..] != [] {
        RenderChars(syms[1..]);
        assert Render(syms)[1] == rest[0] == syms[1].letter;
      }
    }
  }

  /** Scanning the written form of legal symbols gives their tally. */
  lemma {:induction false} ScanRender(syms: seq<Symbol>)
    requires AllLetters(syms)
    ensures Scan(Render(syms)) == Some(Tally(syms))
    decreases |syms|
  {
    if syms != [] {
      var s := syms[0];
      var rest := Render(syms[1..]);
      var t := Render(syms);
      assert t == [s.letter] + (if s.overline then [Overline] else []) + rest;
      assert s.letter != Overline;
      assert AllLetters(syms[1..]);
      if !s.overline && syms[1..] != [] {
        RenderChars(syms[1..]);
        assert t[1] == syms[1].letter;
      }
      assert (|t| > 1 && t[1] == Overline) == s.overline;
      assert (if |t| > 1 && t[1] == Overline then t[2..] else t[1..]) == rest;
      assert RomanToArabic[t[0]] * (if s.overline then 1000 else 1) == Weight(s);
      PeekRender(syms[1..]);
      ScanRender(syms[1..]);
      if syms[1..] != [] {
        assert syms[1..][0] == syms[1];
      }
      var delta := if |syms| > 1 && Weight(s) < Weight(syms[1]) then -(Weight(s) as int) else Weight(s) as int;
      assert Tally(syms) == delta + Tally(syms[1..]);
      assert Scan(t) == Some(delta + Tally(syms[1..]));
    }
  }

  /** Tallies add up when the seam does not subtract: the last symbol of the first
      part weighs at least as much as the first of the second. */
  lemma {:induction false} TallyAppend(a: seq<Symbol>, b: seq<Symbol>)
    requires a != []
    requires b != [] ==> Weight(a[|a| - 1]) >= Weight(b[0])
    ensures Tally(a + b) == Tally(a) + Tally(b)
    decreases |a|
  {
    assert (a + b)[1..] == a[1..] + b;
    if |a| > 1 {
      TallyAppend(a[1..], b);
    } else {
      assert a[1..] == [];
      assert a[1..] + b == b;
    }
  }
}
