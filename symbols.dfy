/** The fixed tables the encoder and the decoder share, and the logical
    symbol (a letter with or without a vinculum) both of them work in. */
module RomanSymbols {

  /** A strictly positive value: every table row has one. */
  type Pos = x: int | 0 < x witness 1

  /** U+0305 COMBINING OVERLINE: written right after a letter, it multiplies it by 1000. */
  const Overline: char := '\U{0305}'

  /** One row of the extended table: value, numeral, and whether it carries a vinculum. */
  datatype Entry = Entry(value: Pos, numeral: string, overline: bool)

  /** The plain table for 1..3999, descending, subtractive pairs included. */
  const Standard: seq<(Pos, string)> := [
    (1000, "M"), (900, "CM"), (500, "D"), (400, "CD"), (100, "C"), (90, "XC"),
    (50, "L"), (40, "XL"), (10, "X"), (9, "IX"), (5, "V"), (4, "IV"), (1, "I")
  ]

  /** The extended table for 1..3,999,999: twelve rows times 1000 with a vinculum,
      then the thirteen plain rows. */
  const Extended: seq<Entry> := [
    Entry(1000000, "M", true), Entry(900000, "CM", true), Entry(500000, "D", true),
    Entry(400000, "CD", true), Entry(100000, "C", true), Entry(90000, "XC", true),
    Entry(50000, "L", true), Entry(40000, "XL", true), Entry(10000, "X", true),
    Entry(9000, "IX", true), Entry(5000, "V", true), Entry(4000, "IV", true),
    Entry(1000, "M", false), Entry(900, "CM", false), Entry(500, "D", false),
    Entry(400, "CD", false), Entry(100, "C", false), Entry(90, "XC", false),
    Entry(50, "L", false), Entry(40, "XL", false), Entry(10, "X", false),
    Entry(9, "IX", false), Entry(5, "V", false), Entry(4, "IV", false),
    Entry(1, "I", false)
  ]

  /** The decoder's letter values; nothing else (no J, U, W, lower case) is a key. */
  const RomanToArabic: map<char, Pos> := map[
    'I' := 1, 'V' := 5, 'X' := 10, 'L' := 50, 'C' := 100, 'D' := 500, 'M' := 1000
  ]

  /** A character a Roman numeral may contain: a letter or the vinculum mark. */
  predicate IsRomanChar(c: char) {
    c == Overline || c in RomanToArabic
  }

  predicate AllRomanChars(s: string) {
    forall k :: 0 <= k < |s| ==> IsRomanChar(s[k])
  }

  /** A logical symbol: one letter, with or without the ×1000 vinculum. */
  datatype Symbol = Symbol(letter: char, overline: bool)

  /** What the decoder counts a symbol as: its letter's value, times 1000 under a vinculum. */
  function Weight(s: Symbol): nat {
    (if s.letter in RomanToArabic then RomanToArabic[s.letter] as int else 0) * (if s.overline then 1000 else 1)
  }

  predicate AllLetters(syms: seq<Symbol>) {
    forall k :: 0 <= k < |syms| ==> syms[k].letter in RomanToArabic
  }

  /** The symbols of a numeral text, all with the same vinculum flag. */
  function SymbolsOf(text: string, overline: bool): (syms: seq<Symbol>)
    ensures |syms| == |text|
    ensures forall k :: 0 <= k < |text| ==> syms[k] == Symbol(text[k], overline)
  {
    if text == [] then [] else [Symbol(text[0], overline)] + SymbolsOf(text[1..], overline)
  }

  /** The written form: each letter, followed by U+0305 when it carries a vinculum. */
  function Render(syms: seq<Symbol>): string {
    if syms == [] then [] else [syms[0].letter] + (if syms[0].overline then [Overline] else []) + Render(syms[1..])
  }

  /** Rendering is compositional. */
  lemma {:induction false} RenderAppend(a: seq<Symbol>, b: seq<Symbol>)
    ensures Render(a + b) == Render(a) + Render(b)
    decreases |a|
  {
    if a == [] {
      assert a + b == b;
    } else {
      assert (a + b)[1..] == a[1..] + b;
      RenderAppend(a[1..], b);
    }
  }

  /** The written form of legal letters uses only legal characters, starts with a
      letter, and is empty exactly when there are no symbols. */
  lemma {:induction false} RenderChars(syms: seq<Symbol>)
    requires AllLetters(syms)
    ensures AllRomanChars(Render(syms))
    ensures |Render(syms)| >= |syms|
    ensures syms != [] ==> Render(syms)[0] == syms[0].letter
    ensures Overline in Render(syms) <==> exists k :: 0 <= k < |syms| && syms[k].overline
    decreases |syms|
  {
    if syms != [] {
      RenderChars(syms[1..]);
      var head := [syms[0].letter] + (if syms[0].overline then [Overline] else []);
      assert Render(syms) == head + Render(syms[1..]);
      assert syms[0].letter != Overline;
      if exists k :: 0 <= k < |syms| && syms[k].overline {
        var k :| 0 <= k < |syms| && syms[k].overline;
        if k > 0 { assert syms[1..][k - 1].overline; }
      }
      if exists k :: 0 <= k < |syms[1..]| && syms[1..][k].overline {
        var k :| 0 <= k < |syms[1..]| && syms[1..][k].overline;
        assert syms[k + 1].overline;
      }
    }
  }

  /** A table row as the decoder sees it: legal letters, one or two of them;
      a single letter weighs the row's value, a pair is a smaller letter (at most
      half) before a larger one whose difference is the value; and the vinculum is
      on exactly the rows worth 4000 or more. */
  predicate WellFormed(e: Entry) {
    var t := e.numeral;
    (forall k :: 0 <= k < |t| ==> t[k] in RomanToArabic) &&
    (e.overline <==> e.value >= 4000) &&
    ((|t| == 1 && Weight(Symbol(t[0], e.overline)) == e.value) ||
     (|t| == 2 && 2 * Weight(Symbol(t[0], e.overline)) <= Weight(Symbol(t[1], e.overline))
      && Weight(Symbol(t[1], e.overline)) - Weight(Symbol(t[0], e.overline)) == e.value))
  }

  /** Rows i.. of the extended table are well formed, checked one row at a time. */
  predicate RowsWellFormedFrom(i: nat)
    decreases |Extended| - i
  {
    i >= |Extended| || (WellFormed(Extended[i]) && RowsWellFormedFrom(i + 1))
  }

  lemma {:induction false} RowsWellFormedAll(i: nat)
    requires RowsWellFormedFrom(i)
    ensures forall k :: i <= k < |Extended| ==> WellFormed(Extended[k])
    decreases |Extended| - i
  {
    if i < |Extended| {
      RowsWellFormedAll(i + 1);
    }
  }

  lemma RowsWellFormedLow()
    ensures RowsWellFormedFrom(13)
  {
    assert RowsWellFormedFrom(20);
  }

  lemma RowsWellFormedHigh()
    requires RowsWellFormedFrom(13)
    ensures RowsWellFormedFrom(0)
  {
    assert RowsWellFormedFrom(7);
  }

  /** Every row of the extended table is well formed. */
  lemma ExtendedRowsWellFormed()
    ensures forall k :: 0 <= k < |Extended| ==> WellFormed(Extended[k])
  {
    RowsWellFormedLow();
    RowsWellFormedHigh();
    RowsWellFormedAll(0);
  }

  /** The extended table descends strictly, ends with 1, and its vinculum rows
      (the first twelve) are exactly those worth 4000 or more. */
  lemma ExtendedDescends()
    ensures |Extended| == 25
    ensures forall k :: 0 < k < |Extended| ==> Extended[k].value < Extended[k - 1].value
    ensures Extended[|Extended| - 1].value == 1
    ensures forall k :: 0 <= k < 12 ==> Extended[k].overline && Extended[k].value >= 4000
    ensures forall k :: 12 <= k < |Extended| ==> !Extended[k].overline && Extended[k].value < 4000
  {
  }

  /** The extended table is the plain table twice: its first twelve rows times
      1000 under a vinculum, then all thirteen as they are. */
  lemma ExtendedFromStandard()
    ensures |Standard| == 13 && |Extended| == 12 + |Standard|
    ensures forall k :: 0 <= k < 12 ==> Extended[k] == Entry(Standard[k].0 * 1000, Standard[k].1, true)
    ensures forall k :: 0 <= k < |Standard| ==> Extended[12 + k] == Entry(Standard[k].0, Standard[k].1, false)
  {
  }

  /** Two different letter weights are at least a factor of two apart. */
  lemma WeightGap(a: Symbol, b: Symbol)
    requires a.letter in RomanToArabic && b.letter in RomanToArabic
    requires Weight(a) < Weight(b)
    ensures 2 * Weight(a) <= Weight(b)
  {
  }

  /** The symbols a list of rows spells, row after row. */
  function Spelled(es: seq<Entry>): seq<Symbol> {
    if es == [] then [] else SymbolsOf(es[0].numeral, es[0].overline) + Spelled(es[1..])
  }

  /** The letters a list of rows spells, flags dropped. */
  function Numerals(es: seq<Entry>): string {
    if es == [] then [] else es[0].numeral + Numerals(es[1..])
  }

  predicate AllWellFormed(es: seq<Entry>) {
    forall k :: 0 <= k < |es| ==> WellFormed(es[k])
  }

  lemma {:induction false} SymbolsOfAppend(a: string, b: string, overline: bool)
    ensures SymbolsOf(a + b, overline) == SymbolsOf(a, overline) + SymbolsOf(b, overline)
  {
  }

  /** Well-formed rows spell only legal letters, at least one per row. */
  lemma {:induction false} SpelledLetters(es: seq<Entry>)
    requires AllWellFormed(es)
    ensures AllLetters(Spelled(es))
    ensures |Spelled(es)| >= |es|
    ensures forall k :: 0 <= k < |Numerals(es)| ==> Numerals(es)[k] in RomanToArabic
    ensures |Numerals(es)| >= |es|
    decreases |es|
  {
    if es != [] {
      SpelledLetters(es[1..]);
      var head := es[0].numeral;
      assert WellFormed(es[0]);
      assert Numerals(es) == head + Numerals(es[1..]);
      assert Spelled(es) == SymbolsOf(head, es[0].overline) + Spelled(es[1..]);
    }
  }
}
