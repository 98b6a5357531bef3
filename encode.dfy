/** The encoder: greedy conversion of an integer into vinculum segments
    (1..3,999,999), into a plain numeral (1..3999), and into the marked string
    that follows each vinculum letter with U+0305. */
module RomanEncode {
  import opened RomanSymbols

  /** A run of letters sharing one vinculum flag. */
  datatype Segment = Segment(text: string, overline: bool)

  const MaxExtended: int := 3999999
  const MaxPlain: int := 3999

  /** One step of the segment builder: the numeral joins the last segment when
      the flags agree, and opens a new segment otherwise. */
  function AddText(segments: seq<Segment>, text: string, overline: bool): seq<Segment> {
    if |segments| > 0 && segments[|segments| - 1].overline == overline then
      segments[|segments| - 1 := Segment(segments[|segments| - 1].text + text, overline)]
    else
      segments + [Segment(text, overline)]
  }

  /** The rows the greedy scan emits from row i on with `remaining` still to cover:
      a row is taken for as long as it fits, then the scan moves to the next row. */
  function Greedy(i: nat, remaining: nat): seq<Entry>
    requires i <= |Extended|
    decreases |Extended| - i, remaining
  {
    if i == |Extended| then []
    else if remaining >= Extended[i].value then [Extended[i]] + Greedy(i, remaining - Extended[i].value)
    else Greedy(i + 1, remaining)
  }

  /** Feeds rows, in order, to the segment builder. */
  function Gather(acc: seq<Segment>, es: seq<Entry>): seq<Segment>
    decreases |es|
  {
    if es == [] then acc else Gather(AddText(acc, es[0].numeral, es[0].overline), es[1..])
  }

  /** What `toRomanSegments` returns. */
  function Segments(num: int): seq<Segment> {
    if num < 1 || num > MaxExtended then [] else Gather([], Greedy(0, num))
  }

  /** The plain-table counterpart of Greedy, producing the numeral text directly. */
  function PlainGreedy(i: nat, remaining: nat): string
    requires i <= |Standard|
    decreases |Standard| - i, remaining
  {
    if i == |Standard| then []
    else if remaining >= Standard[i].0 then Standard[i].1 + PlainGreedy(i, remaining - Standard[i].0)
    else PlainGreedy(i + 1, remaining)
  }

  /** What `toRoman` returns. */
  function Plain(num: int): string {
    if num < 1 || num > MaxPlain then [] else PlainGreedy(0, num)
  }

  /** A vinculum text written letter by letter, each followed by U+0305. */
  function MarkEach(text: string): string {
    if text == [] then [] else [text[0], Overline] + MarkEach(text[1..])
  }

  function RenderSegment(seg: Segment): string {
    if seg.overline then MarkEach(seg.text) else seg.text
  }

  function JoinRendered(segments: seq<Segment>): string
    decreases |segments|
  {
    if segments == [] then [] else RenderSegment(segments[0]) + JoinRendered(segments[1..])
  }

  /** What `toRomanString` returns: the segments written out and joined in order. */
  function ToRomanString(num: int): string {
    JoinRendered(Segments(num))
  }

  /** The sum of the values of a list of rows. */
  function Sum(es: seq<Entry>): int {
    if es == [] then 0 else es[0].value + Sum(es[1..])
  }

  /** Segments with non-empty texts whose neighbours differ in their flag. */
  predicate Alternating(segments: seq<Segment>) {
    (forall k :: 0 <= k < |segments| ==> segments[k].text != []) &&
    (forall k :: 0 < k < |segments| ==> segments[k].overline != segments[k - 1].overline)
  }

  predicate Descending(es: seq<Entry>) {
    forall k :: 0 < k < |es| ==> es[k].value <= es[k - 1].value
  }

  // ---------------------------------------------------------------------------
  // The two loops of the source.

  /** `toRomanSegments`: the greedy loop over the extended table, merging each
      numeral into the last segment when the flags agree. */
  method ToRomanSegments(num: int) returns (segments: seq<Segment>)
    ensures segments == Segments(num)
    ensures segments == [] <==> num < 1 || num > MaxExtended
    ensures Alternating(segments)
  {
    SegmentsFacts(num);
    if num < 1 || num > MaxExtended {
      return [];
    }
    segments := [];
    var remaining: nat := num;
    for i := 0 to |Extended|
      invariant Gather(segments, Greedy(i, remaining)) == Gather([], Greedy(0, num))
    {
      var value, numeral, hasOverline := Extended[i].value, Extended[i].numeral, Extended[i].overline;
      while remaining >= value
        invariant Gather(segments, Greedy(i, remaining)) == Gather([], Greedy(0, num))
      {
        assert Greedy(i, remaining) == [Extended[i]] + Greedy(i, remaining - value);
        ghost var before := segments;
        if |segments| > 0 && segments[|segments| - 1].overline == hasOverline {
          var last := segments[|segments| - 1];
          segments := segments[|segments| - 1 := Segment(last.text + numeral, last.overline)];
        } else {
          segments := segments + [Segment(numeral, hasOverline)];
        }
        assert segments == AddText(before, numeral, hasOverline);
        remaining := remaining - value;
      }
    }
  }

  /** `toRoman`: the greedy loop over the plain table. */
  method ToRoman(num: int) returns (result: string)
    ensures result == Plain(num)
    ensures result == [] <==> num < 1 || num > MaxPlain
  {
    PlainFacts(num);
    if num < 1 || num > MaxPlain {
      return [];
    }
    result := [];
    var remaining: nat := num;
    for i := 0 to |Standard|
      invariant result + PlainGreedy(i, remaining) == Plain(num)
    {
      var value, numeral := Standard[i].0, Standard[i].1;
      while remaining >= value
        invariant result + PlainGreedy(i, remaining) == Plain(num)
      {
        PlainGreedyTakes(i, remaining, result);
        result := result + numeral;
        remaining := remaining - value;
      }
    }
    assert PlainGreedy(|Standard|, remaining) == [];
    assert result + [] == result;
  }

  /** One pass of the inner loop of `toRoman`: the row's numeral moves from the
      part still to be emitted to the part already emitted. */
  lemma PlainGreedyTakes(i: nat, remaining: nat, result: string)
    requires i < |Standard| && remaining >= Standard[i].0
    ensures result + PlainGreedy(i, remaining) == (result + Standard[i].1) + PlainGreedy(i, remaining - Standard[i].0)
  {
    assert PlainGreedy(i, remaining) == Standard[i].1 + PlainGreedy(i, remaining - Standard[i].0);
  }

  // ---------------------------------------------------------------------------
  // What the greedy scan emits.

  /** The emitted rows are table rows, in non-increasing value, none above row i. */
  lemma {:induction false} GreedyShape(i: nat, remaining: nat)
    requires i <= |Extended|
    ensures AllWellFormed(Greedy(i, remaining))
    ensures Descending(Greedy(i, remaining))
    ensures i < |Extended| ==> forall k :: 0 <= k < |Greedy(i, remaining)| ==> Greedy(i, remaining)[k].value <= Extended[i].value
    decreases |Extended| - i, remaining
  {
    if i < |Extended| {
      ExtendedDescends();
      ExtendedRowsWellFormed();
      if remaining >= Extended[i].value {
        assert Greedy(i, remaining) == [Extended[i]] + Greedy(i, remaining - Extended[i].value);
        assert WellFormed(Extended[i]);
        GreedyShape(i, remaining - Extended[i].value);
      } else {
        assert Greedy(i, remaining) == Greedy(i + 1, remaining);
        assert i + 1 < |Extended| ==> Extended[i + 1].value < Extended[i].value;
        GreedyShape(i + 1, remaining);
      }
    }
  }

  /** The greedy scan always covers everything: the emitted values sum to the
      amount it started with (the loop ends with nothing remaining). */
  lemma {:induction false} GreedySum(i: nat, remaining: nat)
    requires i < |Extended|
    ensures Sum(Greedy(i, remaining)) == remaining
    decreases |Extended| - i, remaining
  {
    ExtendedDescends();
    if remaining >= Extended[i].value {
      GreedySum(i, remaining - Extended[i].value);
    } else if i + 1 < |Extended| {
      GreedySum(i + 1, remaining);
    }
  }

  /** Below 4000 the vinculum rows never fire. */
  lemma {:induction false} GreedySkipsVinculum(i: nat, remaining: nat)
    requires i <= 12 && remaining < 4000
    ensures Greedy(i, remaining) == Greedy(12, remaining)
    decreases 12 - i
  {
    ExtendedDescends();
    if i < 12 {
      GreedySkipsVinculum(i + 1, remaining);
    }
  }

  /** From 4000 on, the first emitted row carries a vinculum. */
  lemma {:induction false} GreedyStartsWithVinculum(i: nat, remaining: nat)
    requires i < 12 && remaining >= 4000
    ensures Greedy(i, remaining) != [] && Greedy(i, remaining)[0].overline
    decreases 12 - i
  {
    ExtendedDescends();
    if remaining < Extended[i].value {
      GreedyStartsWithVinculum(i + 1, remaining);
    }
  }

  /** The plain rows of the extended table emit exactly what the plain table does. */
  lemma {:induction false} GreedyMatchesPlain(i: nat, remaining: nat)
    requires 12 <= i <= |Extended|
    ensures i - 12 <= |Standard|
    ensures Numerals(Greedy(i, remaining)) == PlainGreedy(i - 12, remaining)
    ensures forall j :: 0 <= j < |Greedy(i, remaining)| ==> !Greedy(i, remaining)[j].overline
    decreases |Extended| - i, remaining
  {
    ExtendedFromStandard();
    if i < |Extended| {
      assert Extended[i] == Entry(Standard[i - 12].0, Standard[i - 12].1, false);
      if remaining >= Extended[i].value {
        GreedyMatchesPlain(i, remaining - Extended[i].value);
      } else {
        GreedyMatchesPlain(i + 1, remaining);
      }
    }
  }

  // ---------------------------------------------------------------------------
  // The segment builder.

  /** Appending two texts with the same flag is appending their concatenation. */
  lemma AddTextTwice(acc: seq<Segment>, t1: string, t2: string, overline: bool)
    requires t1 != []
    ensures AddText(AddText(acc, t1, overline), t2, overline) == AddText(acc, t1 + t2, overline)
  {
    if |acc| > 0 && acc[|acc| - 1].overline == overline {
      assert acc[|acc| - 1].text + t1 + t2 == acc[|acc| - 1].text + (t1 + t2);
    }
  }

  /** Rows that all share one flag end up in one segment. */
  lemma {:induction false} GatherUniform(acc: seq<Segment>, es: seq<Entry>, overline: bool)
    requires es != []
    requires forall k :: 0 <= k < |es| ==> es[k].overline == overline && es[k].numeral != []
    ensures Gather(acc, es) == AddText(acc, Numerals(es), overline)
    decreases |es|
  {
    if |es| == 1 {
      assert es[1..] == [];
      assert Numerals(es) == es[0].numeral + Numerals([]);
      assert es[0].numeral + [] == es[0].numeral;
      assert Gather(acc, es) == Gather(AddText(acc, es[0].numeral, overline), []);
    } else {
      GatherUniform(AddText(acc, es[0].numeral, overline), es[1..], overline);
      AddTextTwice(acc, es[0].numeral, Numerals(es[1..]), overline);
    }
  }

  /** The builder keeps segments non-empty and alternating, and (fed vinculum
      rows before plain ones) keeps at most two segments, the vinculum one first. */
  lemma {:induction false} GatherShape(acc: seq<Segment>, es: seq<Entry>)
    requires Alternating(acc)
    requires |acc| <= 2 && (|acc| == 2 ==> acc[0].overline && !acc[1].overline)
    requires forall k :: 0 <= k < |es| ==> es[k].numeral != []
    requires forall k :: 0 < k < |es| ==> es[k].overline ==> es[k - 1].overline
    requires es != [] && es[0].overline && acc != [] ==> acc[|acc| - 1].overline
    ensures Alternating(Gather(acc, es))
    ensures |Gather(acc, es)| <= 2
    ensures |Gather(acc, es)| == 2 ==> Gather(acc, es)[0].overline && !Gather(acc, es)[1].overline
    ensures |Gather(acc, es)| >= |acc| && (es != [] ==> Gather(acc, es) != [])
    decreases |es|
  {
    if es != [] {
      var next := AddText(acc, es[0].numeral, es[0].overline);
      GatherShape(next, es[1..]);
    }
  }

  /** Everything the source and its tests promise about `toRomanSegments`:
      empty exactly out of range; otherwise non-empty, alternating, at most two
      segments with the vinculum one first, and the emitted values sum to num. */
  lemma {:induction false} SegmentsFacts(num: int)
    ensures Segments(num) == [] <==> num < 1 || num > MaxExtended
    ensures Alternating(Segments(num))
    ensures |Segments(num)| <= 2
    ensures |Segments(num)| == 2 ==> Segments(num)[0].overline && !Segments(num)[1].overline
    ensures 1 <= num <= MaxExtended ==> Sum(Greedy(0, num)) == num
  {
    if 1 <= num <= MaxExtended {
      var es := Greedy(0, num);
      GreedyShape(0, num);
      GreedySum(0, num);
      assert es != [];
      forall k | 0 < k < |es| && es[k].overline ensures es[k - 1].overline {
        assert WellFormed(es[k]) && WellFormed(es[k - 1]);
      }
      forall k | 0 <= k < |es| ensures es[k].numeral != [] {
        assert WellFormed(es[k]);
      }
      GatherShape([], es);
    }
  }

  /** `toRoman` is empty exactly out of 1..3999. */
  lemma {:induction false} PlainFacts(num: int)
    ensures Plain(num) == [] <==> num < 1 || num > MaxPlain
  {
    if 1 <= num <= MaxPlain {
      PlainAgreesWithExtended(num);
    }
  }

  /** On 1..3999 the extended encoder gives one plain segment holding exactly
      what the plain encoder gives. */
  lemma {:induction false} PlainAgreesWithExtended(num: int)
    requires 1 <= num <= MaxPlain
    ensures Segments(num) == [Segment(Plain(num), false)]
    ensures Plain(num) != []
  {
    ExtendedFromStandard();
    GreedySkipsVinculum(0, num);
    GreedyMatchesPlain(12, num);
    GreedyShape(12, num);
    GreedySum(12, num);
    var es := Greedy(12, num);
    assert es != [];
    forall k | 0 <= k < |es| ensures es[k].numeral != [] {
      assert WellFormed(es[k]);
    }
    GatherUniform([], es, false);
    SpelledLetters(es);
  }

  // ---------------------------------------------------------------------------
  // The marked string.

  lemma {:induction false} MarkEachSpells(text: string)
    ensures MarkEach(text) == Render(SymbolsOf(text, true))
    decreases |text|
  {
    if text != [] {
      assert SymbolsOf(text, true)[1..] == SymbolsOf(text[1..], true);
      MarkEachSpells(text[1..]);
    }
  }

  lemma {:induction false} PlainSpells(text: string)
    ensures text == Render(SymbolsOf(text, false))
    decreases |text|
  {
    if text != [] {
      assert SymbolsOf(text, false)[1..] == SymbolsOf(text[1..], false);
      PlainSpells(text[1..]);
      assert text == [text[0]] + text[1..];
    }
  }

  /** A segment is written as the symbols of its text. */
  lemma RenderSegmentSpells(seg: Segment)
    ensures RenderSegment(seg) == Render(SymbolsOf(seg.text, seg.overline))
  {
    if seg.overline {
      MarkEachSpells(seg.text);
    } else {
      PlainSpells(seg.text);
    }
  }

  lemma {:induction false} JoinRenderedSnoc(segments: seq<Segment>, seg: Segment)
    ensures JoinRendered(segments + [seg]) == JoinRendered(segments) + RenderSegment(seg)
    decreases |segments|
  {
    if segments == [] {
      assert [] + [seg] == [seg];
    } else {
      assert (segments + [seg])[1..] == segments[1..] + [seg];
      JoinRenderedSnoc(segments[1..], seg);
    }
  }

  lemma AddTextRendersMerge(acc: seq<Segment>, text: string, overline: bool)
    requires |acc| > 0 && acc[|acc| - 1].overline == overline
    ensures JoinRendered(AddText(acc, text, overline)) == JoinRendered(acc) + Render(SymbolsOf(text, overline))
  {
    var last := acc[|acc| - 1];
    var front := acc[..|acc| - 1];
    var merged := Segment(last.text + text, overline);
    assert acc == front + [last];
    assert AddText(acc, text, overline) == front + [merged];
    calc {
      JoinRendered(front + [merged]);
      { JoinRenderedSnoc(front, merged); }
      JoinRendered(front) + RenderSegment(merged);
      { RenderSegmentSpells(merged); SymbolsOfAppend(last.text, text, overline); }
      JoinRendered(front) + Render(SymbolsOf(last.text, overline) + SymbolsOf(text, overline));
      { RenderAppend(SymbolsOf(last.text, overline), SymbolsOf(text, overline)); }
      JoinRendered(front) + (Render(SymbolsOf(last.text, overline)) + Render(SymbolsOf(text, overline)));
      { RenderSegmentSpells(last); }
      (JoinRendered(front) + RenderSegment(last)) + Render(SymbolsOf(text, overline));
      { JoinRenderedSnoc(front, last); }
      JoinRendered(front + [last]) + Render(SymbolsOf(text, overline));
    }
  }

  lemma AddTextRenders(acc: seq<Segment>, text: string, overline: bool)
    ensures JoinRendered(AddText(acc, text, overline)) == JoinRendered(acc) + Render(SymbolsOf(text, overline))
  {
    if |acc| > 0 && acc[|acc| - 1].overline == overline {
      AddTextRendersMerge(acc, text, overline);
    } else {
      JoinRenderedSnoc(acc, Segment(text, overline));
      RenderSegmentSpells(Segment(text, overline));
    }
  }

  lemma {:induction false} GatherRenders(acc: seq<Segment>, es: seq<Entry>)
    ensures JoinRendered(Gather(acc, es)) == JoinRendered(acc) + Render(Spelled(es))
    decreases |es|
  {
    if es != [] {
      var e := es[0];
      AddTextRenders(acc, e.numeral, e.overline);
      GatherRenders(AddText(acc, e.numeral, e.overline), es[1..]);
      RenderAppend(SymbolsOf(e.numeral, e.overline), Spelled(es[1..]));
    }
  }

  /** The marked string is the greedy rows' symbols written out: every vinculum
      letter followed by U+0305, plain letters as they are, in segment order. */
  lemma ToRomanStringSpells(num: int)
    requires 1 <= num <= MaxExtended
    ensures ToRomanString(num) == Render(Spelled(Greedy(0, num)))
  {
    GatherRenders([], Greedy(0, num));
  }

  /** On 1..3999 the marked string is the plain numeral; U+0305 appears in the
      marked string exactly when the number is 4000 or more. */
  lemma {:induction false} ToRomanStringOverline(num: int)
    requires 1 <= num <= MaxExtended
    ensures num <= MaxPlain ==> ToRomanString(num) == Plain(num)
    ensures Overline in ToRomanString(num) <==> num >= 4000
    ensures AllRomanChars(ToRomanString(num)) && ToRomanString(num) != []
  {
    var es := Greedy(0, num);
    ToRomanStringSpells(num);
    GreedyShape(0, num);
    SpelledLetters(es);
    RenderChars(Spelled(es));
    if num <= MaxPlain {
      PlainAgreesWithExtended(num);
      var seg := Segment(Plain(num), false);
      assert [seg][1..] == [];
      assert JoinRendered([seg]) == RenderSegment(seg) + JoinRendered([]);
      assert ToRomanString(num) == JoinRendered([seg]);
      GreedySkipsVinculum(0, num);
      GreedyMatchesPlain(12, num);
      SpelledLetters(Greedy(12, num));
      assert Overline !in RomanToArabic;
    } else {
      GreedyStartsWithVinculum(0, num);
      assert SymbolsOf(es[0].numeral, es[0].overline)[0] == Spelled(es)[0];
    }
  }
}
