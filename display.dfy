/** The display side: the placeholder for out-of-range values, and the parser
    that splits a marked string back into overlined and plain runs. */
module RomanDisplay {
  import opened RomanSymbols
  import opened RomanEncode

  /** What `RomanDisplay` shows: a dash when there are no segments, otherwise
      one span per segment. */
  datatype View = Dash | Spans(segments: seq<Segment>)

  /** `RomanDisplay`: the dash appears exactly for values outside 1..3,999,999;
      otherwise the spans are the encoder's segments, which are non-empty and
      alternate between overlined and plain. */
  function DisplayView(value: int): (v: View)
    ensures v == Dash <==> value < 1 || value > MaxExtended
    ensures v.Spans? ==> v.segments == Segments(value)
    ensures v.Spans? ==> v.segments != [] && Alternating(v.segments)
  {
    SegmentsFacts(value);
    var segments := Segments(value);
    if |segments| == 0 then Dash else Spans(segments)
  }

  /** The characters of a text that are not U+0305, each flagged with whether
      U+0305 comes right after it; a mark after a mark is dropped. */
  function Flagged(text: string): seq<Symbol>
    decreases |text|
  {
    if text == [] then []
    else if text[0] == Overline then Flagged(text[1..])
    else
      var f := |text| > 1 && text[1] == Overline;
      [Symbol(text[0], f)] + Flagged(if f then text[2..] else text[1..])
  }

  /** Feeds flagged characters, one at a time, to the segment builder. */
  function GatherSymbols(acc: seq<Segment>, syms: seq<Symbol>): seq<Segment>
    decreases |syms|
  {
    if syms == [] then acc else GatherSymbols(AddText(acc, [syms[0].letter], syms[0].overline), syms[1..])
  }

  /** The runs `RomanText` renders. */
  function Split(text: string): seq<Segment> {
    GatherSymbols([], Flagged(text))
  }

  /** The parts pushed so far, followed by the part under construction if any. */
  function Pending(parts: seq<Segment>, currentPart: string, currentOverline: bool): seq<Segment> {
    if currentPart == [] then parts else parts + [Segment(currentPart, currentOverline)]
  }

  /** The segments' symbols, segment after segment. */
  function Expand(segments: seq<Segment>): seq<Symbol>
    decreases |segments|
  {
    if segments == [] then [] else SymbolsOf(segments[0].text, segments[0].overline) + Expand(segments[1..])
  }

  /** The segments' texts, concatenated. */
  function Texts(segments: seq<Segment>): string
    decreases |segments|
  {
    if segments == [] then [] else segments[0].text + Texts(segments[1..])
  }

  /** The text with every U+0305 removed. */
  function StripMarks(text: string): string
    decreases |text|
  {
    if text == [] then []
    else if text[0] == Overline then StripMarks(text[1..])
    else [text[0]] + StripMarks(text[1..])
  }

  function Letters(syms: seq<Symbol>): string
    decreases |syms|
  {
    if syms == [] then [] else [syms[0].letter] + Letters(syms[1..])
  }

  // ---------------------------------------------------------------------------
  // The loop of `RomanText`.

  /** `RomanText`: walks the text, skipping stray marks, closing the current part
      whenever the flag changes, and pushing the last part at the end. The parts
      are exactly `Split(text)`: non-empty, alternating, and spelling out the
      text's characters, each with whether U+0305 follows it. */
  method RomanText(text: string) returns (parts: seq<Segment>)
    ensures parts == Split(text)
    ensures Alternating(parts)
    ensures Expand(parts) == Flagged(text)
  {
    parts := [];
    var currentPart: string := [];
    var currentOverline := false;
    var i := 0;
    while i < |text|
      invariant 0 <= i <= |text|
      invariant currentPart == [] ==> parts == []
      invariant GatherSymbols(Pending(parts, currentPart, currentOverline), Flagged(text[i..])) == Split(text)
    {
      var c := text[i];
      var nextIsOverline := i + 1 < |text| && text[i + 1] == Overline;
      if c == Overline {
        FlaggedSkipsAt(text, i);
        i := i + 1;
        continue;
      }
      FlaggedLetterAt(text, i);
      ghost var before := Pending(parts, currentPart, currentOverline);
      ghost var joined := currentPart;
      if nextIsOverline != currentOverline && currentPart != [] {
        parts := parts + [Segment(currentPart, currentOverline)];
        currentPart := [];
      }
      currentOverline := nextIsOverline;
      currentPart := currentPart + [c];
      if |currentPart| > 1 {
        ReplaceLast(parts, Segment(joined, currentOverline), Segment(currentPart, currentOverline));
      } else {
        assert currentPart == [c];
      }
      assert Pending(parts, currentPart, currentOverline) == AddText(before, [c], nextIsOverline);
      i := i + 1;
      if nextIsOverline {
        i := i + 1;
      }
    }
    assert text[i..] == [];
    if currentPart != [] {
      parts := parts + [Segment(currentPart, currentOverline)];
    }
    SplitFacts(text);
  }

  lemma ReplaceLast(parts: seq<Segment>, x: Segment, y: Segment)
    ensures (parts + [x])[|parts| := y] == parts + [y]
  {
  }

  lemma FlaggedSkipsAt(text: string, i: nat)
    requires i < |text| && text[i] == Overline
    ensures Flagged(text[i..]) == Flagged(text[i + 1..])
  {
    assert text[i..][1..] == text[i + 1..];
  }

  lemma FlaggedLetterAt(text: string, i: nat)
    requires i < |text| && text[i] != Overline
    ensures var f := i + 1 < |text| && text[i + 1] == Overline;
      Flagged(text[i..]) == [Symbol(text[i], f)] + Flagged(text[if f then i + 2 else i + 1..])
  {
    var f := i + 1 < |text| && text[i + 1] == Overline;
    if f {
      assert text[i..][2..] == text[i + 2..];
    } else {
      assert text[i..][1..] == text[i + 1..];
    }
  }

  // ---------------------------------------------------------------------------
  // What the split keeps.

  lemma {:induction false} ExpandSnoc(segments: seq<Segment>, seg: Segment)
    ensures Expand(segments + [seg]) == Expand(segments) + SymbolsOf(seg.text, seg.overline)
    decreases |segments|
  {
    if segments == [] {
      assert [] + [seg] == [seg];
    } else {
      assert (segments + [seg])[1..] == segments[1..] + [seg];
      ExpandSnoc(segments[1..], seg);
    }
  }

  /** The builder only ever appends the symbols of what it is given. */
  lemma ExpandAddText(acc: seq<Segment>, text: string, overline: bool)
    ensures Expand(AddText(acc, text, overline)) == Expand(acc) + SymbolsOf(text, overline)
  {
    if |acc| > 0 && acc[|acc| - 1].overline == overline {
      var last := acc[|acc| - 1];
      var front := acc[..|acc| - 1];
      assert acc == front + [last];
      assert AddText(acc, text, overline) == front + [Segment(last.text + text, overline)];
      ExpandSnoc(front, Segment(last.text + text, overline));
      ExpandSnoc(front, last);
      SymbolsOfAppend(last.text, text, overline);
    } else {
      ExpandSnoc(acc, Segment(text, overline));
    }
  }

  /** The builder keeps segments non-empty and alternating. */
  lemma AddTextAlternating(acc: seq<Segment>, text: string, overline: bool)
    requires Alternating(acc) && text != []
    ensures Alternating(AddText(acc, text, overline)) && AddText(acc, text, overline) != []
  {
  }

  lemma {:induction false} GatherSymbolsKeeps(acc: seq<Segment>, syms: seq<Symbol>)
    requires Alternating(acc)
    ensures Alternating(GatherSymbols(acc, syms))
    ensures Expand(GatherSymbols(acc, syms)) == Expand(acc) + syms
    ensures GatherSymbols(acc, syms) == [] <==> acc == [] && syms == []
    decreases |syms|
  {
    if syms != [] {
      var s := syms[0];
      var next := AddText(acc, [s.letter], s.overline);
      assert GatherSymbols(acc, syms) == GatherSymbols(next, syms[1..]);
      AddSymbol(acc, s);
      GatherSymbolsKeeps(next, syms[1..]);
      assert (Expand(acc) + [s]) + syms[1..] == Expand(acc) + syms;
    }
  }

  /** One step of the splitter: adding a symbol's letter keeps the segments
      alternating and appends exactly that symbol. */
  lemma AddSymbol(acc: seq<Segment>, s: Symbol)
    requires Alternating(acc)
    ensures var next := AddText(acc, [s.letter], s.overline);
      Alternating(next) && next != [] && Expand(next) == Expand(acc) + [s]
  {
    AddTextAlternating(acc, [s.letter], s.overline);
    ExpandAddText(acc, [s.letter], s.overline);
    assert SymbolsOf([s.letter], s.overline) == [s];
  }

  lemma {:induction false} TextsAreLetters(segments: seq<Segment>)
    ensures Texts(segments) == Letters(Expand(segments))
    decreases |segments|
  {
    if segments != [] {
      TextsAreLetters(segments[1..]);
      LettersAppend(SymbolsOf(segments[0].text, segments[0].overline), Expand(segments[1..]));
      LettersOfSymbols(segments[0].text, segments[0].overline);
    }
  }

  lemma {:induction false} LettersAppend(a: seq<Symbol>, b: seq<Symbol>)
    ensures Letters(a + b) == Letters(a) + Letters(b)
    decreases |a|
  {
    if a == [] {
      assert a + b == b;
    } else {
      assert (a + b)[1..] == a[1..] + b;
      LettersAppend(a[1..], b);
    }
  }

  lemma {:induction false} LettersOfSymbols(text: string, overline: bool)
    ensures Letters(SymbolsOf(text, overline)) == text
    decreases |text|
  {
    if text != [] {
      assert SymbolsOf(text, overline)[1..] == SymbolsOf(text[1..], overline);
      LettersOfSymbols(text[1..], overline);
      assert text == [text[0]] + text[1..];
    }
  }

  /** Flagging drops the marks and keeps every other character, in order. */
  lemma {:induction false} FlaggedLetters(text: string)
    ensures Letters(Flagged(text)) == StripMarks(text)
    decreases |text|
  {
    if text != [] && text[0] != Overline {
      var f := |text| > 1 && text[1] == Overline;
      if f {
        FlaggedLetters(text[2..]);
        assert text[1..][0] == Overline && text[1..][1..] == text[2..];
      } else {
        FlaggedLetters(text[1..]);
      }
    } else if text != [] {
      FlaggedLetters(text[1..]);
    }
  }

  /** The split's runs are non-empty and alternate; they are empty exactly when
      the text holds nothing but marks; they carry every character but the marks,
      in order, each flagged exactly when U+0305 follows it; so their texts,
      concatenated, are the text with the marks removed. */
  lemma SplitFacts(text: string)
    ensures Alternating(Split(text))
    ensures Expand(Split(text)) == Flagged(text)
    ensures Texts(Split(text)) == StripMarks(text)
    ensures Split(text) == [] <==> StripMarks(text) == []
  {
    GatherSymbolsKeeps([], Flagged(text));
    TextsAreLetters(Split(text));
    FlaggedLetters(text);
  }

  // ---------------------------------------------------------------------------
  // Splitting what the encoder writes.

  /** Writing symbols out and flagging them again gives the same symbols. */
  lemma {:induction false} FlaggedRender(syms: seq<Symbol>)
    requires AllLetters(syms)
    ensures Flagged(Render(syms)) == syms
    decreases |syms|
  {
    if syms != [] {
      var s := syms[0];
      var t := Render(syms);
      var rest := Render(syms[1..]);
      assert t == [s.letter] + (if s.overline then [Overline] else []) + rest;
      assert s.letter != Overline;
      if !s.overline && syms[1..] != [] {
        RenderChars(syms[1..]);
        assert t[1] == rest[0] == syms[1].letter;
      }
      assert (if |t| > 1 && t[1] == Overline then t[2..] else t[1..]) == rest;
      FlaggedRender(syms[1..]);
    }
  }

  lemma {:induction false} GatherSymbolsAppend(acc: seq<Segment>, a: seq<Symbol>, b: seq<Symbol>)
    ensures GatherSymbols(acc, a + b) == GatherSymbols(GatherSymbols(acc, a), b)
    decreases |a|
  {
    if a == [] {
      assert a + b == b;
    } else {
      assert (a + b)[1..] == a[1..] + b;
      GatherSymbolsAppend(AddText(acc, [a[0].letter], a[0].overline), a[1..], b);
    }
  }

  /** Feeding a numeral letter by letter is feeding it whole. */
  lemma {:induction false} GatherSymbolsOf(acc: seq<Segment>, text: string, overline: bool)
    requires text != []
    ensures GatherSymbols(acc, SymbolsOf(text, overline)) == AddText(acc, text, overline)
    decreases |text|
  {
    var syms := SymbolsOf(text, overline);
    var head := AddText(acc, [text[0]], overline);
    assert syms[1..] == SymbolsOf(text[1..], overline);
    if |text| == 1 {
      assert text == [text[0]];
    } else {
      GatherSymbolsOf(head, text[1..], overline);
      AddTextTwice(acc, [text[0]], text[1..], overline);
      assert [text[0]] + text[1..] == text;
    }
  }

  /** Feeding the symbols of whole rows is feeding the rows. */
  lemma {:induction false} GatherSymbolsSpelled(acc: seq<Segment>, es: seq<Entry>)
    requires forall k :: 0 <= k < |es| ==> es[k].numeral != []
    ensures GatherSymbols(acc, Spelled(es)) == Gather(acc, es)
    decreases |es|
  {
    if es != [] {
      var e := es[0];
      GatherSymbolsAppend(acc, SymbolsOf(e.numeral, e.overline), Spelled(es[1..]));
      GatherSymbolsOf(acc, e.numeral, e.overline);
      GatherSymbolsSpelled(AddText(acc, e.numeral, e.overline), es[1..]);
    }
  }

  /** Splitting the marked string the encoder writes gives back its segments. */
  lemma SplitOfEncoded(num: int)
    requires 1 <= num <= MaxExtended
    ensures Split(ToRomanString(num)) == Segments(num)
  {
    var es := Greedy(0, num);
    ToRomanStringSpells(num);
    GreedyShape(0, num);
    SpelledLetters(es);
    FlaggedRender(Spelled(es));
    forall k | 0 <= k < |es| ensures es[k].numeral != [] {
      assert WellFormed(es[k]);
    }
    GatherSymbolsSpelled([], es);
  }
}
