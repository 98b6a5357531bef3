/** Worked cases from the library's own test suite, proved on the model. */
module RomanExamples {
  import opened JsText
  import opened RomanSymbols
  import opened RomanEncode
  import opened RomanDecode
  import opened RomanRoundTrip
  import opened RomanValidate

  lemma PlainFour()
    ensures Plain(4) == "IV"
  {
    assert PlainGreedy(13, 0) == [];
    assert PlainGreedy(12, 0) == [];
    assert PlainGreedy(11, 0) == [];
    assert PlainGreedy(11, 4) == "IV";
    assert PlainGreedy(6, 4) == "IV";
    assert PlainGreedy(0, 4) == "IV";
  }

  lemma ScanFourStrokes()
    ensures Scan("IIII") == Some(4)
  {
    assert "IIII"[1..] == "III" && "III"[1..] == "II" && "II"[1..] == "I" && "I"[1..] == [];
    assert Scan("I") == Some(1);
    assert Scan("II") == Some(2);
    assert Scan("III") == Some(3);
  }

  /** "IIII" decodes to 4, yet it is not valid: the encoder writes 4 as "IV". */
  lemma FourStrokes()
    ensures Decode("IIII") == 4
    ensures !Written(Normalize("IIII"))
  {
    assert AllRomanChars("IIII");
    NormalizeKeepsRoman("IIII");
    ScanFourStrokes();
    if Written("IIII") {
      WrittenFacts("IIII");
      ToRomanStringOverline(4);
      PlainFour();
    }
  }

  lemma ScanYear()
    ensures Scan("MCMXCIV") == Some(1994)
  {
    assert "MCMXCIV"[1..] == "CMXCIV" && "CMXCIV"[1..] == "MXCIV" && "MXCIV"[1..] == "XCIV";
    assert "XCIV"[1..] == "CIV" && "CIV"[1..] == "IV" && "IV"[1..] == "V" && "V"[1..] == [];
    assert Scan("V") == Some(5);
    assert Scan("IV") == Some(4);
    assert Scan("CIV") == Some(104);
    assert Scan("XCIV") == Some(94);
    assert Scan("MXCIV") == Some(1094);
    assert Scan("CMXCIV") == Some(994);
  }

  /** Lower case is read as upper case: "mcmxciv" is 1994. */
  lemma LowerCaseYear()
    ensures Decode("mcmxciv") == 1994
  {
    assert Upper("mcmxciv") == "MCMXCIV";
    assert AllRomanChars("MCMXCIV");
    NormalizeKeepsRoman("MCMXCIV");
    NormalizeUpper("mcmxciv");
    ScanYear();
  }

  /** Letters outside the table give 0. */
  lemma NotRoman()
    ensures Decode("ABC") == 0
  {
    assert forall k :: 0 <= k < 3 ==> !IsLower("ABC"[k]);
    UpperKeeps("ABC");
    TrimKeeps("ABC");
    assert !IsRomanChar("ABC"[0]);
    DecodeZero("ABC");
  }

  // ---------------------------------------------------------------------------
  // Encoder cases.

  /** The greedy scan passes over rows worth more than what remains. */
  lemma {:induction false} GreedySkips(i: nat, r: nat, remaining: nat)
    requires i <= r <= |Extended|
    requires forall k :: i <= k < r ==> Extended[k].value > remaining
    ensures Greedy(i, remaining) == Greedy(r, remaining)
    decreases r - i
  {
    if i < r {
      GreedySkips(i + 1, r, remaining);
    }
  }

  /** With nothing left the greedy scan emits nothing. */
  lemma {:induction false} GreedyDone(i: nat)
    requires i <= |Extended|
    ensures Greedy(i, 0) == []
    decreases |Extended| - i
  {
    if i < |Extended| {
      GreedyDone(i + 1);
    }
  }

  lemma {:induction false} PlainGreedySkips(i: nat, r: nat, remaining: nat)
    requires i <= r <= |Standard|
    requires forall k :: i <= k < r ==> Standard[k].0 > remaining
    ensures PlainGreedy(i, remaining) == PlainGreedy(r, remaining)
    decreases r - i
  {
    if i < r {
      PlainGreedySkips(i + 1, r, remaining);
    }
  }

  lemma {:induction false} PlainGreedyDone(i: nat)
    requires i <= |Standard|
    ensures PlainGreedy(i, 0) == []
    decreases |Standard| - i
  {
    if i < |Standard| {
      PlainGreedyDone(i + 1);
    }
  }

  /** The rows the scan takes for 4000: the barred IV alone. */
  lemma GreedyFourThousand()
    ensures Greedy(0, 4000) == [Extended[11]]
  {
    ExtendedDescends();
    GreedySkips(0, 11, 4000);
    GreedyDone(11);
  }

  /** 4000 is a barred IV: one segment, written with U+0305 after each letter. */
  lemma FourThousand()
    ensures Segments(4000) == [Segment("IV", true)]
    ensures ToRomanString(4000) == ['I', Overline, 'V', Overline]
  {
    GreedyFourThousand();
    var e := Extended[11];
    assert Gather([], [e]) == Gather(AddText([], "IV", true), []);
    FourThousandWritten();
  }

  /** A barred IV on its own is written I, U+0305, V, U+0305. */
  lemma FourThousandWritten()
    ensures JoinRendered([Segment("IV", true)]) == ['I', Overline, 'V', Overline]
  {
    var seg := Segment("IV", true);
    assert [seg][1..] == [];
    assert "IV"[1..] == "V" && "V"[1..] == [];
    assert MarkEach("IV") == ['I', Overline] + MarkEach("V");
  }

  /** The rows the scan takes for 4500: the barred IV, then D. */
  lemma GreedyFourThousandFiveHundred()
    ensures Greedy(0, 4500) == [Extended[11], Extended[14]]
  {
    ExtendedDescends();
    GreedySkips(0, 11, 4500);
    GreedySkips(12, 14, 500);
    GreedyDone(14);
    assert Greedy(11, 500) == Greedy(12, 500);
  }

  /** 4500 is a barred IV followed by a plain D. */
  lemma FourThousandFiveHundred()
    ensures Segments(4500) == [Segment("IV", true), Segment("D", false)]
  {
    GreedyFourThousandFiveHundred();
    var iv, d := Extended[11], Extended[14];
    assert [iv, d][1..] == [d];
    var first := AddText([], "IV", true);
    assert Gather([], [iv, d]) == Gather(first, [d]);
    assert Gather(first, [d]) == Gather(AddText(first, "D", false), []);
  }

  /** 1994 is MCMXCIV. */
  lemma PlainYear()
    ensures Plain(1994) == "MCMXCIV"
  {
    PlainGreedySkips(2, 5, 94);
    PlainGreedySkips(6, 11, 4);
    PlainGreedyDone(11);
    assert PlainGreedy(11, 4) == "IV";
    assert PlainGreedy(5, 94) == "XC" + PlainGreedy(5, 4);
    assert PlainGreedy(5, 4) == PlainGreedy(11, 4);
    assert PlainGreedy(1, 994) == "CM" + PlainGreedy(1, 94);
    assert PlainGreedy(1, 94) == PlainGreedy(5, 94);
    assert PlainGreedy(0, 1994) == "M" + PlainGreedy(0, 994);
    assert PlainGreedy(0, 994) == PlainGreedy(1, 994);
  }
}
