/** The input checks: strict validation by round trip, and the two character
    tests the converter uses to guess which way to convert. */
module RomanValidate {
  import opened JsText
  import opened RomanSymbols
  import opened RomanEncode
  import opened RomanDecode
  import opened RomanRoundTrip

  /** The text is what the encoder writes for some number in 1..3,999,999. */
  ghost predicate Written(t: string) {
    exists v :: 1 <= v <= MaxExtended && ToRomanString(v) == t
  }

  /** A written text is non-empty, legal, normalised, and decodes to the number
      that writes it. */
  lemma WrittenFacts(t: string)
    requires Written(t)
    ensures t != [] && AllRomanChars(t) && Upper(t) == t && Normalize(t) == t
    ensures 1 <= Decode(t) <= MaxExtended && ToRomanString(Decode(t)) == t
  {
    var v :| 1 <= v <= MaxExtended && ToRomanString(v) == t;
    ToRomanStringOverline(v);
    NormalizeKeepsRoman(t);
    RoundTrip(v);
  }

  /** The character loop `isValidRoman` and `looksLikeRoman` share: every
      character must be U+0305 or a key of the letter table; the first one that
      is not ends the loop. */
  method CheckChars(t: string) returns (ok: bool)
    ensures ok == AllRomanChars(t)
  {
    for k := 0 to |t|
      invariant forall j :: 0 <= j < k ==> IsRomanChar(t[j])
    {
      if t[k] != Overline && t[k] !in RomanToArabic {
        return false;
      }
    }
    return true;
  }

  /** `isValidRoman`: the normalised input must be non-empty and legal, decode to
      a number in range, and be exactly what the encoder writes for that number.
      Valid inputs are therefore exactly the encoder's outputs, up to case and
      surrounding white space. */
  method IsValidRoman(roman: string) returns (valid: bool)
    ensures valid <==> Written(Normalize(roman))
    ensures valid ==> ToRomanString(Decode(roman)) == Normalize(roman)
  {
    var normalized := Normalize(roman);
    if Written(normalized) {
      WrittenFacts(normalized);
    }
    if normalized == [] {
      return false;
    }
    var legal := CheckChars(normalized);
    if !legal {
      return false;
    }
    var value := FromRoman(normalized);
    DecodeNormalizes(roman);
    if value < 1 || value > MaxExtended {
      return false;
    }
    var roundTrip := ToRomanString(value);
    ToRomanStringOverline(value);
    NormalizeKeepsRoman(roundTrip);
    valid := Upper(roundTrip) == normalized;
  }

  /** What `looksLikeRoman` accepts: a non-empty normalised input made only of
      table letters and U+0305. */
  predicate RomanShaped(input: string) {
    var t := Normalize(input);
    t != [] && AllRomanChars(t)
  }

  /** `looksLikeRoman`: the character loop with its early exit. */
  method LooksLikeRoman(input: string) returns (r: bool)
    ensures r == RomanShaped(input)
  {
    var normalized := Normalize(input);
    if normalized == [] {
      return false;
    }
    r := CheckChars(normalized);
  }

  /** Whatever is valid also looks like a Roman numeral. */
  lemma ValidLooksRoman(input: string)
    requires Written(Normalize(input))
    ensures RomanShaped(input)
  {
    WrittenFacts(Normalize(input));
  }

  /** `fromRoman` gives 0 on anything that does not look like a Roman numeral;
      on what does, it gives a positive number exactly when there is a letter. */
  lemma DecodeOfShape(input: string)
    ensures !RomanShaped(input) ==> Decode(input) == 0
    ensures RomanShaped(input) ==> (Decode(input) > 0 <==> HasLetter(Normalize(input)))
  {
    DecodeZero(input);
  }

  /** The regular expression `^\d+$` over the whole text: one or more ASCII digits. */
  function MatchDigits(t: string): (r: bool)
    ensures r <==> t != [] && forall k :: 0 <= k < |t| ==> IsAsciiDigit(t[k])
  {
    t != [] && IsAsciiDigit(t[0]) && (|t| == 1 || MatchDigits(t[1..]))
  }

  /** `looksLikeArabic`: the trimmed input is a run of ASCII digits; case does not
      matter and letters never pass. */
  function LooksLikeArabic(input: string): (r: bool)
    ensures r ==> Trim(input) != [] && forall k :: 0 <= k < |Trim(input)| ==> IsAsciiDigit(Trim(input)[k])
    ensures Trim(input) != [] && (forall k :: 0 <= k < |Trim(input)| ==> IsAsciiDigit(Trim(input)[k])) ==> r
  {
    MatchDigits(Trim(input))
  }

  /** No input looks both Arabic and Roman. */
  lemma ArabicNotRoman(input: string)
    requires LooksLikeArabic(input)
    ensures !RomanShaped(input)
  {
    var t := Trim(input);
    TrimUpperCommute(input);
    UpperKeeps(t);
    assert Normalize(input) == t;
    DigitNotRoman(t[0]);
  }

  lemma DigitNotRoman(c: char)
    requires IsAsciiDigit(c)
    ensures !IsRomanChar(c)
  {
  }

  /** What the encoder writes never looks Arabic. */
  lemma WrittenNotArabic(num: int)
    requires 1 <= num <= MaxExtended
    ensures !LooksLikeArabic(ToRomanString(num))
  {
    var t := ToRomanString(num);
    ToRomanStringOverline(num);
    NormalizeKeepsRoman(t);
    if LooksLikeArabic(t) {
      ArabicNotRoman(t);
    }
  }
}
