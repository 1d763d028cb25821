/**
 * The formatter: parses a code and writes its elements back out as an
 * ISBN-10, a hyphenated ISBN-13, an EAN-13 or a GTIN-14, each with a freshly
 * computed check character. It adds no validation of its own.
 */
module Formatter {
  import opened Wrappers
  import opened Text
  import opened Ranges
  import opened Parser
  import opened Checksums

  /** Appending "-" and a separator-free part adds exactly that part once separators are stripped. */
  lemma StripHyphenPart(s: string, part: string)
    requires NoSeparators(part)
    ensures StripUnwantedCharacters(s + "-" + part) == StripUnwantedCharacters(s) + part
  {
    StripConcat(s + "-", part);
    StripConcat(s, "-");
    StripSingle('-');
    StripWithoutSeparators(part);
  }

  /** The three elements after the prefix are digit strings. */
  lemma ElementsAreDigits(p: ParsedIsbn)
    requires WellFormed(p)
    ensures AllDigits(p.gs1Element) && AllDigits(p.registrationGroupElement)
    ensures AllDigits(p.registrantElement) && AllDigits(p.publicationElement)
    ensures AllDigits(p.gs1Element + p.registrationGroupElement + p.registrantElement + p.publicationElement)
    ensures p.gs1Element + p.registrationGroupElement + p.registrantElement + p.publicationElement
         == p.gs1Element + p.Significant()
  {
    AllDigitsConcat(p.registrationGroupElement + p.registrantElement, p.publicationElement);
    AllDigitsConcat(p.registrationGroupElement, p.registrantElement);
    AllDigitsConcat(p.gs1Element, p.Significant());
  }

  /** "group-registrant-publication-check": the prefix plays no part. */
  function Isbn10Of(p: ParsedIsbn): (r: string)
    requires WellFormed(p)
    ensures |r| == 13
    ensures r == p.registrationGroupElement + "-" + p.registrantElement + "-" + p.publicationElement + "-" + [r[12]]
    ensures |StripUnwantedCharacters(r)| == 10 && StripUnwantedCharacters(r)[..9] == p.Significant()
    ensures IsValidIsbn10(StripUnwantedCharacters(r))
  {
    var check := CheckCharacter10(Checksum10(p.Significant()));
    var r := p.registrationGroupElement + "-" + p.registrantElement + "-" + p.publicationElement + "-" + [check];
    ElementsAreDigits(p);
    DigitsHaveNoSeparators(p.registrationGroupElement);
    DigitsHaveNoSeparators(p.registrantElement);
    DigitsHaveNoSeparators(p.publicationElement);
    StripWithoutSeparators(p.registrationGroupElement);
    StripHyphenPart(p.registrationGroupElement, p.registrantElement);
    StripHyphenPart(p.registrationGroupElement + "-" + p.registrantElement, p.publicationElement);
    StripHyphenPart(p.registrationGroupElement + "-" + p.registrantElement + "-" + p.publicationElement, [check]);
    CheckCharacterCompletesIsbn10(p.Significant());
    assert (p.Significant() + [check])[..9] == p.Significant();
    r
  }

  /** The twelve parsed digits and their GS1 check digit, without separators. */
  function Ean13Of(p: ParsedIsbn): (r: string)
    requires WellFormed(p)
    ensures |r| == 13 && r[..12] == p.gs1Element + p.Significant()
    ensures IsValidGs1(r)
  {
    ElementsAreDigits(p);
    var data := p.gs1Element + p.registrationGroupElement + p.registrantElement + p.publicationElement;
    var checksum := Checksum13(data);
    CheckDigitCompletesGs1(data);
    assert (data + [DigitChar(checksum)])[..12] == data;
    data + [DigitChar(checksum)]
  }

  /** "gs1-group-registrant-publication-check": the EAN-13 with its elements hyphenated. */
  function Isbn13Of(p: ParsedIsbn): (r: string)
    requires WellFormed(p)
    ensures |r| == 17
    ensures r == p.gs1Element + "-" + p.registrationGroupElement + "-" + p.registrantElement
              + "-" + p.publicationElement + "-" + [r[16]]
    ensures StripUnwantedCharacters(r) == Ean13Of(p)
  {
    ElementsAreDigits(p);
    var data := p.gs1Element + p.registrationGroupElement + p.registrantElement + p.publicationElement;
    var check := DigitChar(Checksum13(data));
    var r := p.gs1Element + "-" + p.registrationGroupElement + "-" + p.registrantElement
      + "-" + p.publicationElement + "-" + [check];
    DigitsHaveNoSeparators(p.gs1Element);
    DigitsHaveNoSeparators(p.registrationGroupElement);
    DigitsHaveNoSeparators(p.registrantElement);
    DigitsHaveNoSeparators(p.publicationElement);
    StripWithoutSeparators(p.gs1Element);
    StripHyphenPart(p.gs1Element, p.registrationGroupElement);
    StripHyphenPart(p.gs1Element + "-" + p.registrationGroupElement, p.registrantElement);
    StripHyphenPart(p.gs1Element + "-" + p.registrationGroupElement + "-" + p.registrantElement, p.publicationElement);
    StripHyphenPart(p.gs1Element + "-" + p.registrationGroupElement + "-" + p.registrantElement
      + "-" + p.publicationElement, [check]);
    r
  }

  /** The one-digit prefix, the twelve parsed digits and a check digit computed over all thirteen. */
  function Gtin14Of(p: ParsedIsbn, prefix: nat): (r: string)
    requires WellFormed(p) && prefix <= 9
    ensures |r| == 14 && r[0] == DigitChar(prefix) && r[1..13] == p.gs1Element + p.Significant()
    ensures IsValidGs1(r)
  {
    ElementsAreDigits(p);
    var gs1ElementWithPrefix := [DigitChar(prefix)] + p.gs1Element;
    var data := gs1ElementWithPrefix + p.registrationGroupElement + p.registrantElement + p.publicationElement;
    AllDigitsConcat([DigitChar(prefix)], p.gs1Element + p.Significant());
    assert data == [DigitChar(prefix)] + (p.gs1Element + p.Significant());
    var checksum := Checksum13(data);
    CheckDigitCompletesGs1(data);
    assert (data + [DigitChar(checksum)])[1..13] == p.gs1Element + p.Significant();
    [DigitChar(prefix)] + p.gs1Element + p.registrationGroupElement + p.registrantElement
      + p.publicationElement + [DigitChar(checksum)]
  }

  /** ISBN-10 of a code; fails exactly when parsing fails, with the same error. */
  function FormatAsIsbn10(t: RangeTable, input: string): (r: Result<string, ParseError>)
    ensures r.Success? <==> Parse(t, input).Success?
    ensures r.Failure? ==> r.error == Parse(t, input).error
    ensures r.Success? ==>
              && |r.value| == 13
              && (var p := Parse(t, input).value;
                  r.value == p.registrationGroupElement + "-" + p.registrantElement + "-" + p.publicationElement
                             + "-" + [r.value[12]])
              && IsValidIsbn10(StripUnwantedCharacters(r.value))
              && StripUnwantedCharacters(r.value)[..9] == Parse(t, input).value.Significant()
  {
    var isbn :- Parse(t, input);
    Success(Isbn10Of(isbn))
  }

  /** Hyphenated ISBN-13 of a code; fails exactly when parsing fails, with the same error. */
  function FormatAsIsbn13(t: RangeTable, input: string): (r: Result<string, ParseError>)
    ensures r.Success? <==> Parse(t, input).Success?
    ensures r.Failure? ==> r.error == Parse(t, input).error
    ensures r.Success? ==>
              && |r.value| == 17
              && (var p := Parse(t, input).value;
                  r.value == p.gs1Element + "-" + p.registrationGroupElement + "-" + p.registrantElement
                             + "-" + p.publicationElement + "-" + [r.value[16]])
              && StripUnwantedCharacters(r.value) == FormatAsEan13(t, input).value
  {
    var isbn :- Parse(t, input);
    Success(Isbn13Of(isbn))
  }

  /** EAN-13 of a code; fails exactly when parsing fails, with the same error. */
  function FormatAsEan13(t: RangeTable, input: string): (r: Result<string, ParseError>)
    ensures r.Success? <==> Parse(t, input).Success?
    ensures r.Failure? ==> r.error == Parse(t, input).error
    ensures r.Success? ==>
              && |r.value| == 13
              && IsValidGs1(r.value)
              && r.value[..12] == Parse(t, input).value.gs1Element + Parse(t, input).value.Significant()
  {
    var isbn :- Parse(t, input);
    Success(Ean13Of(isbn))
  }

  /** GTIN-14 of a code under a one-digit prefix; fails exactly when parsing fails, with the same error. */
  function FormatAsGtin14(t: RangeTable, input: string, prefix: nat): (r: Result<string, ParseError>)
    requires prefix <= 9
    ensures r.Success? <==> Parse(t, input).Success?
    ensures r.Failure? ==> r.error == Parse(t, input).error
    ensures r.Success? ==>
              && |r.value| == 14
              && r.value[0] == DigitChar(prefix)
              && IsValidGs1(r.value)
              && r.value[1..13] == Parse(t, input).value.gs1Element + Parse(t, input).value.Significant()
  {
    var isbn :- Parse(t, input);
    Success(Gtin14Of(isbn, prefix))
  }
}
