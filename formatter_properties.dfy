/** Round trips between the formatter and the parser, and relations between the output formats. */
module FormatterProperties {
  import opened Wrappers
  import opened Text
  import opened Ranges
  import opened Parser
  import opened ParserProperties
  import opened Checksums
  import opened Formatter

  /** The ISBN-10 depends on group, registrant and publication only, not on the GS1 prefix. */
  lemma Isbn10IgnoresGs1(p: ParsedIsbn, gs1: string)
    requires WellFormed(p) && IsBookland(gs1)
    ensures Isbn10Of(p.(gs1Element := gs1)) == Isbn10Of(p)
  {
  }

  /** With prefix 0 the GTIN-14 is "0" followed by the EAN-13: a leading zero does not move the check digit. */
  lemma Gtin14WithZeroPrefix(t: RangeTable, input: string)
    ensures var ean := FormatAsEan13(t, input);
      FormatAsGtin14(t, input, 0) == if ean.Success? then Success("0" + ean.value) else ean
  {
    if Parse(t, input).Success? {
      Gtin14OfZero(Parse(t, input).value);
    }
  }

  lemma Gtin14OfZero(p: ParsedIsbn)
    requires WellFormed(p)
    ensures Gtin14Of(p, 0) == "0" + Ean13Of(p)
  {
    var gtin, ean := Gtin14Of(p, 0), Ean13Of(p);
    var data := p.gs1Element + p.Significant();
    assert gtin == "0" + data + [gtin[13]];
    assert ean == data + [ean[12]];
    AllDigitsConcat(data, [ean[12]]);
    AllDigitsConcat("0" + data, [gtin[13]]);
    Gs1SumAppend("0" + data, gtin[13]);
    Gs1SumAppend(data, ean[12]);
    LeadingZeroNeutral(data, true);
    assert (data + [gtin[13]])[..12] == data;
    Gs1CheckDigitDetermined(data + [gtin[13]], ean);
  }

  /** Re-parsing the EAN-13 gives back the parsed elements: its check digit is dropped again. */
  lemma ReparseEan13(t: RangeTable, input: string)
    ensures FormatAsEan13(t, input).Success? ==>
      Parse(t, FormatAsEan13(t, input).value) == Parse(t, input)
  {
    if FormatAsEan13(t, input).Failure? { return; }
    var p := Parse(t, input).value;
    var ean := FormatAsEan13(t, input).value;
    assert ean == p.gs1Element + p.Significant() + [ean[12]];
    DigitsHaveNoSeparators(ean);
    ParseOfBookPrefixCode(t, p.gs1Element, p.Significant(), ean[12]);
    ParseIsDecomposition(t, input);
  }

  /** Re-parsing the hyphenated ISBN-13 gives back the parsed elements. */
  lemma ReparseIsbn13(t: RangeTable, input: string)
    ensures FormatAsIsbn13(t, input).Success? ==>
      Parse(t, FormatAsIsbn13(t, input).value) == Parse(t, input)
  {
    if FormatAsIsbn13(t, input).Failure? { return; }
    var isbn13, ean := FormatAsIsbn13(t, input).value, FormatAsEan13(t, input).value;
    DigitsHaveNoSeparators(ean);
    StripWithoutSeparators(ean);
    SameStrippedSameResult(t, isbn13, ean);
    ReparseEan13(t, input);
  }

  /** Re-parsing the ISBN-10 of a 978 code gives back the parsed elements. */
  lemma ReparseIsbn10(t: RangeTable, input: string)
    ensures FormatAsIsbn10(t, input).Success? && Parse(t, input).value.gs1Element == "978" ==>
      Parse(t, FormatAsIsbn10(t, input).value) == Parse(t, input)
  {
    if FormatAsIsbn10(t, input).Failure? || Parse(t, input).value.gs1Element != "978" { return; }
    Isbn10OfReparses(t, Parse(t, input).value);
    ParseIsDecomposition(t, input);
  }

  /** The ISBN-10 of parsed elements is read back as those nine digits under 978. */
  lemma Isbn10OfReparses(t: RangeTable, p: ParsedIsbn)
    requires WellFormed(p)
    ensures Parse(t, Isbn10Of(p)) == Decompose(t, p.Significant(), "978")
  {
    var isbn10 := Isbn10Of(p);
    var stripped := StripUnwantedCharacters(isbn10);
    assert stripped == p.Significant() + [stripped[9]];
    assert NoSeparators(stripped);
    StripWithoutSeparators(stripped);
    SameStrippedSameResult(t, isbn10, stripped);
    ParseOfNineDigitCode(t, p.Significant(), stripped[9]);
  }

  /** A valid EAN-13 that parses is reproduced exactly: the recomputed check digit is its own. */
  lemma ValidEan13Reproduced(t: RangeTable, c: string)
    ensures |c| == 13 && IsValidGs1(c) && Parse(t, c).Success? ==> FormatAsEan13(t, c) == Success(c)
  {
    if !(|c| == 13 && IsValidGs1(c) && Parse(t, c).Success?) { return; }
    DigitsHaveNoSeparators(c);
    StripWithoutSeparators(c);
    ParsePartition(t, c, c[..12]);
    Gs1CheckDigitDetermined(FormatAsEan13(t, c).value, c);
  }

  /** A valid ISBN-10 that parses is reproduced, up to its hyphens. */
  lemma ValidIsbn10Reproduced(t: RangeTable, c: string)
    ensures IsValidIsbn10(c) && Parse(t, c).Success? ==>
      StripUnwantedCharacters(FormatAsIsbn10(t, c).value) == c
  {
    if !(IsValidIsbn10(c) && Parse(t, c).Success?) { return; }
    ValidIsbn10Unchanged(c);
    assert StripCheckDigit(c) == Success(c[..9]);
    ParsePartition(t, c, c[..9]);
    var p := Parse(t, c).value;
    Isbn10OfValid(p, c);
    assert FormatAsIsbn10(t, c).value == Isbn10Of(p);
  }

  /** A valid ISBN-10 holds no separator, so stripping leaves it unchanged. */
  lemma ValidIsbn10Unchanged(c: string)
    requires IsValidIsbn10(c)
    ensures StripUnwantedCharacters(c) == c
  {
    assert NoSeparators(c) by {
      forall i | 0 <= i < |c| ensures !IsSeparator(c[i]) {
        if i < 9 { assert c[i] == c[..9][i]; }
      }
    }
    StripWithoutSeparators(c);
  }

  /** The ISBN-10 of elements whose nine digits open a valid ISBN-10 is that ISBN-10, up to hyphens. */
  lemma Isbn10OfValid(p: ParsedIsbn, c: string)
    requires WellFormed(p) && IsValidIsbn10(c) && c[..9] == p.Significant()
    ensures StripUnwantedCharacters(Isbn10Of(p)) == c
  {
    Isbn10CheckDetermined(StripUnwantedCharacters(Isbn10Of(p)), c);
  }
}
