/** What the parser promises: normalisation, error classes, first-match selection and partition. */
module ParserProperties {
  import opened Wrappers
  import opened Text
  import opened Ranges
  import opened Parser

  // ---- Separators ----

  /** Inserting a separator anywhere into a non-empty code never changes the result. */
  lemma SeparatorIgnored(t: RangeTable, input: string, k: nat, c: char)
    requires input != [] && k <= |input| && IsSeparator(c)
    ensures Parse(t, input[..k] + [c] + input[k..]) == Parse(t, input)
  {
    StripIgnoresSeparator(input, k, c);
    SameStrippedSameResult(t, input[..k] + [c] + input[k..], input);
  }

  lemma StripIgnoresSeparator(s: string, k: nat, c: char)
    requires k <= |s| && IsSeparator(c)
    ensures StripUnwantedCharacters(s[..k] + [c] + s[k..]) == StripUnwantedCharacters(s)
  {
    var before, after := s[..k], s[k..];
    var withSeparator := before + [c];
    assert s[..k] + [c] + s[k..] == withSeparator + after;
    assert s == before + after;
    StripDropsSeparator(before, c);
    StripConcat(withSeparator, after);
    StripConcat(before, after);
  }

  lemma StripDropsSeparator(s: string, c: char)
    requires IsSeparator(c)
    ensures StripUnwantedCharacters(s + [c]) == StripUnwantedCharacters(s)
  {
    StripSingle(c);
    StripConcat(s, [c]);
  }

  /** Two non-empty inputs with the same characters besides separators parse alike. */
  lemma SameStrippedSameResult(t: RangeTable, a: string, b: string)
    requires a != [] && b != []
    requires StripUnwantedCharacters(a) == StripUnwantedCharacters(b)
    ensures Parse(t, a) == Parse(t, b)
  {
    SameCodeSameResult(t, a, b);
  }

  /** Parsing looks at nothing but the code left once separators and check digit are gone. */
  lemma SameCodeSameResult(t: RangeTable, a: string, b: string)
    requires a != [] && b != []
    requires StripCheckDigit(StripUnwantedCharacters(a)) == StripCheckDigit(StripUnwantedCharacters(b))
    ensures Parse(t, a) == Parse(t, b)
  {
  }

  // ---- Length and check digit ----

  /** The length error is raised exactly for non-empty codes whose separator-free length in bytes is not 9, 10, 12 or 13. */
  lemma InvalidLengthExactly(t: RangeTable, input: string)
    ensures Parse(t, input) == Failure(InvalidLength)
        <==> input != [] && ByteLength(StripUnwantedCharacters(input)) !in {9, 10, 12, 13}
  {
  }

  /**
   * A single-byte character appended to a code of 9 or 12 bytes is taken
   * for its check digit and dropped unread, whatever it is.
   */
  lemma CheckDigitIgnored(t: RangeTable, d: string, x: char)
    requires ByteLength(StripUnwantedCharacters(d)) in {9, 12} && !IsSeparator(x) && IsAscii(x)
    ensures Parse(t, d + [x]) == Parse(t, d)
  {
    CheckDigitStripped(d, x);
    SameCodeSameResult(t, d + [x], d);
  }

  lemma CheckDigitStripped(d: string, x: char)
    requires ByteLength(StripUnwantedCharacters(d)) in {9, 12} && !IsSeparator(x) && IsAscii(x)
    ensures StripCheckDigit(StripUnwantedCharacters(d + [x])) == StripCheckDigit(StripUnwantedCharacters(d))
  {
    var s := StripUnwantedCharacters(d);
    StripSingle(x);
    StripConcat(d, [x]);
    ByteLengthAppend(s, x);
    assert (s + [x])[..|s|] == s;
  }

  /**
   * A multibyte character never gets through: it either moves the byte
   * length off 9, 10, 12 and 13, or survives the check-digit stage (which
   * removes a single byte) and fails the digit test.
   */
  lemma MultibyteCharacterRejected(t: RangeTable, input: string, k: nat)
    requires k < |input| && !IsAscii(input[k])
    ensures Parse(t, input) in {Failure(InvalidLength), Failure(InvalidCharacters)}
  {
    var x := input[k];
    var s := StripUnwantedCharacters(input);
    assert x in input;
    assert x in s;
    var r := StripCheckDigit(s);
    if r.Success? {
      var i :| 0 <= i < |s| && s[i] == x;
      if r.value != s {
        assert i < |r.value| && r.value[i] == x;
      }
      assert !IsDigit(x);
    }
  }

  /** The digit test runs on the code after its check digit is dropped, and fails exactly on a non-digit. */
  lemma InvalidCharactersExactly(t: RangeTable, input: string, code: string)
    requires input != [] && StripCheckDigit(StripUnwantedCharacters(input)) == Success(code)
    ensures Parse(t, input) == Failure(InvalidCharacters) <==> !AllDigits(code)
  {
    if AllDigits(code) {
      var gs1Split := ExtractGs1Element(code);
      if gs1Split.Success? {
        AllDigitsConcat(gs1Split.value.1, gs1Split.value.0);
      }
    }
  }

  // ---- GS1 prefix ----

  /** A code of nine significant digits has the implicit prefix 978 and keeps all nine digits. */
  lemma NineDigitCodesGet978(t: RangeTable, input: string, code: string)
    requires input != [] && StripCheckDigit(StripUnwantedCharacters(input)) == Success(code)
    requires |code| == 9 && AllDigits(code)
    ensures Parse(t, input) == Decompose(t, code, "978")
  {
  }

  /** A twelve-digit code must start with 978 or 979, which become its prefix. */
  lemma TwelveDigitCodesNeedBookPrefix(t: RangeTable, input: string, code: string)
    requires input != [] && StripCheckDigit(StripUnwantedCharacters(input)) == Success(code)
    requires |code| == 12 && AllDigits(code)
    ensures !IsBookland(code[..3]) ==> Parse(t, input) == Failure(InvalidProductCode)
    ensures IsBookland(code[..3]) ==> Parse(t, input) == Decompose(t, code[3..], code[..3])
  {
  }

  // ---- Registration group ----

  /**
   * The group length is that of the first rule of the first entry for the
   * prefix whose range includes the first seven digits; a length of 0 is an
   * unknown country code.
   */
  lemma GroupFromFirstMatchingRule(t: RangeTable, input: string, gs1: string, i: nat, j: nat)
    requires IsFirst(t.prefixes, PrefixIs(gs1), i)
    requires IsFirst(t.prefixes[i].rules, GroupRuleMatches(Take(input, 7)), j)
    ensures var length := t.prefixes[i].rules[j].length;
      ExtractRegistrationGroupElement(t, input, gs1)
        == if length == 0 then Failure(InvalidCountryCode)
           else Success((Drop(input, length), Take(input, length)))
  {
    FirstIndexOf(t.prefixes, PrefixIs(gs1), i);
    FirstIndexOf(t.prefixes[i].rules, GroupRuleMatches(Take(input, 7)), j);
  }

  /** No entry for the prefix, or no rule of its entry including the first seven digits: unknown country code. */
  lemma GroupWithoutMatchingRule(t: RangeTable, input: string, gs1: string)
    requires
      || (forall i :: 0 <= i < |t.prefixes| ==> t.prefixes[i].prefix != gs1)
      || (exists i: nat :: IsFirst(t.prefixes, PrefixIs(gs1), i)
            && forall j :: 0 <= j < |t.prefixes[i].rules| ==> !GroupRuleMatches(Take(input, 7))(t.prefixes[i].rules[j]))
    ensures ExtractRegistrationGroupElement(t, input, gs1) == Failure(InvalidCountryCode)
  {
    if exists i: nat :: IsFirst(t.prefixes, PrefixIs(gs1), i)
         && forall j :: 0 <= j < |t.prefixes[i].rules| ==> !GroupRuleMatches(Take(input, 7))(t.prefixes[i].rules[j]) {
      var i: nat :| IsFirst(t.prefixes, PrefixIs(gs1), i)
         && forall j :: 0 <= j < |t.prefixes[i].rules| ==> !GroupRuleMatches(Take(input, 7))(t.prefixes[i].rules[j]);
      FirstIndexOf(t.prefixes, PrefixIs(gs1), i);
    } else {
      assert forall i :: 0 <= i < |t.prefixes| ==> !PrefixIs(gs1)(t.prefixes[i]);
    }
  }

  // ---- Registrant and publication ----

  /**
   * The registrant length is that of the first matching rule of the first
   * entry keyed "<gs1>-<group>"; the registrant takes that many digits and
   * the publication the rest.
   */
  lemma RegistrantFromFirstMatchingRule(t: RangeTable, input: string, gs1: string, group: string, i: nat, j: nat)
    requires IsFirst(t.groups, GroupKeyIs(gs1 + "-" + group), i)
    requires IsFirst(t.groups[i].rules, RegistrantRuleMatches(Take(input, 7)), j)
    ensures var length := t.groups[i].rules[j].length;
      ExtractRegistrationAndPublicationElement(t, input, gs1, group)
        == Success((t.groups[i].agency, Take(input, length), Drop(input, length)))
  {
    FirstIndexOf(t.groups, GroupKeyIs(gs1 + "-" + group), i);
    FirstIndexOf(t.groups[i].rules, RegistrantRuleMatches(Take(input, 7)), j);
  }

  /**
   * Only the first entry with the key is consulted: when none of its rules
   * matches, the scan fails even if a later entry with the same key would match.
   */
  lemma RegistrantOnlyFirstEntryConsulted(t: RangeTable, input: string, gs1: string, group: string, i: nat)
    requires IsFirst(t.groups, GroupKeyIs(gs1 + "-" + group), i)
    requires forall j :: 0 <= j < |t.groups[i].rules| ==> !RegistrantRuleMatches(Take(input, 7))(t.groups[i].rules[j])
    ensures ExtractRegistrationAndPublicationElement(t, input, gs1, group) == Failure(UnassignedRegistrant)
  {
    FirstIndexOf(t.groups, GroupKeyIs(gs1 + "-" + group), i);
  }

  lemma RegistrantWithoutGroupEntry(t: RangeTable, input: string, gs1: string, group: string)
    requires forall i :: 0 <= i < |t.groups| ==> t.groups[i].prefix != gs1 + "-" + group
    ensures ExtractRegistrationAndPublicationElement(t, input, gs1, group) == Failure(UnassignedRegistrant)
  {
    assert forall i :: 0 <= i < |t.groups| ==> !GroupKeyIs(gs1 + "-" + group)(t.groups[i]);
  }

  /** The registrant test includes both bounds: digits equal to either cut bound match an ordered rule. */
  lemma RegistrantRangeInclusive(rule: Rule, first7: string)
    requires LexLe(Take(rule.min, |first7|), Take(rule.max, |first7|))
    requires first7 == Take(rule.min, |first7|) || first7 == Take(rule.max, |first7|)
    ensures RegistrantRuleMatches(first7)(rule)
  {
    LexLeReflexive(first7);
  }

  // ---- Partition ----

  /**
   * The elements partition the significant code: group, registrant and
   * publication are the nine digits after the prefix, and for a twelve-digit
   * code the prefix is its first three digits.
   */
  lemma ParsePartition(t: RangeTable, input: string, code: string)
    requires input != [] && StripCheckDigit(StripUnwantedCharacters(input)) == Success(code)
    ensures Parse(t, input).Success? ==>
      var p := Parse(t, input).value;
      && (|code| == 9 ==> p.gs1Element == "978" && p.Significant() == code)
      && (|code| == 12 ==> p.gs1Element + p.Significant() == code)
  {
  }

  /** A parsed ISBN is what the last two stages make of its own prefix and nine digits. */
  lemma ParseIsDecomposition(t: RangeTable, input: string)
    ensures Parse(t, input).Success? ==>
      var p := Parse(t, input).value;
      Decompose(t, p.Significant(), p.gs1Element) == Success(p)
  {
    if Parse(t, input).Failure? { return; }
    var code := StripCheckDigit(StripUnwantedCharacters(input)).value;
    var split := ExtractGs1Element(code).value;
    assert Parse(t, input) == Decompose(t, split.0, split.1);
  }

  /** A code of a book prefix, nine digits and one more single-byte character parses as the prefix and those digits. */
  lemma ParseOfBookPrefixCode(t: RangeTable, gs1: string, digits: string, check: char)
    requires IsBookland(gs1) && |digits| == 9 && AllDigits(digits) && !IsSeparator(check) && IsAscii(check)
    ensures Parse(t, gs1 + digits + [check]) == Decompose(t, digits, gs1)
  {
    AllDigitsConcat(gs1, digits);
    DigitsFollowedByCheck(gs1 + digits, check);
    assert (gs1 + digits)[..3] == gs1;
    assert (gs1 + digits)[3..] == digits;
  }

  /** A code of nine digits and one more single-byte character parses as those digits under the prefix 978. */
  lemma ParseOfNineDigitCode(t: RangeTable, digits: string, check: char)
    requires |digits| == 9 && AllDigits(digits) && !IsSeparator(check) && IsAscii(check)
    ensures Parse(t, digits + [check]) == Decompose(t, digits, "978")
  {
    DigitsFollowedByCheck(digits, check);
  }

  /** 9 or 12 digits and one more single-byte character: the character is the dropped check digit. */
  lemma DigitsFollowedByCheck(code: string, check: char)
    requires |code| in {9, 12} && AllDigits(code) && !IsSeparator(check) && IsAscii(check)
    ensures StripCheckDigit(StripUnwantedCharacters(code + [check])) == Success(code)
  {
    var s := code + [check];
    assert NoSeparators(s) by {
      forall i | 0 <= i < |s| ensures !IsSeparator(s[i]) {
        if i < |code| { assert s[i] == code[i]; }
      }
    }
    StripWithoutSeparators(s);
    DigitsAreSingleBytes(code);
    ByteLengthAppend(code, check);
    assert s[..|code|] == code;
  }
}
