/**
 * The ISBN parser: normalises a code, then splits it into its GS1 prefix,
 * registration group, registrant and publication elements by consulting
 * the range table, which is passed in as a read-only parameter.
 */
module Parser {
  import opened Wrappers
  import opened Text
  import opened Ranges

  /** One error per message constant of the parser, and one for a registrant that no rule assigns. */
  datatype ParseError =
    | EmptyCode             // "No code provided"
    | InvalidCharacters     // "Invalid characters in the code"
    | InvalidLength         // "Code is too short or too long"
    | InvalidProductCode    // "Product code should be 978 or 979"
    | InvalidCountryCode    // "Country code is unknown"
    | UnassignedRegistrant  // the registrant scan finds no rule (no value is returned)

  datatype ParsedIsbn = ParsedIsbn(
    gs1Element: string,
    registrationGroupElement: string,
    registrantElement: string,
    publicationElement: string,
    registrationAgencyName: string)
  {
    /** The nine digits that follow the GS1 prefix. */
    function Significant(): string {
      registrationGroupElement + registrantElement + publicationElement
    }
  }

  /** The two GS1 prefixes reserved for books. */
  predicate IsBookland(s: string) {
    s == "978" || s == "979"
  }

  /** What every successful parse yields: a book prefix and nine digits split into three elements. */
  predicate WellFormed(p: ParsedIsbn) {
    && IsBookland(p.gs1Element)
    && |p.Significant()| == 9
    && AllDigits(p.Significant())
    && p.registrationGroupElement != []
  }

  predicate IsSeparator(c: char) {
    c == '-' || c == '_' || c == ' '
  }

  predicate NoSeparators(s: string) {
    forall i :: 0 <= i < |s| ==> !IsSeparator(s[i])
  }

  /** Removes every '-', '_' and ' ', keeping the other characters in order. */
  function StripUnwantedCharacters(s: string): (r: string)
    ensures forall c :: c in r <==> c in s && !IsSeparator(c)
    ensures |r| <= |s|
  {
    if s == [] then []
    else (if IsSeparator(s[0]) then [] else [s[0]]) + StripUnwantedCharacters(s[1..])
  }

  /** Stripping separators distributes over concatenation. */
  lemma {:induction false} StripConcat(a: string, b: string)
    ensures StripUnwantedCharacters(a + b) == StripUnwantedCharacters(a) + StripUnwantedCharacters(b)
  {
    if a != [] {
      var ab := a + b;
      assert ab[0] == a[0] && ab[1..] == a[1..] + b;
      var head := if IsSeparator(a[0]) then [] else [a[0]];
      assert StripUnwantedCharacters(ab) == head + StripUnwantedCharacters(a[1..] + b);
      assert StripUnwantedCharacters(a) == head + StripUnwantedCharacters(a[1..]);
      StripConcat(a[1..], b);
    } else {
      assert a + b == b;
    }
  }

  /** A string without separators is left as it is. */
  lemma {:induction false} StripWithoutSeparators(s: string)
    requires NoSeparators(s)
    ensures StripUnwantedCharacters(s) == s
  {
    if s != [] {
      StripWithoutSeparators(s[1..]);
    }
  }

  lemma StripSingle(c: char)
    ensures StripUnwantedCharacters([c]) == if IsSeparator(c) then [] else [c]
  {
    assert [c][1..] == [];
  }

  lemma DigitsHaveNoSeparators(s: string)
    requires AllDigits(s)
    ensures NoSeparators(s)
  {
  }

  /**
   * Keeps a code of 9 or 12 bytes whole and drops the last byte of one of
   * 10 or 13 bytes; any other length is an error. Lengths are counted in
   * bytes of the UTF-8 encoding, as `strlen` does. When the last character
   * is a multibyte one, removing its last byte leaves a fragment that is no
   * digit; the model then keeps the whole character, which fails the digit
   * test in the same way.
   */
  function StripCheckDigit(s: string): (r: Result<string, ParseError>)
    ensures r.Success? <==> ByteLength(s) in {9, 10, 12, 13}
    ensures r.Success? ==> r.value <= s && |s| - |r.value| <= 1
    ensures r.Success? && AllDigits(r.value) ==> |r.value| in {9, 12}
    ensures r.Success? && ByteLength(s) in {10, 13} && IsAscii(s[|s| - 1]) ==> |r.value| == |s| - 1
    ensures r.Success? && r.value != s ==> IsAscii(s[|s| - 1])
    ensures r.Failure? ==> r.error == InvalidLength
  {
    var n := ByteLength(s);
    if n == 12 || n == 9 then
      DigitsAreSingleBytes(s);
      Success(s)
    else if n == 13 || n == 10 then
      var last := s[|s| - 1];
      if IsAscii(last) then
        var code := s[..|s| - 1];
        assert s == code + [last];
        ByteLengthAppend(code, last);
        DigitsAreSingleBytes(code);
        Success(code)
      else
        Success(s)
    else Failure(InvalidLength)
  }

  /**
   * Returns the code without its GS1 prefix, and the prefix: "978" for a
   * nine-digit code, otherwise its first three characters, which must be a book prefix.
   */
  function ExtractGs1Element(code: string): (r: Result<(string, string), ParseError>)
    ensures r.Success? ==> IsBookland(r.value.1)
    ensures |code| == 9 ==> r == Success((code, "978"))
    ensures |code| == 12 ==> (r.Success? <==> IsBookland(code[..3]))
    ensures |code| == 12 && r.Success? ==> r.value.1 + r.value.0 == code
    ensures r.Failure? ==> r.error == InvalidProductCode
  {
    if |code| == 9 then Success((code, "978"))
    else
      var first3 := Take(code, 3);
      if IsBookland(first3) then Success((Drop(code, 3), first3))
      else Failure(InvalidProductCode)
  }

  /** Selects the registration-group rules of a GS1 prefix. */
  function PrefixIs(gs1: string): PrefixEntry -> bool {
    (e: PrefixEntry) => e.prefix == gs1
  }

  /** A registration-group rule matches when its range includes the first seven digits. */
  function GroupRuleMatches(first7: string): Rule -> bool {
    (rule: Rule) => InRange(first7, rule.min, rule.max)
  }

  /**
   * Splits the registration group off the nine digits: the first rule of
   * the prefix whose range includes the first seven digits gives its
   * length; no such rule, or a length of 0, is an unknown country code.
   * Returns the rest of the digits and the group.
   */
  function ExtractRegistrationGroupElement(t: RangeTable, input: string, gs1: string)
    : (r: Result<(string, string), ParseError>)
    ensures r.Success? ==> r.value.1 + r.value.0 == input
    ensures r.Success? && input != [] ==> r.value.1 != []
    ensures r.Failure? ==> r.error == InvalidCountryCode
  {
    var first7 := Take(input, 7);
    match FirstIndex(t.prefixes, PrefixIs(gs1))
    case None => Failure(InvalidCountryCode)
    case Some(i) =>
      var rules := t.prefixes[i].rules;
      match FirstIndex(rules, GroupRuleMatches(first7))
      case None => Failure(InvalidCountryCode)
      case Some(j) =>
        var length := rules[j].length;
        if length == 0 then Failure(InvalidCountryCode)
        else Success((Drop(input, length), Take(input, length)))
  }

  /** Selects the group entry of a "<gs1>-<group>" key. */
  function GroupKeyIs(key: string): GroupEntry -> bool {
    (g: GroupEntry) => g.prefix == key
  }

  /**
   * A registrant rule matches when the first (at most seven) digits lie
   * between its bounds cut to the same width, both bounds included.
   */
  function RegistrantRuleMatches(first7: string): Rule -> bool {
    (rule: Rule) => InRange(first7, Take(rule.min, |first7|), Take(rule.max, |first7|))
  }

  /**
   * Splits the digits after the group into registrant and publication: only
   * the first group entry with the key "<gs1>-<group>" is consulted, and the
   * first of its rules that matches gives the registrant length. Returns the
   * agency, the registrant and the publication.
   */
  function ExtractRegistrationAndPublicationElement(t: RangeTable, input: string, gs1: string, group: string)
    : (r: Result<(string, string, string), ParseError>)
    ensures r.Success? ==> r.value.1 + r.value.2 == input
    ensures r.Failure? ==> r.error == UnassignedRegistrant
  {
    var first7 := Take(input, 7);
    match FirstIndex(t.groups, GroupKeyIs(gs1 + "-" + group))
    case None => Failure(UnassignedRegistrant)
    case Some(i) =>
      var g := t.groups[i];
      match FirstIndex(g.rules, RegistrantRuleMatches(first7))
      case None => Failure(UnassignedRegistrant)
      case Some(j) =>
        var length := g.rules[j].length;
        Success((g.agency, Take(input, length), Drop(input, length)))
  }

  /** The last two stages of the parse: group, then registrant and publication. */
  function Decompose(t: RangeTable, input: string, gs1: string): (r: Result<ParsedIsbn, ParseError>)
    ensures r.Success? ==> r.value.gs1Element == gs1 && r.value.Significant() == input
    ensures r.Success? && input != [] ==> r.value.registrationGroupElement != []
    ensures r.Failure? ==> r.error in {InvalidCountryCode, UnassignedRegistrant}
  {
    var groupSplit :- ExtractRegistrationGroupElement(t, input, gs1);
    var registrantSplit :- ExtractRegistrationAndPublicationElement(t, groupSplit.0, gs1, groupSplit.1);
    var p := ParsedIsbn(gs1, groupSplit.1, registrantSplit.1, registrantSplit.2, registrantSplit.0);
    assert p.Significant() == groupSplit.1 + (registrantSplit.1 + registrantSplit.2);
    Success(p)
  }

  /** Parses a code with or without separators and check digit. */
  function Parse(t: RangeTable, input: string): (r: Result<ParsedIsbn, ParseError>)
    ensures r == Failure(EmptyCode) <==> input == []
    ensures r.Success? ==> WellFormed(r.value)
  {
    if input == [] then Failure(EmptyCode)
    else
      var code :- StripCheckDigit(StripUnwantedCharacters(input));
      if !AllDigits(code) then Failure(InvalidCharacters)
      else
        var gs1Split :- ExtractGs1Element(code);
        var rest, gs1 := gs1Split.0, gs1Split.1;
        AllDigitsConcat(gs1, rest);
        Decompose(t, rest, gs1)
  }
}
