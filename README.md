# ISBN parser and formatter, modelled in Dafny

This project models the core of the biblys/isbn PHP library: `Parser::parse`,
which turns an ISBN-like string (ISBN-10, ISBN-13, EAN-13, with or without
separators and check digit) into its GS1 prefix, registration group,
registrant and publication elements, and the four `Formatter::formatAs*`
functions, which re-encode those elements as an ISBN-10, a hyphenated
ISBN-13, an EAN-13 or a GTIN-14 with a freshly computed check character.

The range dataset the parser consults is a parameter of type
`Ranges.RangeTable`: a sequence of `{prefix, rules}` entries for the
registration groups of "978" and "979", and a sequence of
`{prefix "<gs1>-<group>", agency, rules}` entries for the registrants of each
group. Each rule is its range's two bounds and a length.

Files and modules:

- `wrappers.dfy` (`Wrappers`): `Option`, and `Result`, which carries the errors the source throws.
- `text.dfy` (`Text`): digits, the UTF-8 byte length that stands for `strlen`, `Take`/`Drop` for PHP's `substr`, `Reverse` for `array_reverse`, and the string order `LexLe` used for range bounds, with the proof that it is the numeric order on equal-width digit strings.
- `ranges.dfy` (`Ranges`): the dataset's shape and `FirstIndex`, the first-match scan both extraction stages perform.
- `parser.dfy` (`Parser`): the four stages of `parse`, `ParsedIsbn`, and the basic facts about separator stripping.
- `parser_properties.dfy` (`ParserProperties`): separators, check digit, error classes, first-match selection, partition.
- `checksums.dfy` (`Checksums`): the ISBN-10 check value (ISO 2108, modulus 11) and the GS1 check digit (section 7.9.1 of the GS1 General Specifications, modulus 10), with the formatter's loop over the reversed digits as a method proved against the GS1 definition.
- `formatter.dfy` (`Formatter`): the four output formats.
- `formatter_properties.dfy` (`FormatterProperties`): round trips through the parser and relations between the formats.

Deviations from the source, on purpose:

- When no group entry has the key "<gs1>-<group>", or none of the first such entry's rules matches, `_extractRegistrationAndPublicationElement` runs off its end without returning (src/Biblys/Isbn/Parser.php:194-196); with its `: array` return type PHP then raises a type error rather than a parsing error. The model returns the explicit error `UnassignedRegistrant` instead.
- The registrant range test is inclusive at both ends, as the code has it (a rule is skipped only when the digits are below its cut minimum or above its cut maximum, src/Biblys/Isbn/Parser.php:183). The model follows the code.
- The registration-group scan stops at the first rule whose range includes the digits, even when that rule's length is 0, and then fails with `InvalidCountryCode` (src/Biblys/Isbn/Parser.php:129-140); it does not go on to a later rule. The model follows the code.
- When no registration-group entry has the requested prefix, `$rules` is never set, the rule loop does not run and the country-code error follows; the model gives `InvalidCountryCode`.

## Model

| member | source | states |
|---|---|---|
| Text.LexLeIsNumericOrder | src/Biblys/Isbn/Parser.php:131 | on digit strings of equal width, the string order used for range bounds is exactly the order of the numbers they denote, so it agrees with PHP's numeric comparison of numeric strings |
| Text.Take | src/Biblys/Isbn/Parser.php:142 | `substr(s, 0, n)`: a prefix of s of length n, or all of s when s is shorter |
| Text.Drop | src/Biblys/Isbn/Parser.php:143 | `substr(s, n)`: what follows `Take(s, n)`; the two together give back s |
| Text.Reverse | src/Biblys/Isbn/Formatter.php:101 | the reversed string has the same length and holds the character at position `|s|-1-i` at position i |
| Ranges.FirstIndex | src/Biblys/Isbn/Parser.php:121-135 | the position of the first element a test accepts (no earlier element is accepted), and None exactly when no element is accepted |
| Ranges.FirstIndexOf | src/Biblys/Isbn/Parser.php:164-195 | a position that is accepted and preceded only by rejected elements is the one the scan returns |
| Parser.StripUnwantedCharacters | src/Biblys/Isbn/Parser.php:70-76 | the result holds exactly the characters of the input other than '-', '_' and ' ', and is no longer than it |
| Text.ByteLength | src/Biblys/Isbn/Parser.php:80 | `strlen`: the number of bytes of the UTF-8 encoding, at least the number of characters, and equal to it for digit strings (`Text.DigitsAreSingleBytes`) |
| Parser.StripCheckDigit | src/Biblys/Isbn/Parser.php:78-92 | succeeds exactly for byte lengths 9, 10, 12 and 13; the result is the input or the input without its last character, only a single-byte last character is dropped, and a result of digits has 9 or 12 of them; otherwise fails with InvalidLength |
| Parser.ExtractGs1Element | src/Biblys/Isbn/Parser.php:94-107 | a 9-digit code gets the prefix 978 and keeps all digits; a 12-digit code succeeds exactly when it starts with 978 or 979, and prefix plus rest is the code; the only error is InvalidProductCode |
| Parser.ExtractRegistrationGroupElement | src/Biblys/Isbn/Parser.php:109-146 | on success group plus rest is the input and the group is not empty; the only error is InvalidCountryCode |
| Parser.ExtractRegistrationAndPublicationElement | src/Biblys/Isbn/Parser.php:151-196 | on success registrant plus publication is the input; otherwise the error is UnassignedRegistrant |
| Parser.Decompose | src/Biblys/Isbn/Parser.php:43-67 | on success the prefix is the given one and the three elements concatenate to the given digits; errors come only from the two range scans |
| Parser.Parse | src/Biblys/Isbn/Parser.php:26-68 | fails with EmptyCode exactly for the empty input; on success the prefix is 978 or 979 and the three elements are nine digits with a non-empty group |
| Parser.StripConcat | src/Biblys/Isbn/Parser.php:70-76 | stripping separators distributes over concatenation |
| Parser.StripWithoutSeparators | src/Biblys/Isbn/Parser.php:72-73 | a string without separators is left unchanged |
| ParserProperties.StripIgnoresSeparator | src/Biblys/Isbn/Parser.php:72-73 | inserting a separator anywhere does not change the stripped string |
| ParserProperties.SeparatorIgnored | src/Biblys/Isbn/Parser.php:32 | inserting '-', '_' or ' ' anywhere into a non-empty input never changes the parse result |
| ParserProperties.SameStrippedSameResult | src/Biblys/Isbn/Parser.php:32-33 | two non-empty inputs that agree once separators are removed parse alike |
| ParserProperties.SameCodeSameResult | src/Biblys/Isbn/Parser.php:32-39 | two non-empty inputs with the same significant code parse alike |
| ParserProperties.InvalidLengthExactly | src/Biblys/Isbn/Parser.php:78-92 | the result is InvalidLength exactly when the input is non-empty and its separator-free length in bytes is not 9, 10, 12 or 13 |
| ParserProperties.CheckDigitStripped | src/Biblys/Isbn/Parser.php:86-89 | a single-byte character appended to a code of 9 or 12 significant bytes is removed again as its check digit |
| ParserProperties.MultibyteCharacterRejected | src/Biblys/Isbn/Parser.php:78-92 | an input holding a multibyte character always fails, with InvalidLength or InvalidCharacters: the check-digit stage removes only one byte |
| ParserProperties.CheckDigitIgnored | src/Biblys/Isbn/Parser.php:33-37 | appending any single-byte non-separator character (a digit, 'X' or a letter) to a code of 9 or 12 bytes does not change the result: it is dropped before the digit test |
| ParserProperties.InvalidCharactersExactly | src/Biblys/Isbn/Parser.php:35-37 | once length is valid, the result is InvalidCharacters exactly when the code without its check digit has a non-digit |
| ParserProperties.NineDigitCodesGet978 | src/Biblys/Isbn/Parser.php:96-98 | a 9-digit significant code is decomposed whole under the implicit prefix 978 |
| ParserProperties.TwelveDigitCodesNeedBookPrefix | src/Biblys/Isbn/Parser.php:100-106 | a 12-digit code not starting with 978 or 979 gives InvalidProductCode; otherwise its first three digits are the prefix and the other nine are decomposed |
| ParserProperties.GroupFromFirstMatchingRule | src/Biblys/Isbn/Parser.php:118-145 | the group length is that of the first rule, of the first entry for the prefix, whose inclusive range holds the first seven digits; a length of 0 gives InvalidCountryCode |
| ParserProperties.GroupWithoutMatchingRule | src/Biblys/Isbn/Parser.php:121-140 | no entry for the prefix, or no rule of its first entry holding the first seven digits, gives InvalidCountryCode |
| ParserProperties.RegistrantFromFirstMatchingRule | src/Biblys/Isbn/Parser.php:158-192 | the registrant is as long as the first matching rule of the first entry keyed "<gs1>-<group>" says, the publication is the rest, and the agency is that entry's |
| ParserProperties.RegistrantOnlyFirstEntryConsulted | src/Biblys/Isbn/Parser.php:164-196 | when no rule of the first entry with the key matches, the scan fails even if a later entry with the same key would match |
| ParserProperties.RegistrantWithoutGroupEntry | src/Biblys/Isbn/Parser.php:164-167 | without an entry for the key the scan fails with UnassignedRegistrant |
| ParserProperties.RegistrantRangeInclusive | src/Biblys/Isbn/Parser.php:177-185 | digits equal to either cut bound of an ordered rule match it: both ends are included |
| ParserProperties.ParsePartition | src/Biblys/Isbn/Parser.php:39-57 | group, registrant and publication are exactly the nine digits after the prefix; for a 12-digit code prefix and elements concatenate to the code, and a 9-digit code gets 978 |
| ParserProperties.ParseIsDecomposition | src/Biblys/Isbn/Parser.php:43-67 | a parsed ISBN is what the range stages make of its own prefix and nine digits |
| ParserProperties.ParseOfBookPrefixCode | src/Biblys/Isbn/Parser.php:26-57 | a book prefix, nine digits and one more single-byte character parse as that prefix and those digits |
| ParserProperties.ParseOfNineDigitCode | src/Biblys/Isbn/Parser.php:26-57 | nine digits and one more single-byte character parse as those digits under 978 |
| Checksums.Isbn10SumOfNineDigits | src/Biblys/Isbn/Formatter.php:74-83 | the source's nine explicit products (weights 10 down to 2) are the ISBN-10 weighted sum of the data digits |
| Checksums.Checksum10 | src/Biblys/Isbn/Formatter.php:66-90 | the check value is in 0..10 and makes the weighted sum plus it divisible by 11 |
| Checksums.CheckCharacter10 | src/Biblys/Isbn/Formatter.php:85-87 | ten is written 'X', other values as their digit; the character's value is the check value |
| Checksums.Checksum10Unique | src/Biblys/Isbn/Formatter.php:74-83 | no other value in 0..10 completes the weighted sum to a multiple of 11 |
| Checksums.Isbn10SumAppend | src/Biblys/Isbn/Formatter.php:71-83 | appending a character adds it with the next lower weight |
| Checksums.CheckCharacterCompletesIsbn10 | src/Biblys/Isbn/Formatter.php:66-90 | nine digits followed by their check character form a valid ISBN-10 |
| Checksums.Isbn10CheckDetermined | src/Biblys/Isbn/Formatter.php:66-90 | two valid ISBN-10s with the same nine data digits are equal |
| Checksums.Checksum13 | src/Biblys/Isbn/Formatter.php:111 | the GS1 check digit is in 0..9 and makes the right-anchored weighted sum plus it divisible by 10 |
| Checksums.Checksum13Unique | src/Biblys/Isbn/Formatter.php:111 | no other digit completes the sum to a multiple of 10 |
| Checksums.Gs1SumAppend | src/Biblys/Isbn/Formatter.php:100-109 | a digit appended with weight 1 shifts every data digit's weight by one place |
| Checksums.CheckDigitCompletesGs1 | src/Biblys/Isbn/Formatter.php:92-114 | data digits followed by their check digit form a valid GS1 code |
| Checksums.Gs1CheckDigitDetermined | src/Biblys/Isbn/Formatter.php:92-114 | two valid GS1 codes with the same data digits are equal |
| Checksums.LeadingZeroNeutral | src/Biblys/Isbn/Formatter.php:100-109 | a leading zero adds nothing to the right-anchored weighted sum |
| Checksums.ReversedSumIsGs1Sum | src/Biblys/Isbn/Formatter.php:101-109 | weighting the reversed digits 3, 1, 3, ... from position 0 is the GS1 sum weighted from the rightmost digit |
| Checksums.CalculateChecksum13 | src/Biblys/Isbn/Formatter.php:92-114 | the loop over the reversed digits yields a digit 0..9 that completes the GS1 sum to a multiple of 10, and it is the GS1 check digit |
| Formatter.Isbn10Of | src/Biblys/Isbn/Formatter.php:20-25 | group, registrant and publication joined by hyphens, then a hyphen and the check character; without the hyphens, the nine parsed digits and their check character, a valid ISBN-10 |
| Formatter.Ean13Of | src/Biblys/Isbn/Formatter.php:43-49 | 13 characters: the prefix and the nine parsed digits, then the digit that makes a valid GS1 code |
| Formatter.Isbn13Of | src/Biblys/Isbn/Formatter.php:31-37 | prefix, group, registrant and publication joined by hyphens, then a hyphen and the check digit; without the hyphens, exactly the EAN-13 |
| Formatter.Gtin14Of | src/Biblys/Isbn/Formatter.php:55-63 | 14 characters: the prefix digit, the twelve parsed digits, and the digit that makes the whole a valid GS1 code |
| Formatter.FormatAsIsbn10 | src/Biblys/Isbn/Formatter.php:17-26 | fails exactly when parsing fails, with the same error; otherwise the parsed group, registrant and publication and the check character, separated by hyphens, which form a valid ISBN-10 |
| Formatter.FormatAsIsbn13 | src/Biblys/Isbn/Formatter.php:28-38 | fails exactly when parsing fails, with the same error; otherwise the parsed prefix, group, registrant, publication and check digit separated by hyphens, which are the EAN-13 once the hyphens are removed |
| Formatter.FormatAsEan13 | src/Biblys/Isbn/Formatter.php:40-50 | fails exactly when parsing fails, with the same error; otherwise a valid 13-digit GS1 code of the parsed prefix and digits |
| Formatter.FormatAsGtin14 | src/Biblys/Isbn/Formatter.php:52-64 | fails exactly when parsing fails, with the same error; otherwise a valid 14-digit GS1 code: the prefix digit, then the parsed prefix and digits |
| FormatterProperties.Isbn10IgnoresGs1 | src/Biblys/Isbn/Formatter.php:20-25 | the ISBN-10 does not depend on the GS1 prefix |
| FormatterProperties.Gtin14OfZero | src/Biblys/Isbn/Formatter.php:55-63 | with prefix 0 the GTIN-14 is "0" followed by the EAN-13 |
| FormatterProperties.Gtin14WithZeroPrefix | src/Biblys/Isbn/Formatter.php:52-64 | `formatAsGtin14(x, 0)` is "0" followed by `formatAsEan13(x)`, or the same error |
| FormatterProperties.ReparseEan13 | src/Biblys/Isbn/Formatter.php:40-50 | parsing the EAN-13 output gives back the original parse |
| FormatterProperties.ReparseIsbn13 | src/Biblys/Isbn/Formatter.php:28-38 | parsing the ISBN-13 output gives back the original parse |
| FormatterProperties.ReparseIsbn10 | src/Biblys/Isbn/Formatter.php:17-26 | for a 978 ISBN, parsing the ISBN-10 output gives back the original parse |
| FormatterProperties.Isbn10OfReparses | src/Biblys/Isbn/Formatter.php:20-25 | whatever the prefix, the ISBN-10 of parsed elements is read back as their nine digits under 978 |
| FormatterProperties.Isbn10OfValid | src/Biblys/Isbn/Formatter.php:20-25 | elements whose nine digits open a valid ISBN-10 are written, hyphens aside, as that ISBN-10 |
| FormatterProperties.ValidEan13Reproduced | src/Biblys/Isbn/Formatter.php:40-50 | a valid 13-digit code that parses is formatted as itself: the recomputed check digit is its own |
| FormatterProperties.ValidIsbn10Reproduced | src/Biblys/Isbn/Formatter.php:17-26 | a valid ISBN-10 that parses is formatted as itself, up to hyphens |

## Left out

- Loading the range dataset (the `include` of the array file and `new Ranges()` / `getGroups()`): the table is a parameter and its content is not modelled. Each range is given as its two bounds rather than the "min-max" string the source splits with `explode`.
- Parser.StripCheckDigit: input is a string of Unicode characters that PHP receives encoded in UTF-8; byte strings in other encodings or invalid UTF-8 are not modelled. When the check-digit stage removes the last byte of a multibyte character, the model keeps the whole character instead of a byte fragment; both fail the digit test, so the parse result is the same.
- PHP's `is_numeric` also accepts forms such as "1e5", "1.5" or "+1"; the model's digit test accepts decimal digits only.
- PHP's `empty()` also treats the string "0" as empty; the model treats only the empty string as empty. Both give an error for "0" (EmptyCode in PHP, InvalidLength in the model).
- PHP's loose comparisons (`$first3 == 978`, the integer prefix 978 for a nine-digit code) are modelled as equality with the strings "978" and "979".
- Range bounds are compared as strings (`LexLe`). This is PHP's numeric comparison when both sides are digit strings of the same width, as `LexLeIsNumericOrder` shows; bounds of the dataset shorter than the compared digits would be compared differently by PHP.
- The `ParsedIsbn` class and its getters are a datatype with five fields.
- Exception classes and message texts: one error constructor per message constant, plus `UnassignedRegistrant`.
- Formatter.FormatAsGtin14: requires a prefix in 0..9; the source accepts any integer and would then write a longer code.
- A registrant rule of length 0 in the dataset yields an empty registrant element, as in the source; the model does not reject it.
