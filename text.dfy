/**
 * Character and digit-string helpers. `IsDigit` stands for the numeric test
 * of the source, `Take` and `Drop` for the two forms of PHP's `substr` it
 * uses, and `LexLe` for the comparison of two range bounds.
 */
module Text {

  predicate IsDigit(c: char) {
    '0' <= c <= '9'
  }

  predicate AllDigits(s: string) {
    forall i :: 0 <= i < |s| ==> IsDigit(s[i])
  }

  function Digit(c: char): (d: nat)
    requires IsDigit(c)
    ensures d <= 9
  {
    c as int - '0' as int
  }

  function DigitChar(d: nat): (c: char)
    requires d <= 9
    ensures IsDigit(c) && Digit(c) == d
  {
    ('0' as int + d) as char
  }

  lemma DigitCharOfDigit(c: char)
    requires IsDigit(c)
    ensures DigitChar(Digit(c)) == c
  {
  }

  lemma AllDigitsConcat(a: string, b: string)
    ensures AllDigits(a + b) <==> AllDigits(a) && AllDigits(b)
  {
    if AllDigits(a + b) {
      forall i | 0 <= i < |a| ensures IsDigit(a[i]) {
        assert (a + b)[i] == a[i];
      }
      forall i | 0 <= i < |b| ensures IsDigit(b[i]) {
        assert (a + b)[|a| + i] == b[i];
      }
    }
  }

  // ---- Byte length ----

  /** A character below 0x80, which UTF-8 writes as a single byte. */
  predicate IsAscii(c: char) {
    c as int < 0x80
  }

  /** The number of bytes UTF-8 spends on a character. */
  function Utf8Width(c: char): (w: nat)
    ensures 1 <= w <= 4
    ensures w == 1 <==> IsAscii(c)
  {
    if c as int < 0x80 then 1
    else if c as int < 0x800 then 2
    else if c as int < 0x1_0000 then 3
    else 4
  }

  /** `strlen`: the length of a string in bytes, once written in UTF-8. */
  function ByteLength(s: string): (n: nat)
    ensures n >= |s|
  {
    if s == [] then 0 else Utf8Width(s[0]) + ByteLength(s[1..])
  }

  lemma {:induction false} ByteLengthAppend(s: string, c: char)
    ensures ByteLength(s + [c]) == ByteLength(s) + Utf8Width(c)
  {
    if s == [] {
      assert [c][1..] == [];
    } else {
      assert (s + [c])[0] == s[0];
      assert (s + [c])[1..] == s[1..] + [c];
      ByteLengthAppend(s[1..], c);
    }
  }

  /** Digits are single bytes, so a digit string is as long in bytes as in characters. */
  lemma {:induction false} DigitsAreSingleBytes(s: string)
    ensures AllDigits(s) ==> ByteLength(s) == |s|
  {
    if s != [] && AllDigits(s) {
      assert AllDigits(s[1..]) by {
        forall i | 0 <= i < |s| - 1 ensures IsDigit(s[1..][i]) {
          assert s[1..][i] == s[i + 1];
        }
      }
      DigitsAreSingleBytes(s[1..]);
    }
  }

  /** `substr(s, 0, n)`: the first n characters, or all of s when it is shorter. */
  function Take(s: string, n: nat): (r: string)
    ensures r <= s
    ensures |r| == if n <= |s| then n else |s|
  {
    if n <= |s| then s[..n] else s
  }

  /** `substr(s, n)`: what follows the first n characters, empty when s is shorter. */
  function Drop(s: string, n: nat): (r: string)
    ensures Take(s, n) + r == s
  {
    if n <= |s| then s[n..] else []
  }

  /** The characters of s in reverse order (`array_reverse` of the split string). */
  function Reverse(s: string): (r: string)
    ensures |r| == |s|
    ensures forall i :: 0 <= i < |s| ==> r[i] == s[|s| - 1 - i]
  {
    if s == [] then [] else [s[|s| - 1]] + Reverse(s[..|s| - 1])
  }

  /** Lexicographic order on strings: `a` is a prefix of `b` or is smaller at the first difference. */
  predicate LexLe(a: string, b: string) {
    if a == [] then true
    else if b == [] then false
    else if a[0] != b[0] then a[0] < b[0]
    else LexLe(a[1..], b[1..])
  }

  lemma {:induction false} LexLeReflexive(a: string)
    ensures LexLe(a, a)
  {
    if a != [] {
      LexLeReflexive(a[1..]);
    }
  }

  function Pow10(n: nat): (p: nat)
    ensures p >= 1
  {
    if n == 0 then 1 else 10 * Pow10(n - 1)
  }

  /** The number a digit string denotes, leading zeros allowed. */
  function Value(s: string): nat
    requires AllDigits(s)
  {
    if s == [] then 0 else Digit(s[0]) * Pow10(|s| - 1) + Value(s[1..])
  }

  lemma {:induction false} ValueBelowPow10(s: string)
    requires AllDigits(s)
    ensures Value(s) < Pow10(|s|)
  {
    if s != [] {
      ValueBelowPow10(s[1..]);
      var p := Pow10(|s| - 1);
      var d := Digit(s[0]);
      assert Pow10(|s|) == 10 * p;
      assert d * p + p == (d + 1) * p;
      MulMonotone(d + 1, 10, p);
    }
  }

  lemma MulMonotone(x: nat, y: nat, p: nat)
    requires x <= y
    ensures x * p <= y * p
  {
    assert y * p == x * p + (y - x) * p;
  }

  /** A smaller leading digit decides the order of two equal-width numbers. */
  lemma LeadingDigitDecides(da: nat, db: nat, p: nat, ua: nat, ub: nat)
    requires da < db && ua < p
    ensures da * p + ua < db * p + ub
  {
    MulMonotone(da + 1, db, p);
    assert (da + 1) * p == da * p + p;
  }

  /**
   * On digit strings of equal width, the string order and the order of the
   * numbers they denote agree: comparing the range bounds as strings is the
   * same as PHP's numeric comparison of two numeric strings.
   */
  lemma {:induction false} LexLeIsNumericOrder(a: string, b: string)
    requires |a| == |b| && AllDigits(a) && AllDigits(b)
    ensures LexLe(a, b) <==> Value(a) <= Value(b)
  {
    if a != [] {
      var p := Pow10(|a| - 1);
      var da, db := Digit(a[0]), Digit(b[0]);
      var ua, ub := Value(a[1..]), Value(b[1..]);
      assert Value(a) == da * p + ua;
      assert Value(b) == db * p + ub;
      if a[0] == b[0] {
        LexLeIsNumericOrder(a[1..], b[1..]);
      } else if a[0] < b[0] {
        ValueBelowPow10(a[1..]);
        LeadingDigitDecides(da, db, p, ua, ub);
      } else {
        ValueBelowPow10(b[1..]);
        LeadingDigitDecides(db, da, p, ub, ua);
      }
    }
  }
}
