/**
 * The two check-digit schemes of the formatter. ISBN-10 (ISO 2108):
 * weights 10 down to 1 from the left, sum divisible by 11, ten written 'X'.
 * GS1 (section 7.9.1 of the GS1 General Specifications): weights 3 and 1
 * alternating from the rightmost data digit, sum divisible by 10.
 */
module Checksums {
  import opened Text

  // ---- ISBN-10 ----

  /** Value of an ISBN-10 character: its digit, or ten for 'X'. */
  function Isbn10CharValue(c: char): (v: nat)
    ensures v <= 10
  {
    if c == 'X' then 10 else if IsDigit(c) then Digit(c) else 0
  }

  /** The weighted sum Σ (w - i) · value(s[i]), whose first weight is w. */
  function Isbn10Sum(s: string, w: int): int {
    if s == [] then 0 else w * Isbn10CharValue(s[0]) + Isbn10Sum(s[1..], w - 1)
  }

  /** A complete ISBN-10: nine digits, a digit or 'X', and a weighted sum (weights 10..1) divisible by 11. */
  predicate IsValidIsbn10(s: string) {
    && |s| == 10
    && AllDigits(s[..9])
    && (IsDigit(s[9]) || s[9] == 'X')
    && Isbn10Sum(s, 10) % 11 == 0
  }

  lemma Isbn10SumStep(s: string, k: nat, w: int)
    requires k < |s|
    ensures Isbn10Sum(s[k..], w) == w * Isbn10CharValue(s[k]) + Isbn10Sum(s[k + 1..], w - 1)
  {
    assert s[k..][0] == s[k];
    assert s[k..][1..] == s[k + 1..];
  }

  lemma Isbn10SumOfNineDigits(code: string)
    requires |code| == 9 && AllDigits(code)
    ensures Isbn10Sum(code, 10)
         == Digit(code[0]) * 10 + Digit(code[1]) * 9 + Digit(code[2]) * 8
          + Digit(code[3]) * 7 + Digit(code[4]) * 6 + Digit(code[5]) * 5
          + Digit(code[6]) * 4 + Digit(code[7]) * 3 + Digit(code[8]) * 2
  {
    assert code[0..] == code;
    Isbn10SumStep(code, 0, 10);
    Isbn10SumStep(code, 1, 9);
    Isbn10SumStep(code, 2, 8);
    Isbn10SumStep(code, 3, 7);
    Isbn10SumStep(code, 4, 6);
    Isbn10SumStep(code, 5, 5);
    Isbn10SumStep(code, 6, 4);
    Isbn10SumStep(code, 7, 3);
    Isbn10SumStep(code, 8, 2);
    assert code[9..] == [];
  }

  /**
   * The ISBN-10 check value of nine data digits: the one value in 0..10
   * that makes the weighted sum divisible by 11.
   */
  function Checksum10(code: string): (c: nat)
    requires |code| == 9 && AllDigits(code)
    ensures c <= 10 && (Isbn10Sum(code, 10) + c) % 11 == 0
  {
    var sum := Digit(code[0]) * 10 + Digit(code[1]) * 9 + Digit(code[2]) * 8
             + Digit(code[3]) * 7 + Digit(code[4]) * 6 + Digit(code[5]) * 5
             + Digit(code[6]) * 4 + Digit(code[7]) * 3 + Digit(code[8]) * 2;
    Isbn10SumOfNineDigits(code);
    ComplementCompletes11(sum);
    (11 - sum % 11) % 11
  }

  /** `(11 - sum % 11) % 11` is the amount that brings sum up to a multiple of 11. */
  lemma ComplementCompletes11(sum: int)
    ensures 0 <= (11 - sum % 11) % 11 <= 10
    ensures (sum + (11 - sum % 11) % 11) % 11 == 0
  {
    var q, r := sum / 11, sum % 11;
    assert sum == 11 * q + r;
    if r == 0 {
      assert (11 - r) % 11 == 0;
    } else {
      assert (11 - r) % 11 == 11 - r;
      assert sum + (11 - r) == 11 * (q + 1);
    }
  }

  /** The check character: 'X' for ten, otherwise the digit. */
  function CheckCharacter10(c: nat): (x: char)
    requires c <= 10
    ensures Isbn10CharValue(x) == c
    ensures IsDigit(x) || x == 'X'
  {
    if c == 10 then 'X' else DigitChar(c)
  }

  lemma Checksum10Unique(code: string, v: nat)
    requires |code| == 9 && AllDigits(code)
    requires v <= 10 && (Isbn10Sum(code, 10) + v) % 11 == 0
    ensures v == Checksum10(code)
  {
  }

  lemma {:induction false} Isbn10SumAppend(s: string, x: char, w: int)
    ensures Isbn10Sum(s + [x], w) == Isbn10Sum(s, w) + (w - |s|) * Isbn10CharValue(x)
  {
    if s == [] {
      assert [x][1..] == [];
    } else {
      assert (s + [x])[0] == s[0];
      assert (s + [x])[1..] == s[1..] + [x];
      Isbn10SumAppend(s[1..], x, w - 1);
    }
  }

  /** Nine digits followed by their check character form a valid ISBN-10. */
  lemma CheckCharacterCompletesIsbn10(code: string)
    requires |code| == 9 && AllDigits(code)
    ensures IsValidIsbn10(code + [CheckCharacter10(Checksum10(code))])
  {
    var x := CheckCharacter10(Checksum10(code));
    Isbn10SumAppend(code, x, 10);
    assert (code + [x])[..9] == code;
  }

  /** Two valid ISBN-10s that share their nine data digits share their check character. */
  lemma Isbn10CheckDetermined(a: string, b: string)
    requires IsValidIsbn10(a) && IsValidIsbn10(b) && a[..9] == b[..9]
    ensures a == b
  {
    Isbn10SumAppend(a[..9], a[9], 10);
    Isbn10SumAppend(b[..9], b[9], 10);
    assert a == a[..9] + [a[9]];
    assert b == b[..9] + [b[9]];
    var va, vb := Isbn10CharValue(a[9]), Isbn10CharValue(b[9]);
    ElevenApartOnlyIfEqual(Isbn10Sum(a[..9], 10), va, vb);
    if a[9] != 'X' && b[9] != 'X' {
      DigitCharOfDigit(a[9]);
      DigitCharOfDigit(b[9]);
    }
  }

  /** Two values in 0..10 that both complete the same sum to a multiple of 11 are equal. */
  lemma ElevenApartOnlyIfEqual(sum: int, x: int, y: int)
    requires 0 <= x <= 10 && 0 <= y <= 10
    requires (sum + x) % 11 == 0 && (sum + y) % 11 == 0
    ensures x == y
  {
    var qx, qy := (sum + x) / 11, (sum + y) / 11;
    assert sum + x == 11 * qx;
    assert sum + y == 11 * qy;
    assert x - y == 11 * (qx - qy);
  }

  // ---- GS1 modulus 10 ----

  /** The GS1 weighted sum read from the rightmost digit, weighted 3 when `tripled` and 1 otherwise, then alternating. */
  function Gs1Sum(s: string, tripled: bool): nat
    requires AllDigits(s)
  {
    if s == [] then 0
    else (if tripled then 3 else 1) * Digit(s[|s| - 1]) + Gs1Sum(s[..|s| - 1], !tripled)
  }

  /** A complete GS1 code: digits whose sum, with the check digit weighted 1, is divisible by 10. */
  predicate IsValidGs1(s: string) {
    |s| >= 1 && AllDigits(s) && Gs1Sum(s, false) % 10 == 0
  }

  /** The GS1 check digit of some data digits: the one digit that makes the weighted sum divisible by 10. */
  function Checksum13(data: string): (c: nat)
    requires AllDigits(data)
    ensures c <= 9 && (Gs1Sum(data, true) + c) % 10 == 0
  {
    (10 - Gs1Sum(data, true) % 10) % 10
  }

  lemma Checksum13Unique(data: string, v: nat)
    requires AllDigits(data)
    requires v <= 9 && (Gs1Sum(data, true) + v) % 10 == 0
    ensures v == Checksum13(data)
  {
  }

  lemma Gs1SumAppend(data: string, x: char)
    requires AllDigits(data) && IsDigit(x)
    ensures AllDigits(data + [x])
    ensures Gs1Sum(data + [x], false) == Digit(x) + Gs1Sum(data, true)
  {
    AllDigitsConcat(data, [x]);
    assert (data + [x])[..|data|] == data;
  }

  /** Data digits followed by their check digit form a valid GS1 code. */
  lemma CheckDigitCompletesGs1(data: string)
    requires AllDigits(data)
    ensures IsValidGs1(data + [DigitChar(Checksum13(data))])
  {
    Gs1SumAppend(data, DigitChar(Checksum13(data)));
  }

  /** A leading zero adds nothing to the right-anchored sum. */
  lemma {:induction false} LeadingZeroNeutral(s: string, tripled: bool)
    requires AllDigits(s)
    ensures AllDigits("0" + s)
    ensures Gs1Sum("0" + s, tripled) == Gs1Sum(s, tripled)
  {
    AllDigitsConcat("0", s);
    if s == [] {
      assert "0" + s == "0";
      assert "0"[..0] == [];
    } else {
      var init := s[..|s| - 1];
      assert ("0" + s)[..|s|] == "0" + init;
      assert ("0" + s)[|s|] == s[|s| - 1];
      LeadingZeroNeutral(init, !tripled);
    }
  }

  /** Two valid GS1 codes of the same data digits have the same check digit. */
  lemma Gs1CheckDigitDetermined(a: string, b: string)
    requires IsValidGs1(a) && IsValidGs1(b) && |a| == |b|
    requires a[..|a| - 1] == b[..|b| - 1]
    ensures a == b
  {
    var data := a[..|a| - 1];
    AllDigitsConcat(data, [a[|a| - 1]]);
    assert a == data + [a[|a| - 1]];
    assert b == data + [b[|b| - 1]];
    Gs1SumAppend(data, a[|a| - 1]);
    Gs1SumAppend(data, b[|b| - 1]);
    Checksum13Unique(data, Digit(a[|a| - 1]));
    Checksum13Unique(data, Digit(b[|b| - 1]));
    DigitCharOfDigit(a[|a| - 1]);
    DigitCharOfDigit(b[|b| - 1]);
  }

  // ---- The formatter's loop over the reversed digits ----

  /** Weight of the digit at a position of the reversed code: 1 at odd positions, 3 at even ones. */
  function Weight13(index: nat): nat {
    if index % 2 == 1 then 1 else 3
  }

  /** Σ Weight13(index + i) · chars[i]: the sum the loop accumulates from position `index` on. */
  function ReversedSum(chars: string, index: nat): nat
    requires AllDigits(chars)
  {
    if chars == [] then 0 else Weight13(index) * Digit(chars[0]) + ReversedSum(chars[1..], index + 1)
  }

  /** Weighting the reversed digits from position 0 is the GS1 sum weighted from the rightmost digit. */
  lemma {:induction false} ReversedSumIsGs1Sum(s: string, index: nat)
    requires AllDigits(s)
    ensures AllDigits(Reverse(s))
    ensures ReversedSum(Reverse(s), index) == Gs1Sum(s, index % 2 == 0)
  {
    if s != [] {
      var init := s[..|s| - 1];
      ReversedSumIsGs1Sum(init, index + 1);
      assert Reverse(s)[1..] == Reverse(init);
    }
  }

  /** The formatter's checksum loop: weights 3, 1, 3, ... over the reversed digits, then the complement modulo 10. */
  method CalculateChecksum13(code: string) returns (checksum: nat)
    requires AllDigits(code)
    ensures checksum <= 9 && (Gs1Sum(code, true) + checksum) % 10 == 0
    ensures checksum == Checksum13(code)
  {
    var chars := Reverse(code);
    ReversedSumIsGs1Sum(code, 0);
    var sum := 0;
    var index := 0;
    while index < |chars|
      invariant index <= |chars|
      invariant sum + ReversedSum(chars[index..], index) == ReversedSum(chars, 0)
    {
      assert chars[index..][1..] == chars[index + 1..];
      if index % 2 == 1 {
        sum := sum + Digit(chars[index]);
      } else {
        sum := sum + Digit(chars[index]) * 3;
      }
      index := index + 1;
    }
    assert chars[index..] == [];
    checksum := (10 - sum % 10) % 10;
  }
}
