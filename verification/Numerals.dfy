/** Digits, values of digit strings and the text of a number, for every base up to 36. */
module Numerals {
  import opened Options

  const TWO_32: nat := 0x1_0000_0000
  const ULONG_MAX: nat := 4294967295

  /** The value of a digit or letter, whatever the base. */
  function DigitValue(c: char): (d: Option<nat>)
    ensures d.Some? ==> d.value < 36
  {
    if '0' <= c <= '9' then Some(c as nat - '0' as nat)
    else if 'A' <= c <= 'Z' then Some(c as nat - 'A' as nat + 10)
    else if 'a' <= c <= 'z' then Some(c as nat - 'a' as nat + 10)
    else None
  }

  /** Digits count from 0; letters, upper and lower case alike, from 10 to 35; nothing else is a digit. */
  lemma DigitValues(i: nat)
    requires i < 26
    ensures i < 10 ==> DigitValue(('0' as nat + i) as char) == Some(i)
    ensures DigitValue(('a' as nat + i) as char) == Some(10 + i)
    ensures DigitValue(('A' as nat + i) as char) == Some(10 + i)
    ensures forall c: char :: !('0' <= c <= '9' || 'a' <= c <= 'z' || 'A' <= c <= 'Z') ==> DigitValue(c) == None
  {}

  predicate IsDigit(c: char, base: nat) {
    DigitValue(c).Some? && DigitValue(c).value < base
  }

  predicate AllDigits(s: string, base: nat) {
    forall i :: 0 <= i < |s| ==> IsDigit(s[i], base)
  }

  /** The number a string of digits denotes. */
  function ValueOf(s: string, base: nat): nat
    requires AllDigits(s, base)
  {
    if s == [] then 0 else ValueOf(s[..|s| - 1], base) * base + DigitValue(s[|s| - 1]).value
  }

  lemma EmptyValue(base: nat)
    ensures AllDigits([], base) && ValueOf([], base) == 0
  {}

  lemma DigitsConcat(x: string, y: string, base: nat)
    requires AllDigits(x, base) && AllDigits(y, base)
    ensures AllDigits(x + y, base)
  {}

  function DigitChar(d: nat): (c: char)
    requires d < 36
    ensures DigitValue(c) == Some(d)
    ensures '0' <= c <= '9' || 'a' <= c <= 'z'
    ensures c == '0' <==> d == 0
  {
    if d < 10 then ('0' as nat + d) as char else ('a' as nat + (d - 10)) as char
  }

  function Quot(v: nat, base: nat): (q: nat)
    requires 2 <= base
    ensures 0 < v ==> q < v
    ensures v == 0 ==> q == 0
  {
    DivModParts(v, base);
    v / base
  }

  function Rem(v: nat, base: nat): (r: nat)
    requires 2 <= base
    ensures r < base
  {
    v % base
  }

  lemma DivModParts(v: nat, base: nat)
    requires 2 <= base
    ensures v == v / base * base + v % base && v % base < base
    ensures 0 < v ==> v / base < v
  {}

  lemma QuotRem(v: nat, base: nat)
    requires 2 <= base
    ensures v == Quot(v, base) * base + Rem(v, base)
  {
    DivModParts(v, base);
  }

  /** The digits of `v`, most significant first; the empty string for 0. */
  function Digits(v: nat, base: nat): (s: string)
    requires 2 <= base <= 36
    ensures s == [] <==> v == 0
    ensures AllDigits(s, base)
    decreases v
  {
    if v == 0 then [] else Digits(Quot(v, base), base) + [DigitChar(Rem(v, base))]
  }

  function Text(v: nat, base: nat): (s: string)
    requires 2 <= base <= 36
    ensures s != [] && AllDigits(s, base)
  {
    if v == 0 then "0" else Digits(v, base)
  }

  lemma ValueOfSnoc(s: string, c: char, base: nat)
    requires AllDigits(s, base) && IsDigit(c, base)
    ensures AllDigits(s + [c], base)
    ensures ValueOf(s + [c], base) == ValueOf(s, base) * base + DigitValue(c).value
  {
    assert (s + [c])[..|s|] == s;
  }

  /** Reading the digits gives the number back. */
  lemma {:induction false} ValueOfDigits(v: nat, base: nat)
    requires 2 <= base <= 36
    ensures ValueOf(Digits(v, base), base) == v
    decreases v
  {
    if v != 0 {
      QuotRem(v, base);
      var q, r := Quot(v, base), Rem(v, base);
      hide Quot, Rem;
      ValueOfDigits(q, base);
      ValueOfSnoc(Digits(q, base), DigitChar(r), base);
    }
  }

  lemma ValueOfText(v: nat, base: nat)
    requires 2 <= base <= 36
    ensures ValueOf(Text(v, base), base) == v
  {
    if v == 0 {
      assert "0"[..0] == "";
    } else {
      ValueOfDigits(v, base);
    }
  }

  lemma FirstDigit(v: nat, base: nat)
    requires 2 <= base && 0 < v && Quot(v, base) == 0
    ensures Rem(v, base) != 0
  {
    QuotRem(v, base);
  }

  /** A positive number has no leading zero, and the text uses digits and lower-case letters only. */
  lemma {:induction false} DigitsShape(v: nat, base: nat)
    requires 2 <= base <= 36 && 0 < v
    ensures Digits(v, base)[0] != '0'
    ensures forall i :: 0 <= i < |Digits(v, base)| ==> '0' <= Digits(v, base)[i] <= '9' || 'a' <= Digits(v, base)[i] <= 'z'
    decreases v
  {
    hide Quot, Rem, AllDigits;
    var q, c := Quot(v, base), DigitChar(Rem(v, base));
    var s := Digits(q, base);
    assert Digits(v, base) == s + [c];
    if q != 0 { DigitsShape(q, base); } else { FirstDigit(v, base); }
  }

  function Pow2(n: nat): (p: nat)
    ensures 1 <= p
  {
    if n == 0 then 1 else 2 * Pow2(n - 1)
  }

  /** A number below 2^n has at most n digits in any base. */
  lemma {:induction false} DigitsFit(v: nat, base: nat, n: nat)
    requires 2 <= base <= 36 && v < Pow2(n)
    ensures |Digits(v, base)| <= n
    decreases n
  {
    if v != 0 {
      HalfBound(v, base, Pow2(n - 1));
      hide Quot, Rem;
      DigitsFit(Quot(v, base), base, n - 1);
    }
  }

  lemma MulBound(q: nat, base: nat, p: nat)
    requires 2 <= base && p <= q
    ensures 2 * p <= q * base
  {}

  lemma HalfBound(v: nat, base: nat, p: nat)
    requires 0 < v && 2 <= base && v < 2 * p
    ensures Quot(v, base) < p
  {
    QuotRem(v, base);
    if Quot(v, base) >= p { MulBound(Quot(v, base), base, p); }
  }

  lemma TwoTo32()
    ensures Pow2(32) == TWO_32
  {
    assert Pow2(8) == 256;
    assert Pow2(16) == 256 * Pow2(8) by { assert Pow2(12) == 16 * Pow2(8); }
    assert Pow2(24) == 256 * Pow2(16) by { assert Pow2(20) == 16 * Pow2(16); }
    assert Pow2(28) == 16 * Pow2(24);
  }
}
