/** `strtoul` for a 32-bit unsigned long: sign, base prefix, digits, saturation. */
module Strtoul {
  import opened Numerals

  /** The character at `i` of a C string, which ends with a NUL. */
  function At(s: string, i: nat): char {
    if i < |s| then s[i] else '\0'
  }

  predicate CString(s: string) {
    forall i :: 0 <= i < |s| ==> s[i] != '\0'
  }

  /** The value returned, and the index `endptr` is set to. */
  datatype Parsed = Parsed(value: nat, end: nat)

  // ---------------------------------------------------------------- what a number looks like

  function SkipSpaces(s: string, i: nat): (j: nat)
    requires i <= |s|
    ensures i <= j <= |s|
    decreases |s| - i
  {
    if i < |s| && s[i] == ' ' then SkipSpaces(s, i + 1) else i
  }

  predicate IsSign(c: char) { c == '+' || c == '-' }

  /** First index behind the longest run of digits. */
  function RunEnd(s: string, i: nat, base: nat): (e: nat)
    requires i <= |s|
    ensures i <= e <= |s| && AllDigits(s[i..e], base)
    ensures e < |s| ==> !IsDigit(s[e], base)
    decreases |s| - i
  {
    if i < |s| && IsDigit(s[i], base) then
      var e := RunEnd(s, i + 1, base);
      assert s[i..e] == [s[i]] + s[i + 1..e];
      e
    else i
  }

  /** Where the digits start and in which base they are read. */
  datatype Prefix = Prefix(start: nat, base: nat)

  predicate Hex(c: char) { c == 'x' || c == 'X' }

  /** The prefix the code skips.  With an explicit base 16 its test for 'X' compares a truth value, so only
      "0x" is skipped in full; of "0X" it skips the zero. */
  function PrefixAt(s: string, i: nat, base: nat): (p: Prefix)
    requires i <= |s|
    ensures i <= p.start <= |s|
    ensures 1 <= p.base
  {
    if base == 0 then
      if At(s, i) != '0' then Prefix(i, 10)
      else if Hex(At(s, i + 1)) then Prefix(i + 2, 16)
      else Prefix(i + 1, 8)
    else if base == 16 && At(s, i) == '0' then
      if At(s, i + 1) == 'x' then Prefix(i + 2, 16) else Prefix(i + 1, 16)
    else Prefix(i, base)
  }

  /** The prefix the comment beside it promises. */
  function IntendedPrefixAt(s: string, i: nat, base: nat): (p: Prefix)
    requires i <= |s|
    ensures i <= p.start <= |s|
  {
    if base == 16 && At(s, i) == '0' && Hex(At(s, i + 1)) then Prefix(i + 2, 16) else PrefixAt(s, i, base)
  }

  /** Two's-complement negation, and saturation of what does not fit. */
  function Finish(negative: bool, v: nat): (r: nat)
    ensures r <= ULONG_MAX
  {
    if v > ULONG_MAX then ULONG_MAX else if negative then (TWO_32 - v) % TWO_32 else v
  }

  function Read(s: string, negative: bool, p: Prefix): Parsed
    requires p.start <= |s|
  {
    var e := RunEnd(s, p.start, p.base);
    Parsed(Finish(negative, ValueOf(s[p.start..e], p.base)), e)
  }

  function SignAt(s: string): (i: nat)
    ensures i <= |s|
  {
    SkipSpaces(s, 0)
  }

  function NumberAt(s: string): (i: nat)
    ensures i <= |s|
  {
    if IsSign(At(s, SignAt(s))) then SignAt(s) + 1 else SignAt(s)
  }

  function Spec(s: string, base: nat): Parsed {
    Read(s, At(s, SignAt(s)) == '-', PrefixAt(s, NumberAt(s), base))
  }

  function Intended(s: string, base: nat): Parsed {
    Read(s, At(s, SignAt(s)) == '-', IntendedPrefixAt(s, NumberAt(s), base))
  }

  // ---------------------------------------------------------------- the program

  lemma {:induction false} RunExtends(s: string, i: nat, j: nat, base: nat)
    requires i <= j <= |s| && AllDigits(s[i..j], base)
    ensures RunEnd(s, i, base) == RunEnd(s, j, base)
    decreases j - i
  {
    if i < j {
      assert s[i..j][0] == s[i];
      assert s[i + 1..j] == s[i..j][1..];
      RunExtends(s, i + 1, j, base);
    }
  }

  lemma RunStops(s: string, i: nat, base: nat)
    requires i <= |s| && (i == |s| || !IsDigit(s[i], base))
    ensures RunEnd(s, i, base) == i
  {}

  /** One more digit: the overflow test is exact, because the value never shrinks. */
  lemma DigitStep(v: nat, digit: nat, base: nat)
    requires 1 <= base && digit < base
    ensures v > ULONG_MAX / base ==> v * base + digit > ULONG_MAX
    ensures v <= ULONG_MAX / base ==> base * v <= ULONG_MAX && base * v % TWO_32 == v * base
    ensures v > ULONG_MAX ==> v * base + digit > ULONG_MAX
  {
    var limit := ULONG_MAX / base;
    LimitIs(base);
    Commute(v, base);
    if v > limit {
      Grows(base, limit + 1, v);
    } else {
      Grows(base, v, limit);
      assert base * v % TWO_32 == base * v;
    }
  }

  lemma LimitIs(base: nat)
    requires 1 <= base
    ensures base * (ULONG_MAX / base) <= ULONG_MAX < base * (ULONG_MAX / base + 1)
    ensures ULONG_MAX / base <= ULONG_MAX
  {
    assert base * (ULONG_MAX / base + 1) == base * (ULONG_MAX / base) + base;
  }

  lemma Commute(x: nat, y: nat)
    ensures x * y == y * x
  {}

  lemma Grows(base: nat, x: nat, y: nat)
    requires x <= y
    ensures base * x <= base * y
  {}

  lemma RunGrows(s: string, start: nat, end: nat, base: nat)
    requires start <= end < |s| && AllDigits(s[start..end], base) && IsDigit(s[end], base)
    ensures AllDigits(s[start..end + 1], base)
    ensures ValueOf(s[start..end + 1], base) == ValueOf(s[start..end], base) * base + DigitValue(s[end]).value
  {
    hide AllDigits, ValueOf, IsDigit;
    ValueOfSnoc(s[start..end], s[end], base);
    assert s[start..end + 1] == s[start..end] + [s[end]];
  }

  method ParseDigits(s: string, start: nat, base: nat) returns (result: nat, overflow: bool, end: nat)
    requires CString(s) && start <= |s| && 1 <= base
    ensures end == RunEnd(s, start, base)
    ensures overflow <==> ValueOf(s[start..end], base) > ULONG_MAX
    ensures !overflow ==> result == ValueOf(s[start..end], base)
  {
    hide AllDigits, ValueOf, RunEnd, DigitValue, CString;
    var limit := ULONG_MAX / base;
    result, overflow, end := 0, false, start;
    EmptyValue(base);
    assert s[start..start] == [];
    while end < |s|
      invariant start <= end <= |s| && AllDigits(s[start..end], base)
      invariant overflow <==> ValueOf(s[start..end], base) > ULONG_MAX
      invariant !overflow ==> result == ValueOf(s[start..end], base)
    {
      if !IsDigit(s[end], base) {
        break;
      }
      var digit := DigitValue(s[end]).value;
      DigitStep(ValueOf(s[start..end], base), digit, base);
      RunGrows(s, start, end, base);
      if result > limit {
        overflow := true;
      }
      if !overflow {
        result := base * result % TWO_32;
        if digit > ULONG_MAX - result {
          overflow := true;
        } else {
          result := result + digit;
        }
      }
      end := end + 1;
    }
    RunStops(s, end, base);
    RunExtends(s, start, end, base);
  }

  method SkipBlanks(s: string) returns (i: nat)
    ensures i == SignAt(s)
    ensures i <= |s| && (forall k :: 0 <= k < i ==> s[k] == ' ') && (i == |s| || s[i] != ' ')
  {
    i := 0;
    while i < |s| && s[i] == ' '
      invariant i <= |s| && SkipSpaces(s, i) == SkipSpaces(s, 0)
      invariant forall k :: 0 <= k < i ==> s[k] == ' '
    {
      i := i + 1;
    }
  }

  method SkipPrefix(s: string, start: nat, requested: nat) returns (i: nat, base: nat)
    requires CString(s) && start <= |s|
    ensures Prefix(i, base) == PrefixAt(s, start, requested)
  {
    i, base := start, requested;
    if base == 0 {
      base := 10;
      if At(s, i) == '0' {
        base := 8;
        i := i + 1;
        if At(s, i) == 'x' || At(s, i) == 'X' {
          base := 16;
          i := i + 1;
        }
      }
    } else if base == 16 && At(s, i) == '0' {
      i := i + 1;
      var c := if At(s, i) == 'x' then 1 as char else 0 as char;
      if c != 0 as char || c == 'X' {
        i := i + 1;
      }
    }
  }

  /** `strtoul(s, &end, requested)`. */
  method Run(s: string, requested: nat) returns (result: nat, end: nat)
    requires CString(s)
    ensures Parsed(result, end) == Spec(s, requested)
  {
    hide ValueOf, RunEnd, SkipSpaces, AllDigits, PrefixAt;
    var i := SkipBlanks(s);
    var negative := false;
    if At(s, i) == '+' || At(s, i) == '-' {
      negative := At(s, i) == '-';
      i := i + 1;
    }
    var base;
    i, base := SkipPrefix(s, i, requested);
    var overflow;
    result, overflow, end := ParseDigits(s, i, base);
    if negative && !overflow {
      result := (TWO_32 - result) % TWO_32;
    }
    if overflow {
      result := ULONG_MAX;
    }
  }

  // ---------------------------------------------------------------- properties

  /** The code does what its comment says exactly when it is not asked to read "0X..." in base 16. */
  lemma PrefixExact(s: string, base: nat)
    ensures Spec(s, base) == Intended(s, base)
       <==> !(base == 16 && At(s, NumberAt(s)) == '0' && At(s, NumberAt(s) + 1) == 'X')
  {}

  /** For instance, "0XFF" is read as 0 and the parse stops at the X. */
  lemma UpperCasePrefixStops()
    ensures Spec("0XFF", 16) == Parsed(0, 1)
  {
    assert SkipSpaces("0XFF", 0) == 0;
    assert RunEnd("0XFF", 1, 16) == 1;
    assert "0XFF"[1..1] == [];
  }

  /** A text of digits without sign, space or prefix is read to its end. */
  lemma ReadsAllDigits(t: string, base: nat)
    requires t != [] && AllDigits(t, base) && 1 <= base <= 36
    requires base == 16 && t[0] == '0' ==> t == "0"
    ensures Spec(t, base) == Parsed(Finish(false, ValueOf(t, base)), |t|)
  {
    assert IsDigit(t[0], base);
    assert SkipSpaces(t, 0) == 0;
    if base == 16 && t[0] == '0' {
      assert RunEnd(t, 1, 16) == 1;
      assert t[1..1] == [] && t[..0] == [];
    } else {
      assert t[0..|t|] == t;
      RunExtends(t, 0, |t|, base);
    }
  }

  /** The same after a minus sign, in base 10. */
  lemma ReadsNegative(t: string)
    requires t != [] && AllDigits(t, 10)
    ensures Spec("-" + t, 10) == Parsed(Finish(true, ValueOf(t, 10)), |t| + 1)
  {
    var s := "-" + t;
    assert SkipSpaces(s, 0) == 0;
    assert s[1..|s|] == t;
    RunExtends(s, 1, |s|, 10);
  }

  // ---------------------------------------------------------------- every kind of number

  lemma {:induction false} SkipsBlanks(s: string, i: nat, n: nat)
    requires i <= n <= |s| && (forall k :: i <= k < n ==> s[k] == ' ') && (n == |s| || s[n] != ' ')
    ensures SkipSpaces(s, i) == n
    decreases n - i
  {
    if i < n { SkipsBlanks(s, i + 1, n); }
  }

  /** Which prefixes are skipped in front of `after`, and the base they select. */
  predicate Prefixed(requested: nat, prefix: string, after: string, base: nat) {
    || (requested == base != 0 && prefix == "" && (base != 16 || At(after, 0) != '0'))
    || (requested == 16 == base && prefix == "0x")
    || (requested == 16 == base && prefix == "0" && At(after, 0) != 'x')
    || (requested == 0 && base == 16 && (prefix == "0x" || prefix == "0X"))
    || (requested == 0 && base == 8 && prefix == "0" && At(after, 0) != 'x' && At(after, 0) != 'X')
    || (requested == 0 && base == 10 && prefix == "" && At(after, 0) != '0')
  }

  /** `tail` stands in `s` from index `i` on. */
  predicate From(s: string, i: nat, tail: string) {
    i <= |s| && s[i..] == tail
  }

  lemma AtFrom(s: string, i: nat, tail: string, k: nat)
    requires From(s, i, tail)
    ensures At(s, i + k) == At(tail, k)
  {}

  lemma FromStep(s: string, i: nat, x: string, y: string)
    requires From(s, i, x + y)
    ensures From(s, i + |x|, y)
  {}

  lemma PrefixFound(s: string, i: nat, requested: nat, prefix: string, after: string, base: nat)
    requires From(s, i, prefix + after) && Prefixed(requested, prefix, after, base)
    ensures PrefixAt(s, i, requested) == Prefix(i + |prefix|, base)
  {
    AtFrom(s, i, prefix + after, 0);
    AtFrom(s, i, prefix + after, 1);
  }

  lemma DigitsFound(s: string, i: nat, digits: string, rest: string, base: nat)
    requires From(s, i, digits + rest) && AllDigits(digits, base) && !IsDigit(At(rest, 0), base)
    ensures RunEnd(s, i, base) == i + |digits| <= |s| && s[i..i + |digits|] == digits
  {
    var e := i + |digits|;
    hide AllDigits, IsDigit, RunEnd;
    assert s[i..e] == digits;
    AtFrom(s, i, digits + rest, |digits|);
    RunExtends(s, i, e, base);
    RunStops(s, e, base);
  }

  lemma StartFound(blanks: string, sign: string, tail: string)
    requires forall k :: 0 <= k < |blanks| ==> blanks[k] == ' '
    requires sign == "" || sign == "+" || sign == "-"
    requires sign == "" ==> At(tail, 0) != ' ' && At(tail, 0) != '+' && At(tail, 0) != '-'
    ensures var s := blanks + (sign + tail);
            && (At(s, SignAt(s)) == '-' <==> sign == "-")
            && NumberAt(s) == |blanks| + |sign| && From(s, |blanks| + |sign|, tail)
  {
    hide SkipSpaces;
    var s := blanks + (sign + tail);
    assert From(s, |blanks|, sign + tail);
    AtFrom(s, |blanks|, sign + tail, 0);
    SkipsBlanks(s, 0, |blanks|);
  }

  lemma NumberFound(s: string, i: nat, prefix: string, digits: string, rest: string, requested: nat, base: nat)
    requires From(s, i, prefix + (digits + rest)) && Prefixed(requested, prefix, digits + rest, base)
    requires AllDigits(digits, base) && !IsDigit(At(rest, 0), base)
    ensures var p, e := PrefixAt(s, i, requested), i + |prefix| + |digits|;
            p == Prefix(i + |prefix|, base) && RunEnd(s, p.start, base) == e <= |s| && s[p.start..e] == digits
  {
    hide AllDigits, IsDigit, RunEnd, PrefixAt, Prefixed, From, At;
    PrefixFound(s, i, requested, prefix, digits + rest, base);
    FromStep(s, i, prefix, digits + rest);
    DigitsFound(s, i + |prefix|, digits, rest, base);
  }

  lemma FinishExact(negative: bool, v: nat)
    ensures 4294967295 < v ==> Finish(negative, v) == 4294967295
    ensures v <= 4294967295 && !negative ==> Finish(negative, v) == v
    ensures v <= 4294967295 && negative ==>
              Finish(negative, v) <= 4294967295 && (v + Finish(negative, v)) % 0x1_0000_0000 == 0
  {}

  /** The whole of strtoul: blanks, an optional sign, a prefix, digits, and whatever follows.  With base 0 a text that
      starts with another character than 0 is decimal, 0 selects octal, 0x and 0X hexadecimal; with base 16 only 0x is
      skipped in full.  The value of the digits saturates at 4294967295 when it does not fit, sign or no sign; after a
      minus sign a value that fits comes back as the number that adds up with it to 2^32, or 0.  The end is the end of
      the digits. */
  lemma ReadsNumber(blanks: string, sign: string, prefix: string, digits: string, rest: string, requested: nat, base: nat)
    requires forall k :: 0 <= k < |blanks| ==> blanks[k] == ' '
    requires sign == "" || sign == "+" || sign == "-"
    requires var c := At(prefix + (digits + rest), 0); sign == "" ==> c != ' ' && c != '+' && c != '-'
    requires var c := At(digits + rest, 0);
             || (requested == base != 0 && prefix == "" && (base != 16 || c != '0'))
             || (requested == 16 == base && (prefix == "0x" || (prefix == "0" && c != 'x')))
             || (requested == 0 && base == 16 && (prefix == "0x" || prefix == "0X"))
             || (requested == 0 && base == 8 && prefix == "0" && c != 'x' && c != 'X')
             || (requested == 0 && base == 10 && prefix == "" && c != '0')
    requires AllDigits(digits, base) && !IsDigit(At(rest, 0), base)
    ensures var v, r := ValueOf(digits, base), Spec(blanks + (sign + (prefix + (digits + rest))), requested);
            && r.end == |blanks| + |sign| + |prefix| + |digits|
            && (4294967295 < v ==> r.value == 4294967295)
            && (v <= 4294967295 && sign != "-" ==> r.value == v)
            && (v <= 4294967295 && sign == "-" ==> r.value <= 4294967295 && (v + r.value) % 0x1_0000_0000 == 0)
  {
    hide *;
    var tail := prefix + (digits + rest);
    var s := blanks + (sign + tail);
    StartFound(blanks, sign, tail);
    PrefixedIs(requested, prefix, digits + rest, base);
    NumberFound(s, |blanks| + |sign|, prefix, digits, rest, requested, base);
    SpecIs(s, requested, sign == "-", PrefixAt(s, NumberAt(s), requested));
    FinishExact(sign == "-", ValueOf(digits, base));
  }

  lemma PrefixedIs(requested: nat, prefix: string, after: string, base: nat)
    requires var c := At(after, 0);
             || (requested == base != 0 && prefix == "" && (base != 16 || c != '0'))
             || (requested == 16 == base && (prefix == "0x" || (prefix == "0" && c != 'x')))
             || (requested == 0 && base == 16 && (prefix == "0x" || prefix == "0X"))
             || (requested == 0 && base == 8 && prefix == "0" && c != 'x' && c != 'X')
             || (requested == 0 && base == 10 && prefix == "" && c != '0')
    ensures Prefixed(requested, prefix, after, base)
  {}

  lemma SpecIs(s: string, requested: nat, negative: bool, p: Prefix)
    requires negative == (At(s, SignAt(s)) == '-') && p == PrefixAt(s, NumberAt(s), requested)
    ensures p.start <= |s|
    ensures var e := RunEnd(s, p.start, p.base);
            Spec(s, requested) == Parsed(Finish(negative, ValueOf(s[p.start..e], p.base)), e)
  {
    hide SignAt, NumberAt, PrefixAt, RunEnd, ValueOf, Finish;
  }
}
