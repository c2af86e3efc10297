/** `btoa` prints a 32-bit number by filling a buffer with reversed digits, `atob` parses such text. */
module Atob {
  import opened Options
  import opened Numerals
  import opened Strtoul

  // ---------------------------------------------------------------- printing

  /** What `btoa` prints; base -10 stands for signed decimal. */
  function Printed(value: nat, base: int): (s: string)
    requires value < TWO_32 && (base == -10 || 2 <= base <= 36)
  {
    if base == -10 then
      if value < TWO_32 / 2 then Text(value, 10) else "-" + Text(TWO_32 - value, 10)
    else Text(value, base)
  }

  function Reverse(s: seq<char>): (r: seq<char>)
    ensures |r| == |s|
  {
    if s == [] then [] else Reverse(s[1..]) + [s[0]]
  }

  lemma {:induction false} ReverseAt(s: seq<char>, k: nat)
    requires k < |s|
    ensures Reverse(s)[k] == s[|s| - 1 - k]
  {
    if k < |s| - 1 { ReverseAt(s[1..], k); }
  }

  lemma {:induction false} ReverseSnoc(s: seq<char>, c: char)
    ensures Reverse(s + [c]) == [c] + Reverse(s)
  {
    if s == [] {
      assert s + [c] == [c];
    } else {
      ReverseSnoc(s[1..], c);
      assert (s + [c])[1..] == s[1..] + [c];
    }
  }

  /** Peels the digits of `value` off its low end; the buffer never holds more than 32 of them. */
  method FillDigits(buf: array<char>, value: nat, base: nat) returns (i: nat)
    requires buf.Length == 34 && value < TWO_32 && 2 <= base <= 36
    modifies buf
    ensures i <= 32 && Reverse(buf[..i]) == Digits(value, base)
  {
    hide Reverse, DigitChar, AllDigits, Pow2, Quot, Rem;
    var rest: nat := value;
    i := 0;
    TwoTo32();
    DigitsFit(value, base, 32);
    ReverseEmpty();
    while rest != 0
      invariant i <= 32 && Digits(value, base) == Digits(rest, base) + Reverse(buf[..i])
      decreases rest
    {
      var rem := Rem(rest, base);
      rest := Quot(rest, base);
      ReverseSnoc(buf[..i], DigitChar(rem));
      ghost var tail := Reverse(buf[..i]);
      assert Digits(rest, base) + [DigitChar(rem)] + tail == Digits(rest, base) + ([DigitChar(rem)] + tail);
      buf[i] := DigitChar(rem);
      i := i + 1;
      assert buf[..i] == buf[..i - 1] + [DigitChar(rem)];
    }
  }

  lemma ReverseEmpty()
    ensures Reverse([]) == []
  {}

  /** Copies `buf[..n]` backwards into `dst` and ends it with a NUL. */
  method CopyReversed(dst: array<char>, buf: array<char>, n: nat)
    requires n <= buf.Length && n < dst.Length && dst != buf
    modifies dst
    ensures dst[..n] == Reverse(buf[..n]) && dst[n] == '\0'
    ensures dst[n + 1..] == old(dst[n + 1..])
  {
    var i, j := 0, n - 1;
    while j >= 0
      invariant -1 <= j < n && i == n - 1 - j
      invariant forall k :: 0 <= k < i ==> dst[k] == buf[n - 1 - k]
      invariant dst[n + 1..] == old(dst[n + 1..])
    {
      dst[i] := buf[j];
      i, j := i + 1, j - 1;
    }
    dst[i] := '\0';
    forall k | 0 <= k < n ensures dst[..n][k] == Reverse(buf[..n])[k] {
      ReverseAt(buf[..n], k);
    }
  }

  /** What `btoa` does with a number that is not 0, once the sign is known. */
  method PrintMagnitude(dst: array<char>, magnitude: nat, base: nat, neg: bool)
    requires 0 < magnitude < TWO_32 && 2 <= base <= 36
    requires (if neg then 1 else 0) + |Digits(magnitude, base)| < dst.Length
    modifies dst
    ensures var t := (if neg then "-" else "") + Digits(magnitude, base);
            dst[..|t|] == t && dst[|t|] == '\0' && dst[|t| + 1..] == old(dst[|t| + 1..])
  {
    hide Digits, Reverse;
    var buf := new char[34];
    var i := FillDigits(buf, magnitude, base);
    buf[i] := '\0';
    if neg {
      ReverseSnoc(buf[..i], '-');
      buf[i], buf[i + 1] := '-', '\0';
      i := i + 1;
      assert buf[..i] == buf[..i - 1] + ['-'];
    }
    CopyReversed(dst, buf, i);
  }

  /** `btoa(dst, value, base)`: the text and its NUL, and nothing behind them; the 34-byte buffer inside is
      never overrun. */
  method Btoa(dst: array<char>, value: nat, base: int)
    requires value < TWO_32 && (base == -10 || 2 <= base <= 36)
    requires |Printed(value, base)| < dst.Length
    modifies dst
    ensures var t := Printed(value, base);
            dst[..|t|] == t && dst[|t|] == '\0' && dst[|t| + 1..] == old(dst[|t| + 1..])
  {
    hide Digits;
    if value == 0 {
      dst[0] := '0';
      dst[1] := '\0';
      return;
    }
    var magnitude, radix, neg := value, base, false;
    if base == -10 {
      radix := 10;
      if value / 0x8000_0000 % 2 == 1 {
        magnitude := (0xffff_ffff - value + 1) % TWO_32;
        neg := true;
      }
    }
    assert Printed(value, base) == (if neg then "-" else "") + Digits(magnitude, radix);
    PrintMagnitude(dst, magnitude, radix, neg);
  }

  // ---------------------------------------------------------------- parsing

  /** First index of `c` at or behind `i`. */
  function IndexOf(s: string, c: char, i: nat): (r: Option<nat>)
    requires i <= |s|
    ensures r.Some? ==> i <= r.value < |s| && s[r.value] == c
    decreases |s| - i
  {
    if i == |s| then None else if s[i] == c then Some(i) else IndexOf(s, c, i + 1)
  }

  /** The digit loop of `_atob`: hexadecimal digits below the base, nothing else. */
  predicate HexDigits(s: string, base: nat) {
    forall i :: 0 <= i < |s| ==> IsDigit(s[i], base) && IsDigit(s[i], 16)
  }

  predicate HasHexPrefix(s: string) { At(s, 0) == '0' && Hex(At(s, 1)) }

  function Plain(p: string, base: nat): (r: Option<nat>)
    ensures r.Some? ==> r.value < TWO_32
  {
    if HexDigits(p, base) then assert AllDigits(p, base); Some(ValueOf(p, base) % TWO_32) else None
  }

  function Halves(high: Option<nat>, low: Option<nat>): (r: Option<nat>)
    ensures r.Some? ==> r.value < TWO_32
  {
    if high.None? || low.None? then None else Some((high.value * 0x1_0000 + low.value) % TWO_32)
  }

  /** `_atob`: an optional 0x prefix, then digits, or in base 16 two numbers around a dot, the left one shifted
      up by 16 bits.  `None` is the return value 0. */
  function Parse(s: string, base: nat): (r: Option<nat>)
    requires 2 <= base
    ensures r.Some? ==> r.value < TWO_32
    decreases |s|
  {
    var b := if HasHexPrefix(s) then 16 else base;
    var p := if HasHexPrefix(s) then s[2..] else s;
    var dot := IndexOf(p, '.', 0);
    if b == 16 && dot.Some? then
      if dot.value > 19 || IndexOf(p, '.', dot.value + 1).Some? then None
      else Halves(Parse(p[..dot.value], 16), Parse(p[dot.value + 1..], 16))
    else Plain(p, b)
  }

  lemma HornerStep(v: nat, w: nat, base: nat, digit: nat)
    requires w == v % TWO_32
    ensures (w * base % TWO_32 + digit) % TWO_32 == (v * base + digit) % TWO_32
  {
    var q, x := v / TWO_32, w * base;
    assert v == TWO_32 * q + w;
    SplitProduct(TWO_32, q, w, base);
    var z := x / TWO_32;
    assert x == TWO_32 * z + x % TWO_32;
    WholeTurns(x % TWO_32 + digit, z);
    WholeTurns(x + digit, q * base);
  }

  lemma SplitProduct(t: nat, q: nat, w: nat, base: nat)
    ensures (t * q + w) * base == t * (q * base) + w * base
  {}

  lemma WholeTurns(x: nat, q: nat)
    ensures (TWO_32 * q + x) % TWO_32 == x % TWO_32
  {}

  /** The three ranges of the digit loop. */
  lemma HexDigitCases(c: char)
    ensures '0' <= c <= '9' ==> DigitValue(c) == Some(c as nat - '0' as nat) && IsDigit(c, 16)
    ensures 'a' <= c <= 'f' ==> DigitValue(c) == Some(c as nat - 'a' as nat + 10) && IsDigit(c, 16)
    ensures 'A' <= c <= 'F' ==> DigitValue(c) == Some(c as nat - 'A' as nat + 10) && IsDigit(c, 16)
    ensures !('0' <= c <= '9' || 'a' <= c <= 'f' || 'A' <= c <= 'F') ==> !IsDigit(c, 16)
  {}

  lemma HexDigitsGrow(p: string, i: nat, base: nat)
    requires i < |p| && HexDigits(p[..i], base) && AllDigits(p[..i], base) && IsDigit(p[i], base) && IsDigit(p[i], 16)
    ensures HexDigits(p[..i + 1], base) && AllDigits(p[..i + 1], base)
    ensures ValueOf(p[..i + 1], base) == ValueOf(p[..i], base) * base + DigitValue(p[i]).value
  {
    hide IsDigit, ValueOf;
    assert p[..i + 1] == p[..i] + [p[i]];
    ValueOfSnoc(p[..i], p[i], base);
  }

  lemma NotHexDigits(p: string, i: nat, base: nat)
    requires i < |p| && !(IsDigit(p[i], base) && IsDigit(p[i], 16))
    ensures !HexDigits(p, base)
  {}

  lemma EmptyHexDigits(base: nat)
    ensures HexDigits([], base)
  {}

  method ParseDigits(p: string, base: nat) returns (ok: bool, value: nat)
    requires 2 <= base
    ensures ok <==> HexDigits(p, base)
    ensures ok ==> AllDigits(p, base) && value == ValueOf(p, base) % TWO_32
  {
    hide HexDigits, AllDigits, ValueOf, DigitValue;
    value := 0;
    var i := 0;
    EmptyHexDigits(base);
    EmptyValue(base);
    assert p[..0] == [];
    while i < |p|
      invariant i <= |p| && HexDigits(p[..i], base)
      invariant AllDigits(p[..i], base) && value == ValueOf(p[..i], base) % TWO_32
    {
      HexDigitCases(p[i]);
      var digit;
      if '0' <= p[i] <= '9' {
        digit := p[i] as nat - '0' as nat;
      } else if 'a' <= p[i] <= 'f' {
        digit := p[i] as nat - 'a' as nat + 10;
      } else if 'A' <= p[i] <= 'F' {
        digit := p[i] as nat - 'A' as nat + 10;
      } else {
        NotHexDigits(p, i, base);
        return false, 0;
      }
      if digit >= base {
        NotHexDigits(p, i, base);
        return false, 0;
      }
      HornerStep(ValueOf(p[..i], base), value, base, digit);
      HexDigitsGrow(p, i, base);
      value := value * base % TWO_32;
      value := (value + digit) % TWO_32;
      i := i + 1;
    }
    assert p[..i] == p;
    return true, value;
  }

  lemma AddHalves(high: nat, low: nat)
    ensures (high * 0x1_0000 % TWO_32 + low) % TWO_32 == (high * 0x1_0000 + low) % TWO_32
  {}

  lemma HexPrefixLength(s: string)
    ensures HasHexPrefix(s) ==> 2 <= |s|
  {}

  lemma HalvesFail(high: Option<nat>, low: Option<nat>)
    ensures high.None? || low.None? ==> Halves(high, low) == None
  {}

  /** `(v1 << 16) + v2` in 32 bits. */
  method JoinHalves(high: nat, low: nat) returns (value: nat)
    ensures Halves(Some(high), Some(low)) == Some(value)
  {
    AddHalves(high, low);
    value := (high * 0x1_0000 % TWO_32 + low) % TWO_32;
  }

  lemma PlainIs(p: string, base: nat)
    ensures HexDigits(p, base) ==> AllDigits(p, base) && Plain(p, base) == Some(ValueOf(p, base) % TWO_32)
    ensures !HexDigits(p, base) ==> Plain(p, base) == None
  {
    hide ValueOf;
  }

  /** `_atob`: both the number around a dot and the plain one; 0 is returned as `ok == false`. */
  method Run(s: string, base: nat) returns (ok: bool, value: nat)
    requires 2 <= base
    ensures Parse(s, base) == if ok then Some(value) else None
    decreases |s|
  {
    hide HexDigits, ValueOf, IndexOf, AllDigits, HasHexPrefix, Plain, Halves;
    HexPrefixLength(s);
    var p, b := s, base;
    if HasHexPrefix(s) {
      b := 16;
      p := s[2..];
    }
    var dot := IndexOf(p, '.', 0);
    if b == 16 && dot.Some? {
      var q := dot.value;
      if q > 19 {
        return false, 0;
      }
      var high;
      ok, high := Run(p[..q], 16);
      if !ok {
        HalvesFail(None, Parse(p[q + 1..], 16));
        return false, 0;
      }
      if IndexOf(p, '.', q + 1).Some? {
        return false, 0;
      }
      var low;
      ok, low := Run(p[q + 1..], 16);
      if !ok {
        HalvesFail(Some(high), None);
        return false, 0;
      }
      value := JoinHalves(high, low);
      return true, value;
    }
    ok, value := ParseDigits(p, b);
    PlainIs(p, b);
  }

  // ---------------------------------------------------------------- every kind of text atob takes

  lemma {:induction false} NoDot(s: string, i: nat)
    requires i <= |s| && '.' !in s
    ensures IndexOf(s, '.', i).None?
    decreases |s| - i
  {
    if i < |s| { NoDot(s, i + 1); }
  }

  /** Text without a 0x prefix, and without a dot in base 16: hexadecimal digits below the base, or a failure. */
  lemma ParsesPlain(s: string, base: nat)
    requires 2 <= base && !(|s| >= 2 && s[0] == '0' && (s[1] == 'x' || s[1] == 'X'))
    requires base == 16 ==> '.' !in s
    ensures AllDigits(s, base) && AllDigits(s, 16) ==> Parse(s, base) == Some(ValueOf(s, base) % TWO_32)
    ensures !(AllDigits(s, base) && AllDigits(s, 16)) ==> Parse(s, base) == None
  {
    if base == 16 { NoDot(s, 0); }
    if AllDigits(s, base) && AllDigits(s, 16) { assert HexDigits(s, base); }
  }

  /** A prefix 0x or 0X selects base 16, whatever base was asked for. */
  lemma PrefixSelectsHex(x: char, s: string, base: nat)
    requires 2 <= base && (x == 'x' || x == 'X') && !(|s| >= 2 && s[0] == '0' && (s[1] == 'x' || s[1] == 'X'))
    ensures Parse(['0', x] + s, base) == Parse(s, 16)
  {
    hide Plain, Halves, IndexOf;
    assert (['0', x] + s)[2..] == s;
  }

  lemma {:induction false} DotFound(l: string, r: string, i: nat)
    requires i <= |l| && '.' !in l
    ensures IndexOf(l + "." + r, '.', i) == Some(|l|)
    decreases |l| - i
  {
    if i < |l| {
      assert (l + "." + r)[i] == l[i];
      DotFound(l, r, i + 1);
    }
  }

  lemma {:induction false} NoDotBehind(l: string, r: string, i: nat)
    requires |l| < i <= |l + "." + r|
    ensures IndexOf(l + "." + r, '.', i).None? <==> '.' !in r[i - |l| - 1..]
    decreases |l + "." + r| - i
  {
    var s, k := l + "." + r, i - |l| - 1;
    if i < |s| {
      assert s[i] == r[k];
      NoDotBehind(l, r, i + 1);
      assert r[k..] == [r[k]] + r[k + 1..];
    }
  }

  lemma SplitAtDot(l: string, r: string)
    requires '.' !in l && !HasHexPrefix(l)
    ensures Parse(l + "." + r, 16) ==
            if |l| > 19 || '.' in r then None else Halves(Parse(l, 16), Parse(r, 16))
  {
    hide *;
    DotParts(l, r);
    DotFound(l, r, 0);
    NoDotBehind(l, r, |l| + 1);
    NoHexPrefix(l, r);
    ParseUnfolds(l + "." + r);
  }

  lemma DotParts(l: string, r: string)
    ensures var s := l + "." + r;
            |s| == |l| + 1 + |r| && s[..|l|] == l && s[|l| + 1..] == r && r[|l| + 1 - |l| - 1..] == r
  {}

  lemma ParseUnfolds(s: string)
    requires !HasHexPrefix(s) && IndexOf(s, '.', 0).Some?
    ensures var q := IndexOf(s, '.', 0).value;
            Parse(s, 16) ==
            if q > 19 || IndexOf(s, '.', q + 1).Some? then None else Halves(Parse(s[..q], 16), Parse(s[q + 1..], 16))
  {
    hide Plain, Halves, IndexOf, HasHexPrefix;
  }

  lemma NoHexPrefix(l: string, r: string)
    requires '.' !in l && !HasHexPrefix(l)
    ensures !HasHexPrefix(l + "." + r)
  {
    var s := l + "." + r;
    if |l| >= 2 { assert s[0] == l[0] && s[1] == l[1]; } else if |l| == 1 { assert s[1] == '.'; } else { assert s[0] == '.'; }
  }

  /** In base 16 a dot separates the upper half from the lower one; the left number may have up to 19 characters, a
      second dot is an error. */
  lemma ParsesDotted(l: string, r: string)
    requires '.' !in l && !(|l| >= 2 && l[0] == '0' && (l[1] == 'x' || l[1] == 'X'))
    requires !(|r| >= 2 && r[0] == '0' && (r[1] == 'x' || r[1] == 'X'))
    ensures |l| <= 19 && AllDigits(l, 16) && AllDigits(r, 16) ==>
              Parse(l + "." + r, 16) == Some((ValueOf(l, 16) * 0x1_0000 + ValueOf(r, 16)) % 0x1_0000_0000)
    ensures 19 < |l| || !AllDigits(l, 16) || !AllDigits(r, 16) ==> Parse(l + "." + r, 16) == None
  {
    hide AllDigits, ValueOf, HexDigits, Parse;
    SplitAtDot(l, r);
    ParsesPlain(l, 16);
    if '.' in r { DotIsNoDigit(r); } else { ParsesPlain(r, 16); }
    if AllDigits(l, 16) && AllDigits(r, 16) { HalvesJoin(ValueOf(l, 16), ValueOf(r, 16)); }
  }

  lemma DotIsNoDigit(s: string)
    requires '.' in s
    ensures !AllDigits(s, 16)
  {}

  lemma HalvesJoin(high: nat, low: nat)
    ensures (high % TWO_32 * 0x1_0000 + low % TWO_32) % TWO_32 == (high * 0x1_0000 + low) % TWO_32
  {
    var q, r := high / TWO_32, low / TWO_32;
    assert high == TWO_32 * q + high % TWO_32 && low == TWO_32 * r + low % TWO_32;
    WholeTurns(high % TWO_32 * 0x1_0000 + low % TWO_32, q * 0x1_0000 + r);
  }

  // ---------------------------------------------------------------- print, then parse

  lemma TextShape(v: nat, base: nat)
    requires 2 <= base <= 36
    ensures var t := Text(v, base);
            && (v == 0 <==> t == "0") && (0 < v ==> t[0] != '0')
            && forall i :: 0 <= i < |t| ==> '0' <= t[i] <= '9' || 'a' <= t[i] <= 'z'
  {
    if v != 0 { DigitsShape(v, base); }
  }

  /** `strtoul` reads back every number `btoa` prints, whatever the base. */
  lemma StrtoulReadsBtoa(v: nat, base: nat)
    requires v < TWO_32 && 2 <= base <= 36
    ensures Spec(Printed(v, base), base) == Parsed(v, |Printed(v, base)|)
  {
    hide Text, ValueOf, AllDigits, Spec;
    TextShape(v, base);
    ValueOfText(v, base);
    ReadsAllDigits(Text(v, base), base);
  }

  /** Signed decimal: a minus sign exactly from 2^31 on, then the digits of the magnitude; otherwise the digits of the
      number itself. */
  lemma SignedShape(v: nat)
    requires v < TWO_32
    ensures v < 0x8000_0000 ==>
              AllDigits(Printed(v, -10), 10) && ValueOf(Printed(v, -10), 10) == v && '-' !in Printed(v, -10)
    ensures 0x8000_0000 <= v ==>
              var t := Printed(v, -10);
              t != "" && t[0] == '-' && AllDigits(t[1..], 10) && ValueOf(t[1..], 10) == 0x1_0000_0000 - v
  {
    hide Text, ValueOf;
    var m := if v < 0x8000_0000 then v else 0x1_0000_0000 - v;
    ValueOfText(m, 10);
    MinusIsNoDigit(Text(m, 10));
    assert ("-" + Text(m, 10))[1..] == Text(m, 10);
  }

  lemma MinusIsNoDigit(t: string)
    requires AllDigits(t, 10)
    ensures '-' !in t
  {}

  /** The signed form comes back as the same 32-bit pattern, 0x80000000 included. */
  lemma StrtoulReadsSigned(v: nat)
    requires v < TWO_32
    ensures Spec(Printed(v, -10), 10) == Parsed(v, |Printed(v, -10)|)
  {
    hide Spec, Text;
    if v < TWO_32 / 2 {
      StrtoulReadsBtoa(v, 10);
    } else {
      ValueOfText(TWO_32 - v, 10);
      ReadsNegative(Text(TWO_32 - v, 10));
    }
  }

  /** `atob` reads back every number printed in a base up to 16. */
  lemma AtobReadsBtoa(v: nat, base: nat)
    requires v < TWO_32 && 2 <= base <= 16
    ensures Parse(Printed(v, base), base) == Some(v)
  {
    var t := Text(v, base);
    TextShape(v, base);
    ValueOfText(v, base);
    assert !HasHexPrefix(t);
    NoDot(t, 0);
    assert HexDigits(t, base);
  }

  /** In every base `atob` reads back what `btoa` printed exactly when the text has no letter beyond f: its
      digit loop knows hexadecimal digits only. */
  lemma AtobExact(v: nat, base: nat)
    requires v < TWO_32 && 2 <= base <= 36
    ensures Parse(Printed(v, base), base) == if HexDigits(Text(v, base), base) then Some(v) else None
  {
    var t := Text(v, base);
    TextShape(v, base);
    ValueOfText(v, base);
    assert !HasHexPrefix(t);
    NoDot(t, 0);
  }
}
