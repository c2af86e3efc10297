/** The reader of memory files: one 32-bit number a line, stored as four little-endian bytes. */
module Feed {
  import opened Options
  import opened Numerals
  import Strtoul

  predicate IsAlnum(c: char) {
    '0' <= c <= '9' || 'a' <= c <= 'z' || 'A' <= c <= 'Z'
  }

  // ---------------------------------------------------------------- trim

  /** `t` is `text` without the non-alphanumeric characters at its ends. */
  ghost predicate IsTrimmed(text: string, t: string) {
    exists i: nat, j: nat :: i <= j <= |text| && Cuts(text, i, j) && t == text[i..j]
  }

  ghost predicate Cuts(text: string, i: nat, j: nat)
    requires i <= j <= |text|
  {
    && (forall k :: 0 <= k < i ==> !IsAlnum(text[k]))
    && (forall k :: j <= k < |text| ==> !IsAlnum(text[k]))
    && (i < j ==> IsAlnum(text[i]) && IsAlnum(text[j - 1]))
  }

  method Trim(text: string) returns (t: string)
    ensures IsTrimmed(text, t)
  {
    var i: nat := 0;
    while i < |text| && !IsAlnum(text[i])
      invariant i <= |text| && forall k :: 0 <= k < i ==> !IsAlnum(text[k])
    {
      i := i + 1;
    }
    var j: nat := |text|;
    while j > i && !IsAlnum(text[j - 1])
      invariant i <= j <= |text| && forall k :: j <= k < |text| ==> !IsAlnum(text[k])
    {
      j := j - 1;
    }
    assert Cuts(text, i, j);
    t := text[i..j];
  }

  /** Trimming has one result. */
  lemma TrimmedUnique(text: string, t: string, u: string)
    requires IsTrimmed(text, t) && IsTrimmed(text, u)
    ensures t == u
  {
    var i: nat, j: nat :| i <= j <= |text| && Cuts(text, i, j) && t == text[i..j];
    var k: nat, l: nat :| k <= l <= |text| && Cuts(text, k, l) && u == text[k..l];
    if i < j {
      assert IsAlnum(text[i]) && IsAlnum(text[j - 1]);
      assert k <= i && j <= l;
      assert IsAlnum(text[k]) && IsAlnum(text[l - 1]);
    }
  }

  ghost function Trimmed(text: string): (t: string)
    ensures IsTrimmed(text, t)
  {
    TrimmedExists(text);
    var t :| IsTrimmed(text, t);
    t
  }

  lemma TrimmedExists(text: string)
    ensures exists t :: IsTrimmed(text, t)
  {
    var i: nat := 0;
    while i < |text| && !IsAlnum(text[i])
      invariant i <= |text| && forall k :: 0 <= k < i ==> !IsAlnum(text[k])
    {
      i := i + 1;
    }
    var j: nat := |text|;
    while j > i && !IsAlnum(text[j - 1])
      invariant i <= j <= |text| && forall k :: j <= k < |text| ==> !IsAlnum(text[k])
    {
      j := j - 1;
    }
    assert Cuts(text, i, j);
    assert IsTrimmed(text, text[i..j]);
  }

  lemma TrimmedIsText(text: string)
    requires forall k :: 0 <= k < |text| ==> IsAlnum(text[k])
    ensures Trimmed(text) == text
  {
    assert Cuts(text, 0, |text|) && text[0..|text|] == text;
    TrimmedUnique(text, Trimmed(text), text);
  }

  // ---------------------------------------------------------------- one number

  datatype Number = Number(value: nat, count: nat)

  /** `std::stoull` on text that begins with a letter or digit: an optional 0x before hexadecimal digits, then
      the longest run of digits.  `None` stands for its two exceptions, no digits and out of range. */
  function Stoull(t: string, base: nat): Option<Number>
    requires 2 <= base <= 36
  {
    var start := if base == 16 && 3 <= |t| && t[0] == '0' && Strtoul.Hex(t[1]) && IsDigit(t[2], 16) then 2 else 0;
    var end := Strtoul.RunEnd(t, start, base);
    if end == start || ValueOf(t[start..end], base) > 0xffff_ffff_ffff_ffff then None
    else Some(Number(ValueOf(t[start..end], base), end))
  }

  lemma DigitsAreTrimmed(t: string, base: nat)
    requires AllDigits(t, base)
    ensures Trimmed(t) == t
  {
    hide Trimmed;
    assert forall k :: 0 <= k < |t| ==> IsDigit(t[k], base);
    TrimmedIsText(t);
  }

  /** A text of digits alone is read to its end. */
  lemma StoullReadsDigits(t: string, base: nat)
    requires 2 <= base <= 36 && t != [] && AllDigits(t, base)
    ensures Stoull(t, base) ==
            if ValueOf(t, base) > 0xffff_ffff_ffff_ffff then None else Some(Number(ValueOf(t, base), |t|))
  {
    assert 2 <= |t| ==> IsDigit(t[1], base);
    hide AllDigits, ValueOf;
    assert t[0..|t|] == t;
    Strtoul.RunExtends(t, 0, |t|, base);
  }

  // ---------------------------------------------------------------- feed

  /** `v & 0xff` */
  function LowByte(v: nat): bv8 {
    (v % 256) as bv8
  }

  function LittleEndianBytes(v: nat): (s: seq<bv8>)
    ensures |s| == 4
  {
    [LowByte(v), LowByte(v / 256), LowByte(v / 256 / 256), LowByte(v / 256 / 256 / 256)]
  }

  /** The 32-bit number a trimmed line consists of; `None` where the program stops with an error. */
  function WordOf(t: string, base: nat): (w: Option<nat>)
    requires 2 <= base <= 36
    ensures w.Some? ==> w.value < TWO_32
  {
    var n := Stoull(t, base);
    if n.None? || n.value.count != |t| || n.value.value >= TWO_32 then None else Some(n.value.value)
  }

  /** Which trimmed lines are accepted, and with which value: digits in the base and nothing else, behind an optional
      0x or 0X in base 16, of a value below 2^32. */
  lemma WordExact(t: string, base: nat)
    requires 2 <= base <= 36
    ensures var k := if base == 16 && |t| >= 3 && t[0] == '0' && (t[1] == 'x' || t[1] == 'X') then 2 else 0;
            && (WordOf(t, base).Some? <==>
                  k < |t| && AllDigits(t[k..], base) && ValueOf(t[k..], base) < 0x1_0000_0000)
            && (WordOf(t, base).Some? ==> AllDigits(t[k..], base) && WordOf(t, base).value == ValueOf(t[k..], base))
  {
    hide ValueOf;
    var k := if base == 16 && |t| >= 3 && t[0] == '0' && (t[1] == 'x' || t[1] == 'X') then 2 else 0;
    if k == 2 && !IsDigit(t[2], 16) {
      assert t[2..][0] == t[2];
      XIsNoDigit();
      assert Strtoul.RunEnd(t, 0, base) <= 1;
    } else {
      RunIsAll(t, k, base);
    }
  }

  lemma XIsNoDigit()
    ensures !IsDigit('x', 16) && !IsDigit('X', 16)
  {}

  /** The longest run of digits is everything exactly if everything is digits. */
  lemma RunIsAll(t: string, k: nat, base: nat)
    requires k <= |t|
    ensures Strtoul.RunEnd(t, k, base) == |t| <==> AllDigits(t[k..], base)
    ensures t[k..|t|] == t[k..]
  {
    assert t[k..|t|] == t[k..];
    if AllDigits(t[k..], base) { Strtoul.RunExtends(t, k, |t|, base); }
  }

  function Join(out: seq<bv8>, rest: Option<seq<bv8>>): Option<seq<bv8>> {
    if rest.None? then None else Some(out + rest.value)
  }

  /** The bytes of a file, or `None` where the program stops with an error: a line that is not entirely a
      number, or a number that needs more than 32 bits. */
  ghost function Bytes(lines: seq<string>, base: nat): Option<seq<bv8>>
    requires 2 <= base <= 36
  {
    if lines == [] then Some([]) else
    var t := Trimmed(lines[0]);
    if t == [] then Bytes(lines[1..], base) else
    var w := WordOf(t, base);
    if w.None? then None else Join(LittleEndianBytes(w.value), Bytes(lines[1..], base))
  }

  lemma BytesStep(line: string, t: string, rest: seq<string>, base: nat)
    requires 2 <= base <= 36 && IsTrimmed(line, t)
    ensures Bytes([line] + rest, base) ==
            if t == [] then Bytes(rest, base)
            else if WordOf(t, base).None? then None
            else Join(LittleEndianBytes(WordOf(t, base).value), Bytes(rest, base))
  {
    hide IsTrimmed, Trimmed, WordOf, LittleEndianBytes, Join;
    TrimmedUnique(line, t, Trimmed(line));
    assert ([line] + rest)[1..] == rest;
  }

  lemma JoinAssoc(x: seq<bv8>, y: seq<bv8>, rest: Option<seq<bv8>>)
    ensures Join(x, Join(y, rest)) == Join(x + y, rest)
    ensures Join(x, None) == None
    ensures Join([], rest) == rest
  {
    if rest.Some? {
      assert x + (y + rest.value) == (x + y) + rest.value;
      assert [] + rest.value == rest.value;
    }
  }

  lemma JoinEnd(x: seq<bv8>, base: nat)
    requires 2 <= base <= 36
    ensures Join(x, Bytes([], base)) == Some(x)
  {
    assert x + [] == x;
  }

  /** Line by line: an empty line adds nothing, a number its four bytes, the lowest first, and anything else is an
      error from which no later line recovers. */
  lemma {:induction false} BytesSnoc(lines: seq<string>, line: string, base: nat)
    requires 2 <= base <= 36
    ensures Bytes(lines + [line], base) ==
            if Bytes(lines, base).None? then None
            else if Trimmed(line) == [] then Bytes(lines, base)
            else if WordOf(Trimmed(line), base).None? then None
            else Some(Bytes(lines, base).value + LittleEndianBytes(WordOf(Trimmed(line), base).value))
  {
    hide Trimmed, WordOf, LittleEndianBytes, Join, Bytes, IsTrimmed;
    BytesOfNone(base);
    if lines == [] {
      assert lines + [line] == [line] + [];
      BytesStep(line, Trimmed(line), [], base);
      if Trimmed(line) != [] && WordOf(Trimmed(line), base).Some? {
        var word := LittleEndianBytes(WordOf(Trimmed(line), base).value);
        JoinEnd(word, base);
        assert [] + word == word;
      }
    } else {
      var first, rest := lines[0], lines[1..];
      assert lines == [first] + rest && lines + [line] == [first] + (rest + [line]);
      BytesSnoc(rest, line, base);
      BytesStep(first, Trimmed(first), rest, base);
      BytesStep(first, Trimmed(first), rest + [line], base);
      if Trimmed(first) != [] && WordOf(Trimmed(first), base).Some? {
        JoinSnoc(LittleEndianBytes(WordOf(Trimmed(first), base).value), Bytes(rest, base), Bytes(rest + [line], base));
      }
    }
  }

  lemma BytesOfNone(base: nat)
    requires 2 <= base <= 36
    ensures Bytes([], base) == Some([])
  {}

  lemma JoinSnoc(x: seq<bv8>, y: Option<seq<bv8>>, z: Option<seq<bv8>>)
    ensures y.None? ==> Join(x, y) == None
    ensures z.None? ==> Join(x, z) == None
    ensures y.Some? ==> Join(x, y) == Some(x + y.value)
    ensures z.Some? ==> Join(x, z) == Some(x + z.value)
    ensures forall w :: y.Some? && z.Some? && z.value == y.value + w ==> Join(x, z).value == Join(x, y).value + w
  {
    if y.Some? && z.Some? {
      forall w | z.value == y.value + w ensures x + z.value == (x + y.value) + w {}
    }
  }

  /** `for i in 0..4 { push(data & 0xff); data >>= 8 }` */
  method PushWord(out: seq<bv8>, value: nat) returns (r: seq<bv8>)
    ensures r == out + LittleEndianBytes(value)
  {
    hide LowByte;
    r := out;
    var data: nat := value;
    for i := 0 to 4
      invariant i == 0 ==> data == value
      invariant i == 1 ==> data == value / 256
      invariant i == 2 ==> data == value / 256 / 256
      invariant i == 3 ==> data == value / 256 / 256 / 256
      invariant r == out + LittleEndianBytes(value)[..i]
    {
      r := r + [LowByte(data)];
      assert LowByte(data) == LittleEndianBytes(value)[i];
      data := data / 256;
    }
    assert LittleEndianBytes(value)[..4] == LittleEndianBytes(value);
  }

  /** `feed`, and with it the program's stop on a bad line. */
  method Read(lines: seq<string>, base: nat) returns (result: Option<seq<bv8>>)
    requires 2 <= base <= 36
    ensures result == Bytes(lines, base)
  {
    hide *;
    var out: seq<bv8> := [];
    var k := 0;
    assert lines[0..] == lines;
    JoinAssoc([], [], Bytes(lines, base));
    while k < |lines|
      invariant 0 <= k <= |lines| && Bytes(lines, base) == Join(out, Bytes(lines[k..], base))
    {
      ghost var rest := lines[k + 1..];
      assert lines[k..] == [lines[k]] + rest;
      var t := Trim(lines[k]);
      BytesStep(lines[k], t, rest, base);
      if t != [] {
        var w := WordOf(t, base);
        if w.None? {
          JoinAssoc(out, [], None);
          return None;
        }
        JoinAssoc(out, LittleEndianBytes(w.value), Bytes(rest, base));
        out := PushWord(out, w.value);
      }
      k := k + 1;
    }
    assert lines[k..] == [];
    JoinEnd(out, base);
    return Some(out);
  }
}
