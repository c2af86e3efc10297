/** The image printer: a byte file becomes lines of eight hexadecimal or 32 binary digits, four bytes a line,
    the byte at the highest address first. */
module Convert {
  import opened Numerals

  function NatOf(b: bv8): (n: nat)
    ensures n < 256
  {
    b as nat
  }

  function HexByte(b: bv8): (s: string)
    ensures |s| == 2 && AllDigits(s, 16)
  {
    var n := NatOf(b);
    [DigitChar(n / 16), DigitChar(n % 16)]
  }

  function BitChar(b: bv8, mask: bv8): (c: char)
    ensures IsDigit(c, 2)
  {
    if b & mask != 0 then '1' else '0'
  }

  const BIT_MASKS: seq<bv8> := [1, 2, 4, 8, 16, 32, 64, 128]

  /** The bits of `b` from bit `j - 1` down to bit 0. */
  function LowBits(b: bv8, j: nat): (s: string)
    requires j <= 8
    ensures |s| == j && AllDigits(s, 2)
  {
    if j == 0 then [] else [BitChar(b, BIT_MASKS[j - 1])] + LowBits(b, j - 1)
  }

  function BinaryByte(b: bv8): (s: string)
    ensures |s| == 8 && AllDigits(s, 2)
  {
    LowBits(b, 8)
  }

  /** The two output formats; both print a word with its most significant byte first. */
  datatype Format = HexLines | BinaryLines {
    function Base(): nat { if HexLines? then 16 else 2 }

    function Byte(b: bv8): (s: string)
      ensures s != [] && AllDigits(s, Base())
    {
      if HexLines? then HexByte(b) else BinaryByte(b)
    }

    function Line(m: seq<bv8>): (s: string)
      requires |m| == 4
      ensures s != [] && AllDigits(s, Base())
    {
      DigitsConcat(Byte(m[3]), Byte(m[2]), Base());
      DigitsConcat(Byte(m[3]) + Byte(m[2]), Byte(m[1]), Base());
      DigitsConcat(Byte(m[3]) + Byte(m[2]) + Byte(m[1]), Byte(m[0]), Base());
      Byte(m[3]) + Byte(m[2]) + Byte(m[1]) + Byte(m[0])
    }
  }

  /** The lines for `image`; `buffer` is what the four-byte buffer held before.  The last line is printed after
      a short read, so it starts with the left-over bytes and ends with stale ones. */
  function Lines(f: Format, image: seq<bv8>, buffer: seq<bv8>): seq<string>
    requires |buffer| == 4
    decreases |image|
  {
    if |image| < 4 then [f.Line(image + buffer[|image|..])]
    else [f.Line(image[..4])] + Lines(f, image[4..], image[..4])
  }

  /** The inner loop of `binary_out`: bits 7 to 0. */
  method BitsOut(b: bv8) returns (out: string)
    ensures out == BinaryByte(b)
  {
    hide BitChar, AllDigits;
    out := "";
    var j := 7;
    assert out + LowBits(b, 8) == BinaryByte(b);
    while j >= 0
      invariant -1 <= j <= 7
      invariant out + LowBits(b, j + 1) == BinaryByte(b)
    {
      ghost var before, low := out, LowBits(b, j);
      var c := BitChar(b, BIT_MASKS[j]);
      out := out + [c];
      assert before + ([c] + low) == out + low;
      j := j - 1;
    }
    assert out + LowBits(b, 0) == out;
  }

  /** The bytes above byte `i`, the highest first. */
  function Above(m: seq<bv8>, i: nat): string
    requires |m| == 4 && i <= 4
    decreases 4 - i
  {
    if i == 4 then [] else Above(m, i + 1) + BinaryByte(m[i])
  }

  lemma AboveAll(m: seq<bv8>)
    requires |m| == 4
    ensures Above(m, 0) == BinaryLines.Line(m)
  {
    hide BinaryByte;
    assert Above(m, 3) == [] + BinaryByte(m[3]) == BinaryByte(m[3]);
    assert Above(m, 2) == Above(m, 3) + BinaryByte(m[2]);
    assert Above(m, 1) == Above(m, 2) + BinaryByte(m[1]);
    assert Above(m, 0) == Above(m, 1) + BinaryByte(m[0]);
  }

  /** `binary_out`: bytes 3 to 0. */
  method BinaryOut(mem: array<bv8>) returns (out: string)
    requires 4 <= mem.Length
    ensures out == BinaryLines.Line(mem[..4])
  {
    hide BinaryByte;
    out := "";
    var i := 3;
    while i >= 0
      invariant -1 <= i <= 3
      invariant out == Above(mem[..4], i + 1)
    {
      var bits := BitsOut(mem[i]);
      out := out + bits;
      i := i - 1;
    }
    AboveAll(mem[..4]);
  }

  method HexOut(mem: array<bv8>) returns (out: string)
    requires 4 <= mem.Length
    ensures out == HexLines.Line(mem[..4])
  {
    out := HexByte(mem[3]) + HexByte(mem[2]) + HexByte(mem[1]) + HexByte(mem[0]);
    assert mem[..4] == [mem[0], mem[1], mem[2], mem[3]];
  }

  /** `fread(mem, 1, 4, in)` at position `pos`: at the end of the file fewer than four bytes are replaced. */
  method ReadFour(image: seq<bv8>, pos: nat, mem: array<bv8>) returns (count: nat)
    requires 4 <= mem.Length && pos <= |image|
    modifies mem
    ensures count == if |image| - pos < 4 then |image| - pos else 4
    ensures mem[..4] == image[pos..pos + count] + old(mem[count..4])
  {
    count := if |image| - pos < 4 then |image| - pos else 4;
    for k := 0 to count
      invariant forall x :: 0 <= x < k ==> mem[x] == image[pos + x]
      invariant forall x :: k <= x < 4 ==> mem[x] == old(mem[x])
    {
      mem[k] := image[pos + k];
    }
  }

  lemma LinesStep(f: Format, rest: seq<bv8>, buffer: seq<bv8>, now: seq<bv8>, count: nat)
    requires |buffer| == 4 && count == (if |rest| < 4 then |rest| else 4)
    requires now == rest[..count] + buffer[count..]
    ensures |now| == 4
    ensures count < 4 ==> Lines(f, rest, buffer) == [f.Line(now)]
    ensures count == 4 ==> Lines(f, rest, buffer) == [f.Line(now)] + Lines(f, rest[4..], now)
  {
    if count < 4 { assert rest[..count] == rest; } else { assert now == rest[..4]; }
  }

  /** One printing loop of `main`: read four bytes, print, stop after the first short read. */
  method PrintFile(f: Format, image: seq<bv8>, mem: array<bv8>) returns (out: seq<string>)
    requires 4 <= mem.Length
    modifies mem
    ensures out == old(Lines(f, image, mem[..4]))
  {
    hide *;
    out := [];
    var pos := 0;
    assert image[0..] == image;
    ghost var all := Lines(f, image, mem[..4]);
    while true
      invariant 0 <= pos <= |image|
      invariant all == out + Lines(f, image[pos..], mem[..4])
      decreases |image| - pos
    {
      ghost var buffer, rest, printed := mem[..4], image[pos..], out;
      var count := ReadFour(image, pos, mem);
      ghost var now := mem[..4];
      assert now == rest[..count] + buffer[count..];
      LinesStep(f, rest, buffer, now, count);
      var line;
      if f.HexLines? {
        line := HexOut(mem);
      } else {
        line := BinaryOut(mem);
      }
      assert line == f.Line(now);
      out := out + [line];
      if count != 4 {
        return;
      }
      assert rest[4..] == image[pos + 4..];
      assert printed + ([line] + Lines(f, rest[4..], now)) == out + Lines(f, rest[4..], now);
      pos := pos + 4;
    }
  }
}
