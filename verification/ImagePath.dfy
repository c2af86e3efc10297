/** From a byte file through its printed lines back into a memory. */
module ImagePath {
  import opened Options
  import opened Numerals
  import opened Words
  import opened Memory
  import opened Convert
  import opened Feed

  // ---------------------------------------------------------------- a byte in digits

  lemma HexByteValue(s: string, b: bv8)
    requires AllDigits(s, 16)
    ensures AllDigits(s + HexByte(b), 16)
    ensures ValueOf(s + HexByte(b), 16) == ValueOf(s, 16) * 256 + NatOf(b)
  {
    var n := NatOf(b);
    var hi, lo := DigitChar(n / 16), DigitChar(n % 16);
    ValueOfSnoc(s, hi, 16);
    ValueOfSnoc(s + [hi], lo, 16);
    assert s + HexByte(b) == s + [hi] + [lo];
  }

  function Bit(b: bv8, mask: bv8): nat { if b & mask != 0 then 1 else 0 }

  lemma BitsMakeByte(b: bv8)
    ensures NatOf(b) == Bit(b, 1) + 2 * Bit(b, 2) + 4 * Bit(b, 4) + 8 * Bit(b, 8)
                      + 16 * Bit(b, 16) + 32 * Bit(b, 32) + 64 * Bit(b, 64) + 128 * Bit(b, 128)
  {}

  /** The value of bits `j - 1` to 0. */
  function LowValue(b: bv8, j: nat): nat
    requires j <= 8
  {
    if j == 0 then 0 else Bit(b, BIT_MASKS[j - 1]) * Pow2(j - 1) + LowValue(b, j - 1)
  }

  lemma BitValue(b: bv8, mask: bv8)
    ensures DigitValue(BitChar(b, mask)) == Some(Bit(b, mask))
  {}

  lemma Distribute(v: nat, bit: nat, p: nat)
    ensures (v * 2 + bit) * p == v * (2 * p) + bit * p
  {}

  lemma LowBitsStep(s: string, b: bv8, j: nat)
    requires AllDigits(s, 2) && 1 <= j <= 8
    ensures var c := BitChar(b, BIT_MASKS[j - 1]);
            && AllDigits(s + [c], 2)
            && ValueOf(s + [c], 2) == ValueOf(s, 2) * 2 + Bit(b, BIT_MASKS[j - 1])
            && s + LowBits(b, j) == s + [c] + LowBits(b, j - 1)
  {
    hide BitChar, Bit, DigitValue, ValueOf, AllDigits;
    BitValue(b, BIT_MASKS[j - 1]);
    ValueOfSnoc(s, BitChar(b, BIT_MASKS[j - 1]), 2);
  }

  lemma {:induction false} LowBitsValue(s: string, b: bv8, j: nat)
    requires AllDigits(s, 2) && j <= 8
    ensures AllDigits(s + LowBits(b, j), 2)
    ensures ValueOf(s + LowBits(b, j), 2) == ValueOf(s, 2) * Pow2(j) + LowValue(b, j)
    decreases j
  {
    hide BitChar, Bit, ValueOf, AllDigits, LowBits, LowValue, Pow2;
    LowBitsUnfold(b, j);
    if j == 0 {
      assert s + [] == s;
    } else {
      var c := BitChar(b, BIT_MASKS[j - 1]);
      LowBitsStep(s, b, j);
      LowBitsValue(s + [c], b, j - 1);
      Distribute(ValueOf(s, 2), Bit(b, BIT_MASKS[j - 1]), Pow2(j - 1));
    }
  }

  lemma LowBitsUnfold(b: bv8, j: nat)
    requires j <= 8
    ensures j == 0 ==> LowBits(b, j) == [] && LowValue(b, j) == 0 && Pow2(j) == 1
    ensures 0 < j ==> LowValue(b, j) == Bit(b, BIT_MASKS[j - 1]) * Pow2(j - 1) + LowValue(b, j - 1)
    ensures 0 < j ==> Pow2(j) == 2 * Pow2(j - 1)
  {}

  lemma LowValueIsByte(b: bv8)
    ensures LowValue(b, 8) == NatOf(b) && Pow2(8) == 256
  {
    hide Bit, NatOf;
    BitsMakeByte(b);
    assert Pow2(1) == 2 && Pow2(2) == 4 && Pow2(3) == 8 && Pow2(4) == 16;
    assert Pow2(5) == 32 && Pow2(6) == 64 && Pow2(7) == 128 && Pow2(8) == 256;
    assert LowValue(b, 1) == Bit(b, 1);
    assert LowValue(b, 2) == 2 * Bit(b, 2) + LowValue(b, 1);
    assert LowValue(b, 3) == 4 * Bit(b, 4) + LowValue(b, 2);
    assert LowValue(b, 4) == 8 * Bit(b, 8) + LowValue(b, 3);
    assert LowValue(b, 5) == 16 * Bit(b, 16) + LowValue(b, 4);
    assert LowValue(b, 6) == 32 * Bit(b, 32) + LowValue(b, 5);
    assert LowValue(b, 7) == 64 * Bit(b, 64) + LowValue(b, 6);
    assert LowValue(b, 8) == 128 * Bit(b, 128) + LowValue(b, 7);
  }

  lemma ByteValue(f: Format, s: string, b: bv8)
    requires AllDigits(s, f.Base())
    ensures AllDigits(s + f.Byte(b), f.Base())
    ensures ValueOf(s + f.Byte(b), f.Base()) == ValueOf(s, f.Base()) * 256 + NatOf(b)
  {
    if f.HexLines? {
      HexByteValue(s, b);
    } else {
      LowBitsValue(s, b, 8);
      LowValueIsByte(b);
    }
  }

  // ---------------------------------------------------------------- a line

  function WordValue(m: seq<bv8>): nat
    requires |m| == 4
  {
    FromBytes(NatOf(m[0]), NatOf(m[1]), NatOf(m[2]), NatOf(m[3]))
  }

  lemma FourBytes(f: Format, m: seq<bv8>)
    requires |m| == 4
    ensures ValueOf(f.Line(m), f.Base()) == WordValue(m)
  {
    hide ValueOf, AllDigits, HexByte, BinaryByte, NatOf;
    var s0, s1, s2 := f.Byte(m[3]), f.Byte(m[3]) + f.Byte(m[2]), f.Byte(m[3]) + f.Byte(m[2]) + f.Byte(m[1]);
    EmptyValue(f.Base());
    ByteValue(f, [], m[3]);
    assert [] + s0 == s0;
    ByteValue(f, s0, m[2]);
    ByteValue(f, s1, m[1]);
    ByteValue(f, s2, m[0]);
  }

  lemma LineValue(f: Format, m: seq<bv8>)
    requires |m| == 4
    ensures ValueOf(f.Line(m), f.Base()) == WordValue(m) < TWO_32
    ensures LittleEndianBytes(WordValue(m)) == m
  {
    hide ValueOf, AllDigits, HexByte, BinaryByte, LittleEndianBytes, NatOf, HasBytes, FromBytes;
    FourBytes(f, m);
    WordBytes(NatOf(m[0]), NatOf(m[1]), NatOf(m[2]), NatOf(m[3]));
    BackToBytes(WordValue(m), m);
  }

  /** The four bytes of a number, the lowest first. */
  ghost predicate HasBytes(v: nat, n0: nat, n1: nat, n2: nat, n3: nat) {
    v % 256 == n0 && v / 256 % 256 == n1 && v / 256 / 256 % 256 == n2 && v / 256 / 256 / 256 % 256 == n3
  }

  function FromBytes(n0: nat, n1: nat, n2: nat, n3: nat): nat {
    ((n3 * 256 + n2) * 256 + n1) * 256 + n0
  }

  lemma WordBytes(n0: nat, n1: nat, n2: nat, n3: nat)
    requires n0 < 256 && n1 < 256 && n2 < 256 && n3 < 256
    ensures FromBytes(n0, n1, n2, n3) < TWO_32 && HasBytes(FromBytes(n0, n1, n2, n3), n0, n1, n2, n3)
  {
    var v := FromBytes(n0, n1, n2, n3);
    assert v / 256 == (n3 * 256 + n2) * 256 + n1;
    assert v / 256 / 256 == n3 * 256 + n2;
    assert v / 256 / 256 / 256 == n3;
  }

  lemma ByteBack(v: nat, b: bv8)
    requires v % 256 == NatOf(b)
    ensures LowByte(v) == b
  {}

  lemma BackToBytes(v: nat, m: seq<bv8>)
    requires |m| == 4 && HasBytes(v, NatOf(m[0]), NatOf(m[1]), NatOf(m[2]), NatOf(m[3]))
    ensures LittleEndianBytes(v) == m
  {
    hide NatOf, LowByte;
    ByteBack(v, m[0]);
    ByteBack(v / 256, m[1]);
    ByteBack(v / 256 / 256, m[2]);
    ByteBack(v / 256 / 256 / 256, m[3]);
  }

  /** A printed line contains digits only, no prefix, and is read as the word it was printed from. */
  lemma LineReads(f: Format, m: seq<bv8>)
    requires |m| == 4
    ensures Trimmed(f.Line(m)) == f.Line(m)
    ensures WordOf(f.Line(m), f.Base()) == Some(WordValue(m))
  {
    hide AllDigits, ValueOf, HexByte, BinaryByte, Trimmed, Stoull, WordValue;
    var t, b := f.Line(m), f.Base();
    LineValue(f, m);
    DigitsAreTrimmed(t, b);
    StoullReadsDigits(t, b);
  }

  // ---------------------------------------------------------------- the whole file

  /** The bytes the lines stand for: the image, then the stale bytes that fill up its last word. */
  function Padded(image: seq<bv8>, buffer: seq<bv8>): seq<bv8>
    requires |buffer| == 4
    decreases |image|
  {
    if |image| < 4 then image + buffer[|image|..] else image[..4] + Padded(image[4..], image[..4])
  }

  /** What is left of the last full word behind an image: the bytes a short read does not replace. */
  function Stale(image: seq<bv8>, buffer: seq<bv8>): (s: seq<bv8>)
    requires |buffer| == 4
    ensures |s| == 4 - |image| % 4
    decreases |image|
  {
    if |image| < 4 then buffer[|image|..] else Stale(image[4..], image[..4])
  }

  lemma {:induction false} PaddedSplits(image: seq<bv8>, buffer: seq<bv8>)
    requires |buffer| == 4
    ensures Padded(image, buffer) == image + Stale(image, buffer)
    decreases |image|
  {
    if 4 <= |image| {
      PaddedSplits(image[4..], image[..4]);
      assert image == image[..4] + image[4..];
    }
  }

  lemma {:induction false} StaleAt(image: seq<bv8>, buffer: seq<bv8>, q: nat, r: nat)
    requires |buffer| == 4 && 1 <= q && r < 4 && |image| == 4 * q + r
    ensures Stale(image, buffer) == image[4 * q + r - 4..4 * q]
    decreases q
  {
    hide Stale;
    StaleStep(image, buffer);
    if q == 1 {
      StaleStart(image[4..], image[..4]);
      assert image[..4][r..] == image[r..4];
    } else {
      StaleAt(image[4..], image[..4], q - 1, r);
      assert image[4..][4 * q + r - 8..4 * q - 4] == image[4 * q + r - 4..4 * q];
    }
  }

  lemma StaleStep(image: seq<bv8>, buffer: seq<bv8>)
    requires |buffer| == 4 && 4 <= |image|
    ensures Stale(image, buffer) == Stale(image[4..], image[..4])
  {}

  lemma StaleBytes(image: seq<bv8>, buffer: seq<bv8>)
    requires |buffer| == 4 && 4 <= |image|
    ensures Stale(image, buffer) == image[|image| - 4..|image| - |image| % 4]
  {
    hide Stale;
    StaleAt(image, buffer, |image| / 4, |image| % 4);
  }

  /** The printed bytes: the image, then, up to a whole word beyond it, what is left in the buffer: the bytes of its
      last full word that a short read does not replace, or of the buffer at the start if there is no full word. */
  lemma PaddedShape(image: seq<bv8>, buffer: seq<bv8>)
    requires |buffer| == 4
    ensures |Padded(image, buffer)| == 4 * (|image| / 4 + 1)
    ensures image <= Padded(image, buffer)
    ensures Padded(image, buffer)[|image|..] ==
            if |image| < 4 then buffer[|image|..] else image[|image| - 4..|image| - |image| % 4]
  {
    hide Padded, Stale;
    PaddedSplits(image, buffer);
    if 4 <= |image| { StaleBytes(image, buffer); } else { StaleStart(image, buffer); }
  }

  lemma StaleStart(image: seq<bv8>, buffer: seq<bv8>)
    requires |buffer| == 4 && |image| < 4
    ensures Stale(image, buffer) == buffer[|image|..]
  {}

  lemma {:induction false} LineCount(f: Format, image: seq<bv8>, buffer: seq<bv8>)
    requires |buffer| == 4
    ensures |Lines(f, image, buffer)| == |image| / 4 + 1
    decreases |image|
  {
    if 4 <= |image| { LineCount(f, image[4..], image[..4]); }
  }

  /** Reading the printed lines in their base gives the padded image back, and never fails. */
  lemma {:induction false} PrintedLinesRead(f: Format, image: seq<bv8>, buffer: seq<bv8>)
    requires |buffer| == 4
    ensures Bytes(Lines(f, image, buffer), f.Base()) == Some(Padded(image, buffer))
    decreases |image|
  {
    hide Trimmed, WordOf, WordValue, LittleEndianBytes, ValueOf, AllDigits, HexByte, BinaryByte;
    var m := if |image| < 4 then image + buffer[|image|..] else image[..4];
    var lines := Lines(f, image, buffer);
    LineReads(f, m);
    LineValue(f, m);
    assert lines[0] == f.Line(m) && f.Line(m) != [];
    if |image| < 4 {
      assert lines[1..] == [];
      assert m + [] == m;
    } else {
      PrintedLinesRead(f, image[4..], image[..4]);
      assert lines[1..] == Lines(f, image[4..], image[..4]);
    }
  }

  /** Where the printed bytes are mapped at `at`, the memory holds the image; at most one word more is written, and
      everything else is as before. */
  lemma ImageArrives(image: seq<bv8>, buffer: seq<bv8>, mem: seq<Word>, was: seq<Word>, at: nat)
    requires |buffer| == 4 && Mapped(mem, was, at, Padded(image, buffer))
    ensures |mem| == |was| && at + |image| <= 4 * |mem|
    ensures forall k: nat :: k < |image| ==> ByteAt(mem, at + k) == image[k]
    ensures forall b: nat :: b < 4 * |was| && (b < at || at + 4 * (|image| / 4 + 1) <= b) ==> ByteAt(mem, b) == ByteAt(was, b)
  {
    hide ByteAt;
    PaddedShape(image, buffer);
    var bytes := Padded(image, buffer);
    forall k: nat | k < |image| ensures ByteAt(mem, at + k) == image[k] {
      assert ByteAt(mem, at + k) == bytes[at + k - at];
    }
  }

  lemma ZeroBytes(words: nat, b: nat)
    requires b < 4 * words
    ensures ByteAt(seq(words, _ => 0), b) == 0
  {}

  // ---------------------------------------------------------------- from the file to a memory that is used and reset

  datatype MaskedStore = MaskedStore(addr: nat, data: Word, mask: Word)

  /** The image lies at the start of the memory, zeros behind its last word. */
  ghost predicate HoldsImage(mem: seq<Word>, image: seq<bv8>) {
    && |image| <= 4 * |mem|
    && (forall k: nat :: k < |image| ==> ByteAt(mem, k) == image[k])
    && (forall b: nat :: 4 * (|image| / 4 + 1) <= b < 4 * |mem| ==> ByteAt(mem, b) == 0)
  }

  lemma HoldsMapped(image: seq<bv8>, buffer: seq<bv8>, mem: seq<Word>, words: nat)
    requires |buffer| == 4 && Mapped(mem, seq(words, _ => 0), 0, Padded(image, buffer))
    ensures HoldsImage(mem, image)
  {
    hide ByteAt, Mapped;
    ImageArrives(image, buffer, mem, seq(words, _ => 0), 0);
    forall k: nat | k < |image| ensures ByteAt(mem, k) == image[k] {
      assert ByteAt(mem, 0 + k) == image[k];
    }
    forall b: nat | 4 * (|image| / 4 + 1) <= b < 4 * |mem| ensures ByteAt(mem, b) == 0 { ZeroBytes(words, b); }
  }

  /** Any stores to a memory, and then a reset. */
  method UseAndReset(m: BlockMemory, stores: seq<MaskedStore>)
    requires m.Valid() && forall i :: 0 <= i < |stores| ==> m.offset <= stores[i].addr < m.offset + m.size
    modifies m`mem
    ensures m.Valid() && m.mem == old(m.saved)
  {
    for i := 0 to |stores|
      invariant m.Valid()
    {
      m.Store(stores[i].addr, stores[i].data, stores[i].mask);
    }
    m.Reset();
  }

  /** The whole way of an image: printed by the converter, read by the test bench, made into a memory, and still
      there when that memory has been stored to and is reset. */
  method Deliver(f: Format, image: seq<bv8>, buffer: array<bv8>, size: nat, stores: seq<MaskedStore>)
      returns (m: BlockMemory)
    requires 4 <= buffer.Length && size % 4 == 0 && 4 * (|image| / 4 + 1) <= size
    requires forall i :: 0 <= i < |stores| ==> stores[i].addr < size
    modifies buffer
    ensures fresh(m) && m.Valid() && m.offset == 0 && m.size == size
    ensures HoldsImage(m.mem, image)
  {
    hide Mapped, HoldsImage, Lines, Padded, Feed.Bytes;
    ghost var before := buffer[..4];
    PrintedLinesRead(f, image, before);
    PaddedShape(image, before);
    var lines := PrintFile(f, image, buffer);
    var bytes := Feed.Read(lines, f.Base());
    m := new BlockMemory.FromImage(size, bytes.value, 0);
    HoldsMapped(image, before, m.mem, size / 4);
    UseAndReset(m, stores);
  }
}
