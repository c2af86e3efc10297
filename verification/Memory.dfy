/** The flat word memory behind every model: masked word stores, byte-wise mapping, restore on reset. */
module Memory {
  import opened Words

  /** One masked store to word `i`. */
  function StoreWord(mem: seq<Word>, i: nat, data: Word, mask: Word): (r: seq<Word>)
    requires i < |mem|
    ensures |r| == |mem|
  {
    mem[i := Merge(mem[i], data, mask)]
  }

  /** The word at a word-aligned byte address. */
  lemma WordIndex(w: nat)
    ensures 4 * w / 4 == w
  {}

  /** Byte `b` of the memory, words little-endian. */
  function ByteAt(mem: seq<Word>, b: nat): bv8
    requires b < 4 * |mem|
  {
    ByteOf(mem[b / 4], b % 4)
  }

  /** The bytes of `image` lie at `at`, all other bytes are those of `old`. */
  ghost predicate Mapped(mem: seq<Word>, was: seq<Word>, at: nat, image: seq<bv8>) {
    && |mem| == |was| && at + |image| <= 4 * |was|
    && forall b: nat :: b < 4 * |was| ==>
         ByteAt(mem, b) == if at <= b < at + |image| then image[b - at] else ByteAt(was, b)
  }

  /** The byte view determines the words. */
  lemma SameBytesSameWords(x: seq<Word>, y: seq<Word>)
    requires |x| == |y| && forall b: nat :: b < 4 * |x| ==> ByteAt(x, b) == ByteAt(y, b)
    ensures x == y
  {
    forall i | 0 <= i < |x| ensures x[i] == y[i] {
      forall k: nat | k < 4 ensures ByteOf(x[i], k) == ByteOf(y[i], k) {
        assert ByteAt(x, 4 * i + k) == ByteAt(y, 4 * i + k);
      }
      SameBytes(x[i], y[i]);
    }
  }

  /** Lane `k` replaced: `(value & ~(0xff << 8k)) | (byte << 8k)`. */
  function PutByte(value: Word, k: nat, byte: bv8): Word
    requires k < 4
  {
    if k == 0 then (value & !(0xff as Word)) | (byte as Word)
    else if k == 1 then (value & !((0xff as Word) << 8)) | ((byte as Word) << 8)
    else if k == 2 then (value & !((0xff as Word) << 16)) | ((byte as Word) << 16)
    else (value & !((0xff as Word) << 24)) | ((byte as Word) << 24)
  }

  lemma PutByteLanes(value: Word, k: nat, byte: bv8, j: nat)
    requires k < 4 && j < 4
    ensures ByteOf(PutByte(value, k, byte), j) == if j == k then byte else ByteOf(value, j)
  {
    if k == 0 {} else if k == 1 {} else if k == 2 {} else {}
    if j == 0 {} else if j == 1 {} else if j == 2 {} else {}
  }

  lemma MapStep(mem: seq<Word>, was: seq<Word>, at: nat, image: seq<bv8>, n: nat)
    requires n < |image| && Mapped(mem, was, at, image[..n]) && at + |image| <= 4 * |was|
    ensures var i := (at + n) / 4;
            Mapped(mem[i := PutByte(mem[i], (at + n) % 4, image[n])], was, at, image[..n + 1])
  {
    var i, k := (at + n) / 4, (at + n) % 4;
    var mem' := mem[i := PutByte(mem[i], k, image[n])];
    forall b: nat | b < 4 * |was|
      ensures ByteAt(mem', b) == if at <= b < at + n + 1 then image[..n + 1][b - at] else ByteAt(was, b)
    {
      hide PutByte, ByteOf;
      assert ByteAt(mem, b) == if at <= b < at + n then image[..n][b - at] else ByteAt(was, b);
      if b / 4 == i {
        PutByteLanes(mem[i], k, image[n], b % 4);
        assert b % 4 == k <==> b == at + n;
      }
    }
  }

  class BlockMemory {
    const size: nat
    const offset: nat
    var mem: seq<Word>
    var saved: seq<Word>

    ghost predicate Valid()
      reads this
    {
      size % 4 == 0 && |mem| == size / 4 && |saved| == size / 4
    }

    constructor (size: nat, offset: nat)
      requires size % 4 == 0
      ensures Valid() && this.size == size && this.offset == offset
      ensures saved == mem == seq(size / 4, _ => 0)
    {
      this.size, this.offset := size, offset;
      mem := seq(size / 4, _ => 0);
      saved := seq(size / 4, _ => 0);
    }

    /** The memory starts as a byte image, and so it does again after every reset. */
    constructor FromImage(size: nat, image: seq<bv8>, offset: nat)
      requires size % 4 == 0 && |image| <= size
      ensures Valid() && this.size == size && this.offset == offset
      ensures saved == mem && Mapped(mem, seq(size / 4, _ => 0), 0, image)
    {
      this.size, this.offset := size, offset;
      mem := seq(size / 4, _ => 0);
      saved := seq(size / 4, _ => 0);
      new;
      Map(offset, image);
      saved := mem;
    }

    method Reset()
      requires Valid()
      modifies this`mem
      ensures Valid() && mem == saved
    {
      mem := saved;
    }

    method Load(addr: nat) returns (value: Word)
      requires Valid() && offset <= addr < offset + size
      ensures value == mem[(addr - offset) / 4]
    {
      value := mem[(addr - offset) / 4];
    }

    method Store(addr: nat, data: Word, mask: Word)
      requires Valid() && offset <= addr < offset + size
      modifies this`mem
      ensures Valid() && mem == StoreWord(old(mem), (addr - offset) / 4, data, mask)
      ensures forall i :: 0 <= i < |mem| ==>
                mem[i] == if i == (addr - offset) / 4 then Merge(old(mem[i]), data, mask) else old(mem[i])
    {
      var index := (addr - offset) / 4;
      var value := mem[index];
      MergeEitherWay(value, data, mask);
      mem := mem[index := (value & !mask) | (data & mask)];
    }

    method Map(addr: nat, image: seq<bv8>)
      requires Valid() && offset <= addr && addr - offset + |image| <= size
      modifies this`mem
      ensures Valid() && Mapped(mem, old(mem), addr - offset, image)
    {
      var at := addr - offset;
      var i := 0;
      while i < |image|
        invariant i <= |image| && Valid()
        invariant Mapped(mem, old(mem), at, image[..i])
      {
        MapStep(mem, old(mem), at, image, i);
        var index := (at + i) / 4;
        mem := mem[index := PutByte(mem[index], (at + i) % 4, image[i])];
        i := i + 1;
      }
      assert image[..i] == image;
    }
  }
}
