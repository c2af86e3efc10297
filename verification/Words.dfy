/** 32-bit words, byte strobes and the masked merge every store is made of. */
module Words {
  type Word = bv32

  /** `(data & mask) | (value & ~mask)` */
  function Merge(value: Word, data: Word, mask: Word): Word {
    (data & mask) | (value & !mask)
  }

  /** Byte `k` of a word, the least significant first. */
  function ByteOf(w: Word, k: nat): bv8
    requires k < 4
  {
    if k == 0 then (w & 0xff) as bv8
    else if k == 1 then ((w >> 8) & 0xff) as bv8
    else if k == 2 then ((w >> 16) & 0xff) as bv8
    else (w >> 24) as bv8
  }

  const STROBE_TO_MASK: seq<Word> := [
    0x00000000, 0x000000ff, 0x0000ff00, 0x0000ffff,
    0x00ff0000, 0x00ff00ff, 0x00ffff00, 0x00ffffff,
    0xff000000, 0xff0000ff, 0xff00ff00, 0xff00ffff,
    0xffff0000, 0xffff00ff, 0xffffff00, 0xffffffff]

  /** Bit `k` of a 4-bit strobe. */
  predicate Enables(strobe: nat, k: nat)
    requires strobe < 16 && k < 4
  {
    if k == 0 then strobe % 2 == 1
    else if k == 1 then strobe / 2 % 2 == 1
    else if k == 2 then strobe / 4 % 2 == 1
    else strobe / 8 == 1
  }

  function Mask(strobe: nat): Word
    requires strobe < 16
  {
    STROBE_TO_MASK[strobe]
  }

  lemma LowStrobes(strobe: nat, k: nat)
    requires strobe < 8 && k < 4
    ensures ByteOf(Mask(strobe), k) == if Enables(strobe, k) then 0xff else 0
  {}

  lemma HighStrobes(strobe: nat, k: nat)
    requires 8 <= strobe < 16 && k < 4
    ensures ByteOf(Mask(strobe), k) == if Enables(strobe, k) then 0xff else 0
  {
    if k == 0 {} else if k == 1 {} else if k == 2 {} else {}
  }

  /** The table maps every strobe bit to its byte lane: a lane is all ones or all zeros. */
  lemma MaskLanes(strobe: nat, k: nat)
    requires strobe < 16 && k < 4
    ensures ByteOf(Mask(strobe), k) == if Enables(strobe, k) then 0xff else 0
  {
    hide ByteOf, Mask;
    if strobe < 8 { LowStrobes(strobe, k); } else { HighStrobes(strobe, k); }
  }

  lemma MergeByte(value: Word, data: Word, mask: Word, k: nat)
    requires k < 4 && (ByteOf(mask, k) == 0xff || ByteOf(mask, k) == 0)
    ensures ByteOf(Merge(value, data, mask), k) == if ByteOf(mask, k) == 0xff then ByteOf(data, k) else ByteOf(value, k)
  {
    if k == 0 {} else if k == 1 {} else if k == 2 {} else {}
  }

  /** A masked store writes exactly the strobed bytes. */
  lemma StoreByte(value: Word, data: Word, strobe: nat, k: nat)
    requires strobe < 16 && k < 4
    ensures ByteOf(Merge(value, data, Mask(strobe)), k) == if Enables(strobe, k) then ByteOf(data, k) else ByteOf(value, k)
  {
    MaskLanes(strobe, k);
    MergeByte(value, data, Mask(strobe), k);
  }

  lemma SameBytes(x: Word, y: Word)
    requires forall k: nat :: k < 4 ==> ByteOf(x, k) == ByteOf(y, k)
    ensures x == y
  {
    assert ByteOf(x, 0) == ByteOf(y, 0);
    assert ByteOf(x, 1) == ByteOf(y, 1);
    assert ByteOf(x, 2) == ByteOf(y, 2);
    assert ByteOf(x, 3) == ByteOf(y, 3);
  }

  /** A word is its four bytes, the first one lowest. */
  lemma WordIsBytes(w: Word)
    ensures w == (ByteOf(w, 0) as Word) | ((ByteOf(w, 1) as Word) << 8)
               | ((ByteOf(w, 2) as Word) << 16) | ((ByteOf(w, 3) as Word) << 24)
  {}

  lemma XorMaskByte(x: Word, y: Word, mask: Word, k: nat)
    requires k < 4 && (ByteOf(mask, k) == 0xff || ByteOf(mask, k) == 0)
    ensures ByteOf((x ^ y) & mask, k) == 0 <==> ByteOf(mask, k) == 0 || ByteOf(x, k) == ByteOf(y, k)
  {
    if k == 0 {} else if k == 1 {} else if k == 2 {} else {}
  }

  lemma ZeroBytes(k: nat)
    requires k < 4
    ensures ByteOf(0, k) == 0
  {
    if k == 0 {} else if k == 1 {} else if k == 2 {} else {}
  }

  /** `((x ^ y) & mask) == 0` */
  predicate Agree(x: Word, y: Word, mask: Word) {
    (x ^ y) & mask == 0
  }

  /** Two words agree under a byte mask exactly when they agree in every byte it selects. */
  lemma MaskedEqual(x: Word, y: Word, mask: Word)
    requires forall k: nat :: k < 4 ==> ByteOf(mask, k) == 0xff || ByteOf(mask, k) == 0
    ensures Agree(x, y, mask) <==> forall k: nat :: k < 4 && ByteOf(mask, k) == 0xff ==> ByteOf(x, k) == ByteOf(y, k)
  {
    hide ByteOf;
    forall k: nat | k < 4
      ensures ByteOf((x ^ y) & mask, k) == 0 <==> ByteOf(mask, k) == 0 || ByteOf(x, k) == ByteOf(y, k)
      ensures ByteOf(0, k) == 0
    {
      XorMaskByte(x, y, mask, k);
      ZeroBytes(k);
    }
    if forall k: nat :: k < 4 && ByteOf(mask, k) == 0xff ==> ByteOf(x, k) == ByteOf(y, k) {
      forall k: nat | k < 4 ensures ByteOf((x ^ y) & mask, k) == ByteOf(0, k) {}
      SameBytes((x ^ y) & mask, 0);
    }
  }

  /** The same for a mask that selects `width` bytes from byte `lane` on. */
  lemma LanesEqual(x: Word, y: Word, mask: Word, lane: nat, width: nat)
    requires lane + width <= 4
    requires forall k: nat :: k < 4 ==> ByteOf(mask, k) == if lane <= k < lane + width then 0xff else 0
    ensures Agree(x, y, mask) <==> forall k :: lane <= k < lane + width ==> ByteOf(x, k) == ByteOf(y, k)
  {
    hide ByteOf;
    MaskedEqual(x, y, mask);
    forall k: nat | k < 4 && ByteOf(mask, k) == 0xff ensures lane <= k < lane + width {}
    forall k | lane <= k < lane + width ensures k < 4 && ByteOf(mask, k) == 0xff {}
  }

  /** Shifting by whole bytes fills up with zero bytes. */
  lemma ShiftDownFills(w: Word, k: nat)
    requires k < 4
    ensures ByteOf(w >> 8, k) == if k < 3 then ByteOf(w, k + 1) else 0
    ensures ByteOf(w >> 16, k) == if k < 2 then ByteOf(w, k + 2) else 0
    ensures ByteOf(w >> 24, k) == if k < 1 then ByteOf(w, k + 3) else 0
  {
    if k == 0 {} else if k == 1 {} else if k == 2 {} else {}
  }

  lemma ShiftUpFills(w: Word, k: nat)
    requires k < 4
    ensures ByteOf(w << 8, k) == if 1 <= k then ByteOf(w, k - 1) else 0
    ensures ByteOf(w << 16, k) == if 2 <= k then ByteOf(w, k - 2) else 0
    ensures ByteOf(w << 24, k) == if 3 <= k then ByteOf(w, k - 3) else 0
  {
    if k == 0 {} else if k == 1 {} else if k == 2 {} else {}
  }

  lemma ShiftOneLane(w: Word, k: nat)
    requires k < 3
    ensures ByteOf(w >> 8, k) == ByteOf(w, k + 1) && ByteOf(w << 8, k + 1) == ByteOf(w, k)
  {
    if k == 0 {} else if k == 1 {} else {}
  }

  lemma ShiftTwoLanes(w: Word, k: nat)
    requires k < 2
    ensures ByteOf(w >> 16, k) == ByteOf(w, k + 2) && ByteOf(w << 16, k + 2) == ByteOf(w, k)
  {
    if k == 0 {} else {}
  }

  lemma ShiftThreeLanes(w: Word)
    ensures ByteOf(w >> 24, 0) == ByteOf(w, 3) && ByteOf(w << 24, 3) == ByteOf(w, 0)
  {}

  lemma MergeEitherWay(value: Word, data: Word, mask: Word)
    ensures Merge(value, data, mask) == (value & !mask) | (data & mask)
  {}

  lemma FullMask(value: Word, data: Word)
    ensures Merge(value, data, Mask(15)) == data
  {}
}
