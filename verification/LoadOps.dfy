/** Placement of bytes and halfwords on the 32-bit data bus. */
module LoadOps {
  import opened Words

  datatype LoadOp =
    | DISCARD
    | SIZE1_SHT0 | SIZE1_SHT8 | SIZE1_SHT16 | SIZE1_SHT24
    | SIZE2_SHT0 | SIZE2_SHT16
    | SIZE4_SHT0
  {
    function Strobe(): (s: nat)
      ensures s < 16
    {
      match this
      case SIZE4_SHT0 => 15
      case SIZE2_SHT16 => 12
      case SIZE2_SHT0 => 3
      case SIZE1_SHT24 => 8
      case SIZE1_SHT16 => 4
      case SIZE1_SHT8 => 2
      case SIZE1_SHT0 => 1
      case DISCARD => 0
    }

    function LaneMask(): Word {
      match this
      case SIZE4_SHT0 => 0xffffffff
      case SIZE2_SHT16 => 0xffff0000
      case SIZE2_SHT0 => 0x0000ffff
      case SIZE1_SHT24 => 0xff000000
      case SIZE1_SHT16 => 0x00ff0000
      case SIZE1_SHT8 => 0x0000ff00
      case SIZE1_SHT0 => 0x000000ff
      case DISCARD => 0x00000000
    }

    /** Moves a value from the low end to its lanes. */
    function Place(data: Word): Word {
      match this
      case SIZE1_SHT24 => data << 24
      case SIZE2_SHT16 => data << 16
      case SIZE1_SHT16 => data << 16
      case SIZE1_SHT8 => data << 8
      case _ => data
    }

    /** Moves a value from its lanes to the low end. */
    function Apply(data: Word): Word {
      match this
      case SIZE4_SHT0 => data
      case SIZE2_SHT0 => data
      case SIZE1_SHT0 => data
      case SIZE1_SHT24 => data >> 24
      case SIZE2_SHT16 => data >> 16
      case SIZE1_SHT16 => data >> 16
      case SIZE1_SHT8 => data >> 8
      case DISCARD => 0
    }

    /** How many bytes the operation selects, and from which lane on. */
    function Width(): (n: nat)
      ensures n <= 4
    {
      match this
      case SIZE4_SHT0 => 4
      case SIZE2_SHT16 => 2
      case SIZE2_SHT0 => 2
      case DISCARD => 0
      case _ => 1
    }

    function Lane(): (k: nat)
      ensures k + Width() <= 4
    {
      match this
      case SIZE1_SHT24 => 3
      case SIZE2_SHT16 => 2
      case SIZE1_SHT16 => 2
      case SIZE1_SHT8 => 1
      case _ => 0
    }

    lemma MaskIsStrobe()
      ensures LaneMask() == Mask(Strobe())
    {}

    lemma StrobeLanes(k: nat)
      requires k < 4
      ensures Enables(Strobe(), k) <==> Lane() <= k < Lane() + Width()
    {}

    lemma LaneMaskBytes(k: nat)
      requires k < 4
      ensures ByteOf(LaneMask(), k) == if Lane() <= k < Lane() + Width() then 0xff else 0
    {
      hide ByteOf, Mask, Enables, Lane, Width, Strobe, LaneMask;
      MaskIsStrobe();
      MaskLanes(Strobe(), k);
      StrobeLanes(k);
    }

    lemma LanesDecide(x: Word, y: Word)
      ensures Agree(x, y, LaneMask()) <==> forall k :: Lane() <= k < Lane() + Width() ==> ByteOf(x, k) == ByteOf(y, k)
    {
      hide ByteOf, Lane, Width, LaneMask, Agree;
      forall k: nat | k < 4
        ensures ByteOf(LaneMask(), k) == if Lane() <= k < Lane() + Width() then 0xff else 0
      {
        LaneMaskBytes(k);
      }
      LanesEqual(x, y, LaneMask(), Lane(), Width());
    }

    /** Above the topmost lane `apply` leaves zeros, and for a discarded load nothing at all. */
    lemma ApplyFills(data: Word, k: nat)
      requires k < 4
      ensures !DISCARD? ==> ByteOf(Apply(data), k) == if Lane() + k < 4 then ByteOf(data, Lane() + k) else 0
      ensures DISCARD? ==> Apply(data) == 0
    {
      hide ByteOf;
      ShiftDownFills(data, k);
    }

    /** Below the lowest lane `place` leaves zeros. */
    lemma PlaceFills(data: Word, k: nat)
      requires k < 4
      ensures ByteOf(Place(data), k) == if Lane() <= k then ByteOf(data, k - Lane()) else 0
    {
      hide ByteOf;
      ShiftUpFills(data, k);
    }

    lemma ApplyLanes(data: Word, k: nat)
      requires k < Width()
      ensures ByteOf(Apply(data), k) == ByteOf(data, Lane() + k)
    {
      hide ByteOf;
      if Lane() == 1 { ShiftOneLane(data, k); }
      else if Lane() == 2 { ShiftTwoLanes(data, k); }
      else if Lane() == 3 { ShiftThreeLanes(data); }
    }

    lemma PlaceLanes(data: Word, k: nat)
      requires k < Width()
      ensures ByteOf(Place(data), Lane() + k) == ByteOf(data, k)
    {
      hide ByteOf;
      if Lane() == 1 { ShiftOneLane(data, k); }
      else if Lane() == 2 { ShiftTwoLanes(data, k); }
      else if Lane() == 3 { ShiftThreeLanes(data); }
    }
  }

  /** The operation for an access of 1, 2 or 4 bytes, from the last two address bits. */
  function Parse(width: nat, addr: nat): LoadOp
    requires width == 1 || width == 2 || width == 4
  {
    if width == 4 then SIZE4_SHT0
    else if width == 2 then if addr % 4 < 2 then SIZE2_SHT0 else SIZE2_SHT16
    else if addr % 4 == 0 then SIZE1_SHT0
    else if addr % 4 == 1 then SIZE1_SHT8
    else if addr % 4 == 2 then SIZE1_SHT16
    else SIZE1_SHT24
  }

  lemma ParseIsAligned(width: nat, addr: nat)
    requires width == 1 || width == 2 || width == 4
    ensures Parse(width, addr).Width() == width
    ensures addr % width == 0 ==> Parse(width, addr).Lane() == addr % 4 && addr % 4 + width <= 4
    ensures Parse(width, addr).Lane() == addr % 4 / width * width
  {}

  /** The lowest `n` bytes of `value`, written through a pointer of that width. */
  method StoreLow(value: Word, n: nat, dest: array<bv8>, at: nat)
    requires n <= 4 && at + n <= dest.Length
    modifies dest
    ensures forall k :: 0 <= k < n ==> dest[at + k] == ByteOf(value, k)
    ensures forall i :: 0 <= i < dest.Length && !(at <= i < at + n) ==> dest[i] == old(dest[i])
  {
    hide ByteOf;
    for j := 0 to n
      invariant forall k :: 0 <= k < j ==> dest[at + k] == ByteOf(value, k)
      invariant forall i :: 0 <= i < dest.Length && !(at <= i < at + j) ==> dest[i] == old(dest[i])
    {
      dest[at + j] := ByteOf(value, j);
    }
  }

  /** `apply(data, dest)`: the cases fall through, so a 4-byte write is followed by a 2-byte and a 1-byte
      write of the same value.  Exactly the selected bytes end up in `dest`. */
  method ApplyTo(op: LoadOp, data: Word, dest: array<bv8>, at: nat)
    requires at + op.Width() <= dest.Length
    modifies dest
    ensures dest[..] == old(dest[..at]) + Selected(op, data) + old(dest[at + op.Width()..])
  {
    hide ByteOf, LoadOp.Apply, LoadOp.Lane, Selected;
    SelectedAt(op, data);
    var value := op.Apply(data);
    if op.SIZE4_SHT0? {
      StoreLow(value, 4, dest, at);
    }
    if op.SIZE4_SHT0? || op.SIZE2_SHT16? || op.SIZE2_SHT0? {
      StoreLow(value, 2, dest, at);
    }
    if !op.DISCARD? {
      StoreLow(value, 1, dest, at);
    }
    assert dest[at..at + op.Width()] == Selected(op, data);
  }

  /** The selected bytes are the lowest ones of the applied word. */
  lemma SelectedAt(op: LoadOp, data: Word)
    ensures forall k :: 0 <= k < op.Width() ==> Selected(op, data)[k] == ByteOf(op.Apply(data), k)
  {
    hide ByteOf, LoadOp.Apply, LoadOp.Width, LoadOp.Lane;
    forall k | 0 <= k < op.Width() ensures Selected(op, data)[k] == ByteOf(op.Apply(data), k) {
      op.ApplyLanes(data, k);
    }
  }

  /** The bytes of `data` in the operation's lanes. */
  function Selected(op: LoadOp, data: Word): (s: seq<bv8>)
    ensures |s| == op.Width()
  {
    seq(op.Width(), k requires 0 <= k < op.Width() => ByteOf(data, op.Lane() + k))
  }
}
