/** Byte, halfword and word accesses through the data bus act on one little-endian byte array. */
module ByteAccess {
  import opened Words
  import opened Memory
  import opened LoadOps
  import CacheSpec
  import opened CacheTheorems

  // ---------------------------------------------------------------- the reference: an array of bytes

  /** A little-endian number of at most four bytes. */
  function LittleEndian(s: seq<bv8>): Word
    requires |s| <= 4
  {
    if s == [] then 0 else (s[0] as Word) | (LittleEndian(s[1..]) << 8)
  }

  lemma {:induction false} LittleEndianByte(s: seq<bv8>, k: nat)
    requires |s| <= 4 && k < 4
    ensures ByteOf(LittleEndian(s), k) == if k < |s| then s[k] else 0
  {
    if s == [] {
      if k == 0 {} else if k == 1 {} else if k == 2 {} else {}
    } else {
      ConsByte(s[0], LittleEndian(s[1..]), k);
      if 0 < k { LittleEndianByte(s[1..], k - 1); }
    }
  }

  lemma ConsByte(b: bv8, w: Word, k: nat)
    requires k < 4
    ensures ByteOf((b as Word) | (w << 8), k) == if k == 0 then b else ByteOf(w, k - 1)
  {
    if k == 0 {} else if k == 1 {} else if k == 2 {} else {}
  }

  datatype Access = LoadN(addr: nat, width: nat) | StoreN(addr: nat, width: nat, data: Word)

  ghost predicate Aligned(size: nat, a: Access) {
    && (a.width == 1 || a.width == 2 || a.width == 4)
    && a.addr % a.width == 0 && a.addr < size
  }

  ghost predicate AllAligned(size: nat, accesses: seq<Access>) {
    forall i :: 0 <= i < |accesses| ==> Aligned(size, accesses[i])
  }

  lemma AlignedFits(size: nat, a: Access)
    requires Aligned(size, a) && size % 4 == 0
    ensures a.addr + a.width <= size
  {
    if a.width == 1 {} else if a.width == 2 {} else {}
  }

  /** Byte `b` after a store: the lowest `width` bytes of `data` lie at `addr`. */
  function StoredBytes(bytes: seq<bv8>, addr: nat, width: nat, data: Word): (r: seq<bv8>)
    requires addr + width <= |bytes| && width <= 4
    ensures |r| == |bytes|
  {
    seq(|bytes|, b requires 0 <= b < |bytes| => if addr <= b < addr + width then ByteOf(data, b - addr) else bytes[b])
  }

  ghost function ByteRun(bytes: seq<bv8>, accesses: seq<Access>): Outcome<seq<bv8>>
    requires AllAligned(|bytes|, accesses) && |bytes| % 4 == 0
    decreases |accesses|
  {
    if accesses == [] then Outcome(bytes, []) else
    assert Aligned(|bytes|, accesses[0]);
    AlignedFits(|bytes|, accesses[0]);
    match accesses[0]
    case LoadN(addr, width) =>
      var rest := ByteRun(bytes, accesses[1..]);
      rest.(loads := [LittleEndian(bytes[addr..addr + width])] + rest.loads)
    case StoreN(addr, width, data) =>
      ByteRun(StoredBytes(bytes, addr, width, data), accesses[1..])
  }

  // ---------------------------------------------------------------- the same accesses on the bus

  /** `& 0xff`, `& 0xffff` or nothing, as loadb, loadh and loadw do. */
  function Narrow(width: nat, w: Word): Word {
    if width == 1 then w & 0xff else if width == 2 then w & 0xffff else w
  }

  /** What the bus is asked for. */
  function BusOp(a: Access): Op
    requires a.width == 1 || a.width == 2 || a.width == 4
  {
    var op := Parse(a.width, a.addr);
    match a
    case LoadN(addr, width) => Load(addr)
    case StoreN(addr, width, data) => Store(addr, op.Strobe(), op.Place(data))
  }

  ghost function BusOps(size: nat, accesses: seq<Access>): (ops: seq<Op>)
    requires AllAligned(size, accesses) && size % 4 == 0
    ensures |ops| == |accesses|
    ensures forall i :: 0 <= i < |ops| ==> ops[i] == BusOp(accesses[i])
    ensures Legal(size / 4, ops)
  {
    seq(|accesses|, i requires 0 <= i < |accesses| => assert Aligned(size, accesses[i]); BusOp(accesses[i]))
  }

  /** The values the callers get: the loaded words, shifted down and narrowed. */
  ghost function Values(accesses: seq<Access>, loads: seq<Word>): seq<Word>
    decreases |accesses|
  {
    if accesses == [] || loads == [] then []
    else if accesses[0].StoreN? then Values(accesses[1..], loads)
    else
      var a := accesses[0];
      if a.width == 1 || a.width == 2 || a.width == 4 then
        [Narrow(a.width, Parse(a.width, a.addr).Apply(loads[0]))] + Values(accesses[1..], loads[1..])
      else []
  }

  ghost function Bytes(mem: seq<Word>): (s: seq<bv8>)
    ensures |s| == 4 * |mem| && forall b :: 0 <= b < |s| ==> s[b] == ByteAt(mem, b)
  {
    seq(4 * |mem|, b requires 0 <= b < 4 * |mem| => ByteAt(mem, b))
  }

  // ---------------------------------------------------------------- one access

  lemma NarrowLanes(width: nat, w: Word, k: nat)
    requires (width == 1 || width == 2 || width == 4) && k < 4
    ensures ByteOf(Narrow(width, w), k) == if k < width then ByteOf(w, k) else 0
  {
    if k == 0 {} else if k == 1 {} else if k == 2 {} else {}
  }

  lemma LoadGivesBytes(mem: seq<Word>, addr: nat, width: nat)
    requires Aligned(4 * |mem|, LoadN(addr, width))
    ensures addr + width <= 4 * |mem|
    ensures Narrow(width, Parse(width, addr).Apply(mem[addr / 4])) == LittleEndian(Bytes(mem)[addr..addr + width])
  {
    hide ByteOf, LittleEndian, Narrow;
    var op, w := Parse(width, addr), mem[addr / 4];
    AlignedFits(4 * |mem|, LoadN(addr, width));
    ParseIsAligned(width, addr);
    var s := Bytes(mem)[addr..addr + width];
    forall k: nat | k < 4 ensures ByteOf(Narrow(width, op.Apply(w)), k) == ByteOf(LittleEndian(s), k) {
      NarrowLanes(width, op.Apply(w), k);
      LittleEndianByte(s, k);
      if k < width {
        op.ApplyLanes(w, k);
        assert (addr + k) / 4 == addr / 4 && (addr + k) % 4 == addr % 4 + k;
        assert s[k] == ByteAt(mem, addr + k);
      }
    }
    SameBytes(Narrow(width, op.Apply(w)), LittleEndian(s));
  }

  lemma StoreSetsBytes(mem: seq<Word>, addr: nat, width: nat, data: Word)
    requires Aligned(4 * |mem|, StoreN(addr, width, data))
    ensures addr + width <= 4 * |mem|
    ensures var op := Parse(width, addr);
            Bytes(StoreWord(mem, addr / 4, op.Place(data), Mask(op.Strobe()))) == StoredBytes(Bytes(mem), addr, width, data)
  {
    hide ByteOf, Mask, Merge;
    var op := Parse(width, addr);
    AlignedFits(4 * |mem|, StoreN(addr, width, data));
    ParseIsAligned(width, addr);
    var mem' := StoreWord(mem, addr / 4, op.Place(data), Mask(op.Strobe()));
    forall b: nat | b < 4 * |mem|
      ensures ByteAt(mem', b) == if addr <= b < addr + width then ByteOf(data, b - addr) else ByteAt(mem, b)
    {
      if b / 4 == addr / 4 {
        var k := b % 4;
        assert b - addr == k - addr % 4;
        StoreByte(mem[addr / 4], op.Place(data), op.Strobe(), k);
        op.StrobeLanes(k);
        if addr <= b < addr + width { op.PlaceLanes(data, k - addr % 4); }
      }
    }
  }

  // ---------------------------------------------------------------- every sequence of accesses

  lemma {:induction false} FlatActsOnBytes(mem: seq<Word>, accesses: seq<Access>)
    requires AllAligned(4 * |mem|, accesses)
    ensures var run := FlatRun(mem, BusOps(4 * |mem|, accesses));
            && Bytes(run.state) == ByteRun(Bytes(mem), accesses).state
            && Values(accesses, run.loads) == ByteRun(Bytes(mem), accesses).loads
    decreases |accesses|
  {
    hide ByteOf, LittleEndian, Narrow, Mask, Merge, Bytes, StoredBytes, Parse, LoadOp.Place, LoadOp.Apply, LoadOp.Strobe;
    if accesses != [] {
      var ops, a := BusOps(4 * |mem|, accesses), accesses[0];
      assert Aligned(4 * |mem|, a);
      assert ops[1..] == BusOps(4 * |mem|, accesses[1..]);
      match a
      case LoadN(addr, width) =>
        LoadGivesBytes(mem, addr, width);
        FlatActsOnBytes(mem, accesses[1..]);
        assert FlatRun(mem, ops).loads[1..] == FlatRun(mem, ops[1..]).loads;
      case StoreN(addr, width, data) =>
        StoreSetsBytes(mem, addr, width, data);
        var op := Parse(width, addr);
        FlatActsOnBytes(StoreWord(mem, addr / 4, op.Place(data), Mask(op.Strobe())), accesses[1..]);
    }
  }

  /** Aligned byte, halfword and word accesses through the write-back cache behave, for every sequence of
      them, as one little-endian byte array. */
  lemma CacheActsOnBytes(c: CacheSpec.Cache, accesses: seq<Access>)
    requires CacheSpec.Inv(c) && AllAligned(4 * |c.mem|, accesses)
    ensures var run := CacheRun(c, BusOps(4 * |c.mem|, accesses));
            && CacheSpec.Inv(run.state)
            && Bytes(CacheSpec.View(run.state)) == ByteRun(Bytes(CacheSpec.View(c)), accesses).state
            && Values(accesses, run.loads) == ByteRun(Bytes(CacheSpec.View(c)), accesses).loads
  {
    hide CacheSpec.Inv, CacheSpec.View, Bytes, ByteRun;
    CacheRefinesMemory(c, BusOps(4 * |c.mem|, accesses));
    FlatActsOnBytes(CacheSpec.View(c), accesses);
  }
}
