/** The write-through model of the same interface: one line of 16 words, refetched on every access. */
module LineBuffer {
  import opened Words
  import opened Memory
  import opened CacheTheorems

  datatype Buffered = Buffered(buffer: seq<Word>, mem: seq<Word>)

  /** The memory line that holds `addr`. */
  function LineOf(mem: seq<Word>, addr: nat): (r: seq<Word>)
    requires |mem| % 16 == 0 && addr < 4 * |mem|
    ensures |r| == 16
  {
    WholeLine(addr, |mem|);
    mem[addr / 64 * 16..addr / 64 * 16 + 16]
  }

  lemma WholeLine(addr: nat, words: nat)
    requires words % 16 == 0 && addr < 4 * words
    ensures addr / 64 * 16 + 16 <= words
  {
    assert words == 16 * (words / 16);
  }

  function Fetch(b: Buffered, addr: nat): Buffered
    requires |b.mem| % 16 == 0 && addr < 4 * |b.mem|
  {
    b.(buffer := LineOf(b.mem, addr))
  }

  function Slot(addr: nat): (s: nat)
    ensures s < 16
  {
    addr % 64 / 4
  }

  function BufferLoad(b: Buffered, addr: nat): (r: (Buffered, Word))
    requires |b.mem| % 16 == 0 && addr < 4 * |b.mem|
  {
    var f := Fetch(b, addr);
    (f, f.buffer[Slot(addr)])
  }

  /** The buffered word and the memory word are merged separately, as the code does. */
  function BufferStore(b: Buffered, addr: nat, strobe: nat, data: Word): Buffered
    requires |b.mem| % 16 == 0 && addr < 4 * |b.mem| && strobe < 16
  {
    var f := Fetch(b, addr);
    Buffered(f.buffer[Slot(addr) := Merge(f.buffer[Slot(addr)], data, Mask(strobe))],
             StoreWord(f.mem, addr / 4, data, Mask(strobe)))
  }

  lemma SlotIsWord(addr: nat)
    ensures addr / 4 == addr / 64 * 16 + Slot(addr)
  {
    assert addr == 64 * (addr / 64) + addr % 64;
  }

  /** After an operation the buffer is the memory line of the address just used. */
  lemma BufferIsMemoryLine(b: Buffered, addr: nat, strobe: nat, data: Word)
    requires |b.mem| % 16 == 0 && addr < 4 * |b.mem| && strobe < 16
    ensures BufferLoad(b, addr).0.buffer == LineOf(b.mem, addr) && BufferLoad(b, addr).1 == b.mem[addr / 4]
    ensures BufferStore(b, addr, strobe, data).buffer == LineOf(BufferStore(b, addr, strobe, data).mem, addr)
  {
    hide Merge;
    SlotIsWord(addr);
  }

  function BufferRun(b: Buffered, ops: seq<Op>): Outcome<Buffered>
    requires |b.mem| % 16 == 0 && Legal(|b.mem|, ops)
    decreases |ops|
  {
    if ops == [] then Outcome(b, []) else
    match ops[0]
    case Load(addr) =>
      var rest := BufferRun(BufferLoad(b, addr).0, ops[1..]);
      rest.(loads := [BufferLoad(b, addr).1] + rest.loads)
    case Store(addr, strobe, data) =>
      BufferRun(BufferStore(b, addr, strobe, data), ops[1..])
  }

  lemma {:induction false} BufferRefinesMemory(b: Buffered, ops: seq<Op>)
    requires |b.mem| % 16 == 0 && Legal(|b.mem|, ops)
    ensures BufferRun(b, ops).loads == FlatRun(b.mem, ops).loads
    ensures BufferRun(b, ops).state.mem == FlatRun(b.mem, ops).state
    ensures ops != [] ==> BufferRun(b, ops).state.buffer == LineOf(FlatRun(b.mem, ops).state, ops[|ops| - 1].addr)
    decreases |ops|
  {
    hide Merge;
    if ops != [] {
      var addr := ops[0].addr;
      BufferIsMemoryLine(b, addr, if ops[0].Store? then ops[0].strobe else 0, if ops[0].Store? then ops[0].data else 0);
      var next := if ops[0].Store? then BufferStore(b, addr, ops[0].strobe, ops[0].data) else BufferLoad(b, addr).0;
      BufferRefinesMemory(next, ops[1..]);
      if |ops| > 1 { assert ops[1..][|ops| - 2] == ops[|ops| - 1]; }
    }
  }

  class BufferRefModel {
    const buffer: array<Word>
    const mem: BlockMemory

    ghost predicate Valid()
      reads mem
    {
      buffer.Length == 16 && mem.Valid() && mem.offset == 0 && mem.size % 64 == 0
    }

    ghost function Contents(): Buffered
      reads buffer, mem
    {
      Buffered(buffer[..], mem.mem)
    }

    constructor (memory: BlockMemory)
      requires memory.Valid() && memory.offset == 0 && memory.size % 64 == 0
      ensures Valid() && mem == memory && fresh(buffer)
    {
      mem := memory;
      buffer := new Word[16];
    }

    /** Only the memory is restored; the buffer keeps its words until the next fetch. */
    method Reset()
      requires Valid()
      modifies mem`mem
      ensures Valid() && mem.mem == mem.saved
    {
      mem.Reset();
    }

    method FetchLine(addr: nat)
      requires Valid() && addr < 4 * |mem.mem|
      modifies buffer
      ensures Contents() == old(Fetch(Contents(), addr))
    {
      var start := addr / 64 * 64;
      ghost var b := addr / 64 * 16;
      WholeLine(addr, |mem.mem|);
      for i := 0 to 16
        invariant forall k :: 0 <= k < i ==> buffer[k] == mem.mem[b + k]
      {
        assert start + 4 * i == 4 * (b + i);
        WordIndex(b + i);
        var value := mem.Load(start + 4 * i);
        buffer[i] := value;
      }
      assert buffer[..] == LineOf(mem.mem, addr);
    }

    method Load(addr: nat) returns (value: Word)
      requires Valid() && addr < 4 * |mem.mem|
      modifies buffer
      ensures (Contents(), value) == old(BufferLoad(Contents(), addr))
    {
      FetchLine(addr);
      value := buffer[addr % 64 / 4];
    }

    method Store(addr: nat, strobe: nat, data: Word)
      requires Valid() && addr < 4 * |mem.mem| && strobe < 16
      modifies buffer, mem`mem
      ensures Valid() && Contents() == old(BufferStore(Contents(), addr, strobe, data))
    {
      hide Merge;
      FetchLine(addr);
      var mask := STROBE_TO_MASK[strobe];
      var slot := addr % 64 / 4;
      buffer[slot] := Merge(buffer[slot], data, mask);
      mem.Store(addr, data, mask);
    }
  }
}
