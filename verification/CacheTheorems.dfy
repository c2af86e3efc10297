/** Load and store of the write-back cache, and what every trace of them means. */
module CacheTheorems {
  import opened Words
  import opened Memory
  import opened CacheSpec

  ghost predicate InRange(mem: seq<Word>, addr: nat) {
    addr < 4 * |mem|
  }

  lemma LineInRange(c: Cache, addr: nat)
    requires Inv(c) && InRange(c.mem, addr)
    ensures LineStart(Tag(addr), Index(addr)) + 4 <= |c.mem|
    ensures addr / 4 < |c.mem|
    ensures var w := addr / 4; w / 16 == Tag(addr) && w / 4 % 4 == Index(addr) && w % 4 == Offset(addr)
  {
    AddressSplits(addr);
    LineWordSplits(Tag(addr), Index(addr), Offset(addr));
  }

  ghost function Touched(c: Cache, addr: nat): (d: Cache)
    requires Inv(c) && InRange(c.mem, addr)
    ensures Inv(d) && |d.mem| == |c.mem| && Hits(d.sets[Index(addr)], Tag(addr), 3)
    ensures |d.sets[Index(addr)][3].data| == 4
  {
    LineInRange(c, addr);
    AccessKeepsInv(c, Tag(addr), Index(addr));
    SetLines(Access(c, Tag(addr), Index(addr)), Index(addr));
    Access(c, Tag(addr), Index(addr))
  }

  ghost function Loaded(c: Cache, addr: nat): Word
    requires Inv(c) && InRange(c.mem, addr)
  {
    Touched(c, addr).sets[Index(addr)][3].data[Offset(addr)]
  }

  ghost function Stored(c: Cache, addr: nat, strobe: nat, data: Word): Cache
    requires Inv(c) && InRange(c.mem, addr) && strobe < 16
  {
    PatchYoungest(Touched(c, addr), Index(addr), Offset(addr), data, Mask(strobe))
  }

  // ---------------------------------------------------------------- one load, one store

  /** A load returns the addressed word of the memory the cache stands for, which it does not change. */
  lemma LoadReadsView(c: Cache, addr: nat)
    requires Inv(c) && InRange(c.mem, addr)
    ensures addr / 4 < |View(c)|
    ensures Loaded(c, addr) == View(c)[addr / 4]
    ensures View(Touched(c, addr)) == View(c)
  {
    LineInRange(c, addr);
    AccessKeepsView(c, Tag(addr), Index(addr));
    hide Access, Inv;
    LookupHit(Touched(c, addr), addr / 4, 3);
  }

  lemma PatchKeepsInv(c: Cache, index: nat, offset: nat, data: Word, mask: Word)
    requires Inv(c) && index < 4 && offset < 4 && |c.sets[index]| == 4 && |c.sets[index][3].data| == 4
    requires c.sets[index][3].valid
    ensures Inv(PatchYoungest(c, index, offset, data, mask))
  {
    var d := PatchYoungest(c, index, offset, data, mask);
    SetLines(c, index);
    forall i | 0 <= i < 4 ensures LineOk(d.sets[index][i], index, c.mem) {
      assert LineOk(c.sets[index][i], index, c.mem);
    }
    assert SetOk(d.sets[index], index, c.mem);
    forall s | 0 <= s < 4 ensures SetOk(d.sets[s], s, d.mem) {
      if s != index { SetLines(c, s); }
    }
  }

  lemma PatchMovesNoTag(c: Cache, index: nat, offset: nat, data: Word, mask: Word, s: nat, tag: nat, i: nat)
    requires index < |c.sets| && |c.sets[index]| == 4 && |c.sets[index][3].data| == 4 && offset < 4 && s < |c.sets|
    ensures Hits(PatchYoungest(c, index, offset, data, mask).sets[s], tag, i) <==> Hits(c.sets[s], tag, i)
  {}

  ghost predicate Patchable(c: Cache, index: nat) {
    index < 4 && index < |c.sets| && |c.sets[index]| == 4 && |c.sets[index][3].data| == 4 && c.sets[index][3].valid
  }

  lemma PatchOtherLine(c: Cache, index: nat, offset: nat, data: Word, mask: Word, w: nat)
    requires Inv(c) && Patchable(c, index) && offset < 4 && w < |c.mem|
    requires Inv(PatchYoungest(c, index, offset, data, mask))
    requires w / 4 % 4 != index || w / 16 != c.sets[index][3].tag
    ensures Lookup(PatchYoungest(c, index, offset, data, mask), w) == Lookup(c, w)
  {
    var d, s := PatchYoungest(c, index, offset, data, mask), w / 4 % 4;
    SetLines(c, s);
    var way := FindWay(c.sets[s], w / 16, 0);
    hide Lookup, Inv, Merge, LineOk, SetOk, FindWay;
    if way.Some? {
      PatchMovesNoTag(c, index, offset, data, mask, s, w / 16, way.value);
      LookupHit(c, w, way.value);
      LookupHit(d, w, way.value);
    } else {
      LookupMiss(c, w);
      forall i | 0 <= i < 4 ensures !Hits(d.sets[s], w / 16, i) {
        PatchMovesNoTag(c, index, offset, data, mask, s, w / 16, i);
      }
      LookupMiss(d, w);
    }
  }

  /** A word of the patched line: merged if it is the addressed one. */
  lemma PatchSameLine(c: Cache, index: nat, offset: nat, data: Word, mask: Word, w: nat)
    requires Inv(c) && Patchable(c, index) && offset < 4 && w < |c.mem|
    requires Inv(PatchYoungest(c, index, offset, data, mask))
    requires w / 4 % 4 == index && w / 16 == c.sets[index][3].tag
    ensures var d := PatchYoungest(c, index, offset, data, mask);
            Lookup(d, w) == if w % 4 == offset then Merge(Lookup(c, w), data, mask) else Lookup(c, w)
  {
    hide Lookup, Inv, Merge, FindWay;
    LookupHit(c, w, 3);
    LookupHit(PatchYoungest(c, index, offset, data, mask), w, 3);
  }

  lemma IsWord(w: nat, tag: nat, index: nat, offset: nat)
    requires index < 4 && offset < 4
    ensures w == LineStart(tag, index) + offset <==> w / 4 % 4 == index && w / 16 == tag && w % 4 == offset
  {
    hide LineStart;
    WordSplits(w);
    LineWordSplits(tag, index, offset);
  }

  /** Patching the youngest line changes one word of the view. */
  lemma PatchAt(c: Cache, index: nat, offset: nat, data: Word, mask: Word, w: nat)
    requires Inv(c) && Patchable(c, index) && offset < 4 && w < |c.mem|
    requires Inv(PatchYoungest(c, index, offset, data, mask))
    ensures var d := PatchYoungest(c, index, offset, data, mask);
            Lookup(d, w) == if w == LineStart(c.sets[index][3].tag, index) + offset
                            then Merge(Lookup(c, w), data, mask) else Lookup(c, w)
  {
    hide Lookup, Inv, Merge, LineStart, PatchYoungest;
    IsWord(w, c.sets[index][3].tag, index, offset);
    if w / 4 % 4 == index && w / 16 == c.sets[index][3].tag {
      PatchSameLine(c, index, offset, data, mask, w);
    } else {
      PatchOtherLine(c, index, offset, data, mask, w);
    }
  }

  /** A store merges its data, under its strobe, into the addressed word and into no other. */
  lemma StoreWritesView(c: Cache, addr: nat, strobe: nat, data: Word)
    requires Inv(c) && InRange(c.mem, addr) && strobe < 16
    ensures Inv(Stored(c, addr, strobe, data)) && addr / 4 < |View(c)|
    ensures View(Stored(c, addr, strobe, data)) == StoreWord(View(c), addr / 4, data, Mask(strobe))
  {
    hide Access, Inv, Merge, SetOk, LineOk, Mask;
    LineInRange(c, addr);
    AddressSplits(addr);
    LoadReadsView(c, addr);
    var t, d := Touched(c, addr), Stored(c, addr, strobe, data);
    SetLines(t, Index(addr));
    PatchKeepsInv(t, Index(addr), Offset(addr), data, Mask(strobe));
    forall w: nat | w < |c.mem| ensures View(d)[w] == StoreWord(View(c), addr / 4, data, Mask(strobe))[w] {
      PatchAt(t, Index(addr), Offset(addr), data, Mask(strobe), w);
      assert View(t)[w] == Lookup(t, w);
    }
  }

  /** The flag of the addressed line: set by a store, kept by a load that hits, clear after a load that misses. */
  lemma DirtyMeansStored(c: Cache, addr: nat, strobe: nat, data: Word)
    requires Inv(c) && InRange(c.mem, addr) && strobe < 16
    ensures Stored(c, addr, strobe, data).sets[Index(addr)][3].dirty
    ensures var way := FindWay(c.sets[Index(addr)], Tag(addr), 0);
            Touched(c, addr).sets[Index(addr)][3].dirty <==> way.Some? && c.sets[Index(addr)][way.value].dirty
  {
    LineInRange(c, addr);
    hide Inv, Access;
    AccessDirtiesNothing(c, Tag(addr), Index(addr));
  }

  // ---------------------------------------------------------------- traces

  datatype Op = Load(addr: nat) | Store(addr: nat, strobe: nat, data: Word)

  ghost predicate Legal(words: nat, ops: seq<Op>) {
    forall i :: 0 <= i < |ops| ==> ops[i].addr < 4 * words && (ops[i].Store? ==> ops[i].strobe < 16)
  }

  /** The words the loads of a trace return, and the memory it leaves. */
  datatype Outcome<S> = Outcome(state: S, loads: seq<Word>)

  function FlatRun(mem: seq<Word>, ops: seq<Op>): (r: Outcome<seq<Word>>)
    requires Legal(|mem|, ops)
    ensures |r.state| == |mem|
    decreases |ops|
  {
    if ops == [] then Outcome(mem, []) else
    match ops[0]
    case Load(addr) =>
      var rest := FlatRun(mem, ops[1..]);
      rest.(loads := [mem[addr / 4]] + rest.loads)
    case Store(addr, strobe, data) =>
      FlatRun(StoreWord(mem, addr / 4, data, Mask(strobe)), ops[1..])
  }

  ghost function CacheRun(c: Cache, ops: seq<Op>): Outcome<Cache>
    requires Inv(c) && Legal(|c.mem|, ops)
    decreases |ops|
  {
    if ops == [] then Outcome(c, []) else
    match ops[0]
    case Load(addr) =>
      var rest := CacheRun(Touched(c, addr), ops[1..]);
      rest.(loads := [Loaded(c, addr)] + rest.loads)
    case Store(addr, strobe, data) =>
      StoreWritesView(c, addr, strobe, data);
      CacheRun(Stored(c, addr, strobe, data), ops[1..])
  }

  /** On every trace the write-back cache answers like the flat memory it stands for. */
  lemma {:induction false} CacheRefinesMemory(c: Cache, ops: seq<Op>)
    requires Inv(c) && Legal(|c.mem|, ops)
    ensures Inv(CacheRun(c, ops).state)
    ensures CacheRun(c, ops).loads == FlatRun(View(c), ops).loads
    ensures View(CacheRun(c, ops).state) == FlatRun(View(c), ops).state
    decreases |ops|
  {
    hide Inv, View, Touched, Loaded, Stored, StoreWord;
    if ops != [] {
      match ops[0]
      case Load(addr) =>
        LoadReadsView(c, addr);
        CacheRefinesMemory(Touched(c, addr), ops[1..]);
      case Store(addr, strobe, data) =>
        StoreWritesView(c, addr, strobe, data);
        CacheRefinesMemory(Stored(c, addr, strobe, data), ops[1..]);
    }
  }

  // ---------------------------------------------------------------- after reset

  function EmptyLine(): Line { Line(0, false, false, [0, 0, 0, 0]) }

  function EmptySet(): seq<Line> { [EmptyLine(), EmptyLine(), EmptyLine(), EmptyLine()] }

  function Reset(mem: seq<Word>): Cache {
    Cache([EmptySet(), EmptySet(), EmptySet(), EmptySet()], mem)
  }

  lemma ResetStandsForMemory(mem: seq<Word>)
    requires |mem| % 4 == 0
    ensures Inv(Reset(mem)) && View(Reset(mem)) == mem
  {
    hide Inv, Lookup, Hits, View, EmptySet;
    ResetKeepsInv(mem);
    forall w: nat | w < |mem| ensures Lookup(Reset(mem), w) == mem[w] {
      NothingHits(mem, w / 4 % 4, w / 16);
      LookupMiss(Reset(mem), w);
    }
  }

  lemma ResetKeepsInv(mem: seq<Word>)
    requires |mem| % 4 == 0
    ensures Inv(Reset(mem))
  {}

  lemma NothingHits(mem: seq<Word>, s: nat, tag: nat)
    requires s < 4
    ensures forall i :: 0 <= i < 4 ==> !Hits(Reset(mem).sets[s], tag, i)
  {}
}
