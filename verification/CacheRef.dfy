/** The write-back reference model as the program keeps it: fixed arrays changed in place. */
module CacheRef {
  import opened Options
  import opened Words
  import opened Memory
  import opened CacheSpec
  import opened CacheTheorems

  class CacheRefModel {
    const cacheData: array3<Word>
    const tag: array2<nat>
    const valid: array2<bool>
    const dirty: array2<bool>
    const mem: BlockMemory

    ghost predicate Arrays() {
      && cacheData.Length0 == cacheData.Length1 == cacheData.Length2 == 4
      && tag.Length0 == tag.Length1 == 4
      && valid.Length0 == valid.Length1 == 4
      && dirty.Length0 == dirty.Length1 == 4
      && valid != dirty
    }

    /** The arrays have their declared sizes and the memory holds whole lines. */
    ghost predicate Shape()
      reads mem
    {
      Arrays() && mem.Valid() && mem.offset == 0 && mem.size % 16 == 0
    }

    ghost function WayAt(s: nat, i: nat): Line
      requires Arrays() && s < 4 && i < 4
      reads cacheData, tag, valid, dirty
    {
      Line(tag[s, i], valid[s, i], dirty[s, i],
           [cacheData[s, i, 0], cacheData[s, i, 1], cacheData[s, i, 2], cacheData[s, i, 3]])
    }

    ghost function SetAt(s: nat): (r: seq<Line>)
      requires Arrays() && s < 4
      reads cacheData, tag, valid, dirty
      ensures |r| == 4 && forall i :: 0 <= i < 4 ==> r[i] == WayAt(s, i)
    {
      [WayAt(s, 0), WayAt(s, 1), WayAt(s, 2), WayAt(s, 3)]
    }

    ghost function Sets(): (r: seq<seq<Line>>)
      requires Arrays()
      reads cacheData, tag, valid, dirty
      ensures |r| == 4 && forall s :: 0 <= s < 4 ==> r[s] == SetAt(s)
    {
      [SetAt(0), SetAt(1), SetAt(2), SetAt(3)]
    }

    ghost function Contents(): (c: Cache)
      requires Arrays()
      reads mem, cacheData, tag, valid, dirty
    {
      Cache(Sets(), mem.mem)
    }

    ghost predicate Valid()
      reads mem, cacheData, tag, valid, dirty
    {
      Shape() && Inv(Contents())
    }

    constructor (memory: BlockMemory)
      requires memory.Valid() && memory.offset == 0 && memory.size % 16 == 0
      ensures Shape() && mem == memory
      ensures fresh(cacheData) && fresh(tag) && fresh(valid) && fresh(dirty)
    {
      mem := memory;
      cacheData := new Word[4, 4, 4];
      tag := new nat[4, 4];
      valid := new bool[4, 4];
      dirty := new bool[4, 4];
    }

    /** The first loop nest of `reset`: every word. */
    method ClearData()
      requires Arrays()
      modifies cacheData
      ensures forall s, w, k :: 0 <= s < 4 && 0 <= w < 4 && 0 <= k < 4 ==> cacheData[s, w, k] == 0
    {
      for i := 0 to 4
        invariant forall s, w, k :: 0 <= s < i && 0 <= w < 4 && 0 <= k < 4 ==> cacheData[s, w, k] == 0
      {
        for j := 0 to 4
          invariant forall s, w, k :: 0 <= s < i && 0 <= w < 4 && 0 <= k < 4 ==> cacheData[s, w, k] == 0
          invariant forall w, k :: 0 <= w < j && 0 <= k < 4 ==> cacheData[i, w, k] == 0
        {
          for k := 0 to 4
            invariant forall s, w, x :: 0 <= s < i && 0 <= w < 4 && 0 <= x < 4 ==> cacheData[s, w, x] == 0
            invariant forall w, x :: 0 <= w < j && 0 <= x < 4 ==> cacheData[i, w, x] == 0
            invariant forall x :: 0 <= x < k ==> cacheData[i, j, x] == 0
          {
            cacheData[i, j, k] := 0;
          }
        }
      }
    }

    /** The second one: every tag and flag. */
    method ClearMeta()
      requires Arrays()
      modifies tag, valid, dirty
      ensures forall s, w :: 0 <= s < 4 && 0 <= w < 4 ==> tag[s, w] == 0 && !valid[s, w] && !dirty[s, w]
    {
      for i := 0 to 4
        invariant forall s, w :: 0 <= s < i && 0 <= w < 4 ==> tag[s, w] == 0 && !valid[s, w] && !dirty[s, w]
      {
        for j := 0 to 4
          invariant forall s, w :: 0 <= s < i && 0 <= w < 4 ==> tag[s, w] == 0 && !valid[s, w] && !dirty[s, w]
          invariant forall w :: 0 <= w < j ==> tag[i, w] == 0 && !valid[i, w] && !dirty[i, w]
        {
          tag[i, j] := 0;
          valid[i, j], dirty[i, j] := false, false;
        }
      }
    }

    method Reset()
      requires Shape()
      modifies cacheData, tag, valid, dirty, mem`mem
      ensures Valid() && mem.mem == mem.saved && Contents() == CacheTheorems.Reset(mem.saved)
      ensures forall s, w, k :: 0 <= s < 4 && 0 <= w < 4 && 0 <= k < 4 ==> cacheData[s, w, k] == 0
      ensures forall s, w :: 0 <= s < 4 && 0 <= w < 4 ==> tag[s, w] == 0 && !valid[s, w] && !dirty[s, w]
    {
      ClearData();
      ClearMeta();
      mem.Reset();
      assert forall s, i :: 0 <= s < 4 && 0 <= i < 4 ==> WayAt(s, i) == EmptyLine();
      assert forall s :: 0 <= s < 4 ==> SetAt(s) == EmptySet();
      ResetStandsForMemory(mem.mem);
    }

    /** The way that holds the line, or 0 if none does. */
    method FindPosition(index: nat, t: nat) returns (position: nat, hit: bool)
      requires Arrays() && index < 4
      ensures position < 4 && (!hit ==> position == 0)
      ensures FindWay(SetAt(index), t, 0) == if hit then Some(position) else None
    {
      position, hit := 0, false;
      var i := 0;
      while i < 4
        invariant 0 <= i <= 4
        invariant FindWay(SetAt(index), t, 0) == FindWay(SetAt(index), t, i)
      {
        if valid[index, i] && tag[index, i] == t {
          return i, true;
        }
        i := i + 1;
      }
    }

    /** Swaps way `i` of the set with the next younger one, word by word. */
    method SwapWithNext(index: nat, i: nat)
      requires Arrays() && index < 4 && i < 3
      modifies cacheData, tag, valid, dirty
      ensures WayAt(index, i) == old(WayAt(index, i + 1)) && WayAt(index, i + 1) == old(WayAt(index, i))
      ensures forall s, w :: 0 <= s < 4 && 0 <= w < 4 && (s != index || (w != i && w != i + 1)) ==>
                WayAt(s, w) == old(WayAt(s, w))
    {
      var n := i + 1;
      for j := 0 to 4
        modifies cacheData
        invariant forall k :: 0 <= k < j ==> cacheData[index, i, k] == old(cacheData[index, n, k])
        invariant forall k :: 0 <= k < j ==> cacheData[index, n, k] == old(cacheData[index, i, k])
        invariant forall k :: j <= k < 4 ==> cacheData[index, i, k] == old(cacheData[index, i, k])
        invariant forall k :: j <= k < 4 ==> cacheData[index, n, k] == old(cacheData[index, n, k])
        invariant forall s, w, k :: 0 <= s < 4 && 0 <= w < 4 && 0 <= k < 4 && (s != index || (w != i && w != n)) ==>
                    cacheData[s, w, k] == old(cacheData[s, w, k])
      {
        cacheData[index, i, j], cacheData[index, n, j] := cacheData[index, n, j], cacheData[index, i, j];
      }
      tag[index, i], tag[index, n] := tag[index, n], tag[index, i];
      valid[index, i], valid[index, n] := valid[index, n], valid[index, i];
      dirty[index, i], dirty[index, n] := dirty[index, n], dirty[index, i];
    }

    /** The reorder loop: way `position` bubbles up to way 3. */
    method MoveToYoungest(index: nat, position: nat)
      requires Arrays() && index < 4 && position < 4
      modifies cacheData, tag, valid, dirty
      ensures Sets() == old(Sets()[index := Rotate(SetAt(index), position)])
    {
      hide SetAt, Sets, WayAt, Rotate;
      ghost var ways := SetAt(index);
      var i := position;
      while i < 3
        invariant position <= i <= 3
        invariant forall w :: 0 <= w < position || i < w < 4 ==> WayAt(index, w) == ways[w]
        invariant forall w :: position <= w < i ==> WayAt(index, w) == ways[w + 1]
        invariant WayAt(index, i) == ways[position]
        invariant forall s, w :: 0 <= s < 4 && 0 <= w < 4 && s != index ==> WayAt(s, w) == old(WayAt(s, w))
      {
        SwapWithNext(index, i);
        i := i + 1;
      }
      RotateAt(ways, position);
      assert SetAt(index) == Rotate(ways, position);
      assert forall s :: 0 <= s < 4 && s != index ==> SetAt(s) == old(SetAt(s));
    }

    /** The flush: a dirty youngest line is stored back word by word. */
    method FlushYoungest(index: nat)
      requires Shape() && index < 4
      requires dirty[index, 3] ==> LineStart(tag[index, 3], index) + 4 <= |mem.mem|
      modifies mem`mem
      ensures Shape() && mem.mem == old(WriteBack(mem.mem, WayAt(index, 3), index))
    {
      if dirty[index, 3] {
        ghost var was, line, b := mem.mem, WayAt(index, 3).data, LineStart(tag[index, 3], index);
        FlushedEnds(was, WayAt(index, 3), index);
        hide Flushed, WriteBack, Mask, StoreWord;
        for j := 0 to 4
          invariant mem.Valid() && |mem.mem| == |was|
          invariant mem.mem == Flushed(was, line, b, j)
        {
          var addr := tag[index, 3] * 64 + index * 16 + j * 4;
          assert addr == 4 * (b + j);
          WordIndex(b + j);
          FlushedNext(was, line, b, j);
          mem.Store(addr, cacheData[index, 3, j], Mask(15));
        }
      }
    }

    /** The fetch: the line at byte address `start` fills way 3, clean. */
    method FetchYoungest(index: nat, t: nat, start: nat)
      requires Shape() && index < 4 && LineStart(t, index) + 4 <= |mem.mem| && start == 4 * LineStart(t, index)
      modifies cacheData, tag, valid, dirty
      ensures Sets() == old(Sets()[index := SetAt(index)[3 := Fetched(mem.mem, t, index)]])
    {
      hide SetAt, Sets, Fetched, LineStart;
      ghost var b := LineStart(t, index);
      for j := 0 to 4
        modifies cacheData
        invariant forall k :: 0 <= k < j ==> cacheData[index, 3, k] == mem.mem[b + k]
        invariant forall s, w, k :: 0 <= s < 4 && 0 <= w < 4 && 0 <= k < 4 && (s != index || w != 3) ==>
                    cacheData[s, w, k] == old(cacheData[s, w, k])
      {
        assert start + 4 * j == 4 * (b + j);
        WordIndex(b + j);
        var value := mem.Load(start + 4 * j);
        cacheData[index, 3, j] := value;
      }
      tag[index, 3] := t;
      valid[index, 3], dirty[index, 3] := true, false;
      FetchedWords(index, t);
      assert forall s, w :: 0 <= s < 4 && 0 <= w < 4 && (s != index || w != 3) ==> WayAt(s, w) == old(WayAt(s, w));
      OneWayChanged(old(Sets()), Sets(), index, 3, Fetched(mem.mem, t, index));
    }

    lemma FetchedWords(index: nat, t: nat)
      requires Shape() && index < 4 && LineStart(t, index) + 4 <= |mem.mem|
      requires forall k :: 0 <= k < 4 ==> cacheData[index, 3, k] == mem.mem[LineStart(t, index) + k]
      requires tag[index, 3] == t && valid[index, 3] && !dirty[index, 3]
      ensures WayAt(index, 3) == Fetched(mem.mem, t, index)
    {
      hide LineStart;
      var b := LineStart(t, index);
      assert cacheData[index, 3, 0] == mem.mem[b + 0];
      assert mem.mem[b..b + 4] == [mem.mem[b], mem.mem[b + 1], mem.mem[b + 2], mem.mem[b + 3]];
    }

    /** What load and store share: the line at byte address `start` ends up in way 3 of its set. */
    method BringToYoungest(index: nat, t: nat, start: nat)
      requires Valid() && index < 4 && LineStart(t, index) + 4 <= |mem.mem| && start == 4 * LineStart(t, index)
      modifies cacheData, tag, valid, dirty, mem`mem
      ensures Shape() && Contents() == old(Access(Contents(), t, index))
    {
      ghost var c := Contents();
      AccessInSteps(c, t, index);
      hide Inv, Access, Rotate, WriteBack, Fetched, FindWay, SetAt, Sets, WayAt, LineStart;
      var position, hit := FindPosition(index, t);
      MoveToYoungest(index, position);
      if !hit {
        assert SetAt(index)[3] == c.sets[index][0];
        ReplaceYoungest(index, t, start);
      }
    }

    /** The miss path: way 3 is flushed if dirty, then filled with the addressed line. */
    method ReplaceYoungest(index: nat, t: nat, start: nat)
      requires Shape() && index < 4 && LineStart(t, index) + 4 <= |mem.mem| && start == 4 * LineStart(t, index)
      requires SetAt(index)[3].dirty ==> |SetAt(index)[3].data| == 4 && LineStart(SetAt(index)[3].tag, index) + 4 <= |mem.mem|
      modifies cacheData, tag, valid, dirty, mem`mem
      ensures Shape() && mem.mem == old(WriteBack(mem.mem, SetAt(index)[3], index))
      ensures Sets() == old(Sets()[index := SetAt(index)[3 := Fetched(WriteBack(mem.mem, SetAt(index)[3], index), t, index)]])
    {
      YoungestFlags(index);
      hide WriteBack, Fetched, SetAt, Sets, WayAt;
      FlushYoungest(index);
      FetchYoungest(index, t, start);
    }

    lemma YoungestFlags(index: nat)
      requires Arrays() && index < 4
      ensures WayAt(index, 3).dirty == dirty[index, 3] && WayAt(index, 3).tag == tag[index, 3]
    {}

    method Load(addr: nat) returns (value: Word)
      requires Valid() && InRange(mem.mem, addr)
      modifies cacheData, tag, valid, dirty, mem`mem
      ensures Valid() && Contents() == old(Touched(Contents(), addr))
      ensures value == old(Loaded(Contents(), addr))
    {
      hide Inv, Access, SetAt, Sets, WayAt, LineStart, Hits;
      var start, t, index, offset := addr / 16 * 16, addr / 64, addr / 16 % 4, addr / 4 % 4;
      LineInRange(Contents(), addr);
      AddressSplits(addr);
      AccessKeepsInv(Contents(), t, index);
      BringToYoungest(index, t, start);
      value := cacheData[index, 3, offset];
      YoungestWord(index, offset);
    }

    lemma YoungestWord(index: nat, offset: nat)
      requires Arrays() && index < 4 && offset < 4
      ensures |Sets()[index][3].data| == 4 && Sets()[index][3].data[offset] == cacheData[index, 3, offset]
    {}

    method Store(addr: nat, strobe: nat, data: Word)
      requires Valid() && InRange(mem.mem, addr) && strobe < 16
      modifies cacheData, tag, valid, dirty, mem`mem
      ensures Valid() && Contents() == old(Stored(Contents(), addr, strobe, data))
    {
      hide Inv, Access, SetAt, Sets, WayAt, LineStart, Hits;
      var start, t, index, offset := addr / 16 * 16, addr / 64, addr / 16 % 4, addr / 4 % 4;
      LineInRange(Contents(), addr);
      AddressSplits(addr);
      StoreWritesView(Contents(), addr, strobe, data);
      BringToYoungest(index, t, start);
      PatchWord(index, offset, data, STROBE_TO_MASK[strobe]);
    }

    method PatchWord(index: nat, offset: nat, data: Word, mask: Word)
      requires Shape() && index < 4 && offset < 4
      modifies cacheData, dirty
      ensures Shape() && |old(Sets())[index][3].data| == 4
      ensures Contents() == old(PatchYoungest(Contents(), index, offset, data, mask))
    {
      hide SetAt, Sets, Merge;
      var value := cacheData[index, 3, offset];
      ghost var line := WayAt(index, 3);
      cacheData[index, 3, offset] := Merge(value, data, mask);
      dirty[index, 3] := true;
      assert WayAt(index, 3).data == line.data[offset := Merge(value, data, mask)];
      assert forall s, w :: 0 <= s < 4 && 0 <= w < 4 && (s != index || w != 3) ==> WayAt(s, w) == old(WayAt(s, w));
      OneWayChanged(old(Sets()), Sets(), index, 3, Patched(line, offset, data, mask));
    }
  }

  /** Four sets of four ways of which one way differs. */
  lemma OneWayChanged(before: seq<seq<Line>>, now: seq<seq<Line>>, index: nat, w: nat, l: Line)
    requires |before| == |now| == 4 && index < 4 && w < 4
    requires forall s :: 0 <= s < 4 ==> |before[s]| == 4 && |now[s]| == 4
    requires forall s, i :: 0 <= s < 4 && 0 <= i < 4 && (s != index || i != w) ==> now[s][i] == before[s][i]
    requires now[index][w] == l
    ensures now == before[index := before[index][w := l]]
  {
    assert now[index] == before[index][w := l];
    forall s | 0 <= s < 4 && s != index ensures now[s] == before[s] {}
  }

  /** `Access` as the program performs it: rotate, flush way 3, fill way 3. */
  lemma AccessInSteps(c: Cache, t: nat, index: nat)
    requires Inv(c) && index < 4 && LineStart(t, index) + 4 <= |c.mem|
    ensures |c.sets[index]| == 4
    ensures var way := FindWay(c.sets[index], t, 0);
            way.Some? ==> Access(c, t, index) == Cache(c.sets[index := Rotate(c.sets[index], way.value)], c.mem)
    ensures FindWay(c.sets[index], t, 0).None? ==>
              var ways := c.sets[index];
              && |Rotate(ways, 0)| == 4 && Rotate(ways, 0)[3] == ways[0]
              && (ways[0].dirty ==> |ways[0].data| == 4 && LineStart(ways[0].tag, index) + 4 <= |c.mem|)
              && var mem := WriteBack(c.mem, ways[0], index);
                 Access(c, t, index) == Cache(c.sets[index := Rotate(ways, 0)][index := Rotate(ways, 0)[3 := Fetched(mem, t, index)]], mem)
  {
    SetLines(c, index);
    RotateAt(c.sets[index], 0);
  }

  /** Memory with the first `j` words of a line already written back at `b`. */
  ghost function Flushed(was: seq<Word>, line: seq<Word>, b: nat, j: nat): seq<Word>
    requires |line| == 4 && j <= 4 && b + 4 <= |was|
  {
    was[..b] + line[..j] + was[b + j..]
  }

  lemma FlushedEnds(was: seq<Word>, victim: Line, index: nat)
    requires |victim.data| == 4 && LineStart(victim.tag, index) + 4 <= |was| && victim.dirty
    ensures Flushed(was, victim.data, LineStart(victim.tag, index), 0) == was
    ensures Flushed(was, victim.data, LineStart(victim.tag, index), 4) == WriteBack(was, victim, index)
  {
    assert victim.data[..4] == victim.data;
  }

  /** One more word written back. */
  lemma FlushedNext(was: seq<Word>, line: seq<Word>, b: nat, j: nat)
    requires j < 4 && |line| == 4 && b + 4 <= |was|
    ensures b + j < |Flushed(was, line, b, j)|
    ensures StoreWord(Flushed(was, line, b, j), b + j, line[j], Mask(15)) == Flushed(was, line, b, j + 1)
  {
    FullMask(Flushed(was, line, b, j)[b + j], line[j]);
    hide Merge;
    assert line[..j + 1] == line[..j] + [line[j]];
  }
}
