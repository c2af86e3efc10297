/** The write-back cache on values: 4 sets of 4 ways, 4 words a line, the youngest line in way 3. */
module CacheSpec {
  import opened Options
  import opened Words

  datatype Line = Line(tag: nat, valid: bool, dirty: bool, data: seq<Word>)

  datatype Cache = Cache(sets: seq<seq<Line>>, mem: seq<Word>)

  function Tag(addr: nat): nat { addr / 64 }

  function Index(addr: nat): (i: nat)
    ensures i < 4
  {
    addr / 16 % 4
  }

  function Offset(addr: nat): (o: nat)
    ensures o < 4
  {
    addr / 4 % 4
  }

  /** First word of the line with this tag in set `index`: a quarter of `tag * 64 + index * 16`. */
  function LineStart(tag: nat, index: nat): nat { tag * 16 + index * 4 }

  /** Tag, index and offset are a faithful split of the address: the line starts at `addr / 16 * 16`. */
  lemma AddressSplits(addr: nat)
    ensures LineStart(Tag(addr), Index(addr)) == addr / 16 * 4
    ensures addr / 4 == LineStart(Tag(addr), Index(addr)) + Offset(addr)
    ensures var word := 64 * Tag(addr) + 16 * Index(addr) + 4 * Offset(addr); word <= addr < word + 4
  {
    var line, word := addr / 16, addr / 4;
    assert addr == 64 * (line / 4) + (16 * (line % 4) + addr % 16);
    assert Tag(addr) == line / 4;
    assert addr == 16 * (word / 4) + (4 * (word % 4) + addr % 4);
    assert line == word / 4;
  }

  lemma WordSplits(w: nat)
    ensures w == LineStart(w / 16, w / 4 % 4) + w % 4
  {
    var q := w / 4;
    assert w == 4 * q + w % 4;
    assert q == 4 * (q / 4) + q % 4;
    DivMod16(q / 4, 4 * (q % 4) + w % 4);
    assert w == 16 * (q / 4) + (4 * (q % 4) + w % 4);
  }

  // ---------------------------------------------------------------- invariant

  ghost predicate LineOk(l: Line, index: nat, mem: seq<Word>) {
    && |l.data| == 4
    && (l.dirty ==> l.valid)
    && (l.valid ==> LineStart(l.tag, index) + 4 <= |mem|)
    && (l.valid && !l.dirty ==> l.data == mem[LineStart(l.tag, index)..LineStart(l.tag, index) + 4])
  }

  ghost predicate DistinctTags(ways: seq<Line>) {
    forall i, j :: 0 <= i < j < |ways| && ways[i].valid && ways[j].valid ==> ways[i].tag != ways[j].tag
  }

  /** Invalid ways come first. */
  ghost predicate ValidSuffix(ways: seq<Line>) {
    forall i, j :: 0 <= i < j < |ways| && ways[i].valid ==> ways[j].valid
  }

  ghost predicate SetOk(ways: seq<Line>, index: nat, mem: seq<Word>) {
    && |ways| == 4
    && (forall i :: 0 <= i < 4 ==> LineOk(ways[i], index, mem))
    && DistinctTags(ways)
    && ValidSuffix(ways)
  }

  ghost predicate Inv(c: Cache) {
    && |c.mem| % 4 == 0
    && |c.sets| == 4
    && forall s :: 0 <= s < 4 ==> SetOk(c.sets[s], s, c.mem)
  }

  // ---------------------------------------------------------------- operations

  ghost predicate Hits(ways: seq<Line>, tag: nat, i: nat) {
    i < |ways| && ways[i].valid && ways[i].tag == tag
  }

  /** The first way holding `tag`. */
  function FindWay(ways: seq<Line>, tag: nat, from: nat): (r: Option<nat>)
    requires from <= |ways|
    ensures r.Some? ==> from <= r.value && Hits(ways, tag, r.value)
    ensures r.Some? ==> forall i :: from <= i < r.value ==> !Hits(ways, tag, i)
    ensures r.None? ==> forall i :: from <= i < |ways| ==> !Hits(ways, tag, i)
    decreases |ways| - from
  {
    if from == |ways| then None
    else if ways[from].valid && ways[from].tag == tag then Some(from)
    else FindWay(ways, tag, from + 1)
  }

  /** Way `p` becomes the youngest; the younger ones move down one place. */
  function Rotate(ways: seq<Line>, p: nat): seq<Line>
    requires p < |ways|
  {
    ways[..p] + ways[p + 1..] + [ways[p]]
  }

  function WriteBack(mem: seq<Word>, victim: Line, index: nat): (r: seq<Word>)
    requires victim.dirty ==> |victim.data| == 4 && LineStart(victim.tag, index) + 4 <= |mem|
    ensures |r| == |mem|
  {
    var b := LineStart(victim.tag, index);
    if victim.dirty then mem[..b] + victim.data + mem[b + 4..] else mem
  }

  function Fetched(mem: seq<Word>, tag: nat, index: nat): Line
    requires LineStart(tag, index) + 4 <= |mem|
  {
    var b := LineStart(tag, index);
    Line(tag, true, false, mem[b..b + 4])
  }

  /** What load and store have in common: afterwards the addressed line is way 3 of its set. */
  ghost function Access(c: Cache, tag: nat, index: nat): Cache
    requires Inv(c) && index < 4 && LineStart(tag, index) + 4 <= |c.mem|
  {
    var before := c.sets[index];
    var way := FindWay(before, tag, 0);
    if way.Some? then Cache(c.sets[index := Rotate(before, way.value)], c.mem)
    else
      var rotated := Rotate(before, 0);
      assert LineOk(before[0], index, c.mem);
      var mem := WriteBack(c.mem, rotated[3], index);
      Cache(c.sets[index := rotated[3 := Fetched(mem, tag, index)]], mem)
  }

  /** The youngest line with one word merged in and marked dirty. */
  function Patched(l: Line, offset: nat, data: Word, mask: Word): Line
    requires |l.data| == 4 && offset < 4
  {
    l.(data := l.data[offset := Merge(l.data[offset], data, mask)], dirty := true)
  }

  function PatchYoungest(c: Cache, index: nat, offset: nat, data: Word, mask: Word): Cache
    requires index < |c.sets| && |c.sets[index]| == 4 && |c.sets[index][3].data| == 4 && offset < 4
  {
    c.(sets := c.sets[index := c.sets[index][3 := Patched(c.sets[index][3], offset, data, mask)]])
  }

  // ---------------------------------------------------------------- the memory the cache stands for

  /** Word `w`: the valid line's word if its line is cached, the backing memory's otherwise. */
  ghost function Lookup(c: Cache, w: nat): Word
    requires Inv(c) && w < |c.mem|
  {
    var ways := c.sets[w / 4 % 4];
    assert SetOk(ways, w / 4 % 4, c.mem);
    var way := FindWay(ways, w / 16, 0);
    if way.Some? then assert LineOk(ways[way.value], w / 4 % 4, c.mem); ways[way.value].data[w % 4] else c.mem[w]
  }

  ghost function View(c: Cache): (v: seq<Word>)
    requires Inv(c)
    ensures |v| == |c.mem| && forall w :: 0 <= w < |v| ==> v[w] == Lookup(c, w)
  {
    seq(|c.mem|, w requires 0 <= w < |c.mem| => Lookup(c, w))
  }

  // ---------------------------------------------------------------- lookups through one set

  /** `Lookup` by content instead of by position: a valid line with the word's tag decides. */
  lemma LookupHit(c: Cache, w: nat, i: nat)
    requires Inv(c) && w < |c.mem| && Hits(c.sets[w / 4 % 4], w / 16, i)
    ensures i < 4 && |c.sets[w / 4 % 4][i].data| == 4 && Lookup(c, w) == c.sets[w / 4 % 4][i].data[w % 4]
  {
    var ways := c.sets[w / 4 % 4];
    assert SetOk(ways, w / 4 % 4, c.mem);
    var way := FindWay(ways, w / 16, 0);
    assert way.Some? && Hits(ways, w / 16, way.value);
  }

  lemma LookupMiss(c: Cache, w: nat)
    requires Inv(c) && w < |c.mem| && forall i :: 0 <= i < 4 ==> !Hits(c.sets[w / 4 % 4], w / 16, i)
    ensures Lookup(c, w) == c.mem[w]
  {
    assert SetOk(c.sets[w / 4 % 4], w / 4 % 4, c.mem);
  }

  /** A clean valid line says the same as the memory behind it. */
  lemma CleanAgrees(c: Cache, w: nat, i: nat)
    requires Inv(c) && w < |c.mem| && Hits(c.sets[w / 4 % 4], w / 16, i) && !c.sets[w / 4 % 4][i].dirty
    ensures Lookup(c, w) == c.mem[w]
  {
    var ways := c.sets[w / 4 % 4];
    LookupHit(c, w, i);
    assert LineOk(ways[i], w / 4 % 4, c.mem);
    WordSplits(w);
  }

  // ---------------------------------------------------------------- a set after rotation

  function RotatedFrom(p: nat, i: nat): nat
    requires p < 4 && i < 4
  {
    if i < p then i else if i < 3 then i + 1 else p
  }

  lemma RotateAt(ways: seq<Line>, p: nat)
    requires |ways| == 4 && p < 4
    ensures |Rotate(ways, p)| == 4
    ensures forall i :: 0 <= i < 4 ==> Rotate(ways, p)[i] == ways[RotatedFrom(p, i)]
  {}

  lemma RotateKeepsSet(ways: seq<Line>, p: nat, index: nat, mem: seq<Word>)
    requires SetOk(ways, index, mem) && p < 4 && ways[p].valid
    ensures SetOk(Rotate(ways, p), index, mem)
  {
    RotateAt(ways, p);
  }

  /** The oldest way leaves, a line that is in no other way enters as the youngest. */
  lemma ReplaceKeepsSet(ways: seq<Line>, index: nat, mem: seq<Word>, l: Line)
    requires |ways| == 4 && DistinctTags(ways) && ValidSuffix(ways)
    requires forall i :: 1 <= i < 4 ==> LineOk(ways[i], index, mem)
    requires LineOk(l, index, mem) && l.valid
    requires forall i :: 0 <= i < 4 ==> !Hits(ways, l.tag, i)
    ensures SetOk(Rotate(ways, 0)[3 := l], index, mem)
  {
    var r := Rotate(ways, 0)[3 := l];
    RotateAt(ways, 0);
    assert forall i :: 0 <= i < 3 ==> r[i] == ways[i + 1];
    assert forall i :: 0 <= i < 4 ==> !(ways[i].valid && ways[i].tag == l.tag) by {
      forall i | 0 <= i < 4 ensures !(ways[i].valid && ways[i].tag == l.tag) { assert !Hits(ways, l.tag, i); }
    }
  }

  // ---------------------------------------------------------------- the write-back

  /** Flushing a line changes no word of any other line. */
  lemma WriteBackAt(mem: seq<Word>, victim: Line, index: nat, w: nat)
    requires |victim.data| == 4 && index < 4 && w < |mem|
    requires victim.dirty ==> LineStart(victim.tag, index) + 4 <= |mem|
    ensures WriteBack(mem, victim, index)[w] ==
            if victim.dirty && w / 16 == victim.tag && w / 4 % 4 == index then victim.data[w % 4] else mem[w]
  {
    WordSplits(w);
    var b := LineStart(victim.tag, index);
    assert b <= w < b + 4 <==> w / 16 == victim.tag && w / 4 % 4 == index;
  }

  lemma LineWordSplits(tag: nat, index: nat, k: nat)
    requires index < 4 && k < 4
    ensures var w := LineStart(tag, index) + k; w / 16 == tag && w / 4 % 4 == index && w % 4 == k
  {
    var w := LineStart(tag, index) + k;
    assert w == 16 * tag + (4 * index + k) && w == 4 * (4 * tag + index) + k;
    DivMod16(tag, 4 * index + k);
    DivMod4(4 * tag + index, k);
    DivMod4(tag, index);
  }

  lemma DivMod16(q: nat, r: nat)
    requires r < 16
    ensures (16 * q + r) / 16 == q
  {}

  lemma DivMod4(q: nat, r: nat)
    requires r < 4
    ensures (4 * q + r) / 4 == q && (4 * q + r) % 4 == r
  {}

  lemma WriteBackKeepsLine(mem: seq<Word>, victim: Line, index: nat, l: Line, s: nat)
    requires LineOk(victim, index, mem) && LineOk(l, s, mem) && index < 4 && s < 4
    requires s != index || !victim.valid || l.tag != victim.tag || !l.valid
    ensures LineOk(l, s, WriteBack(mem, victim, index))
  {
    var mem' := WriteBack(mem, victim, index);
    var b := LineStart(l.tag, s);
    if l.valid && !l.dirty {
      hide WriteBack, LineStart;
      forall w | b <= w < b + 4 ensures mem'[w] == mem[w] {
        LineWordSplits(l.tag, s, w - b);
        WriteBackAt(mem, victim, index, w);
      }
      assert mem'[b..b + 4] == mem[b..b + 4];
    }
  }

  // ---------------------------------------------------------------- access keeps the invariant

  lemma HitKeepsInv(c: Cache, tag: nat, index: nat)
    requires Inv(c) && index < 4 && LineStart(tag, index) + 4 <= |c.mem|
    requires FindWay(c.sets[index], tag, 0).Some?
    ensures Inv(Access(c, tag, index))
  {
    hide Rotate, SetOk;
    var p := FindWay(c.sets[index], tag, 0).value;
    SetLines(c, index);
    RotateKeepsSet(c.sets[index], p, index, c.mem);
  }

  lemma SetLines(c: Cache, s: nat)
    requires Inv(c) && s < 4
    ensures |c.sets| == 4
    ensures |c.sets[s]| == 4 && SetOk(c.sets[s], s, c.mem)
    ensures forall i :: 0 <= i < 4 ==> LineOk(c.sets[s][i], s, c.mem)
  {}

  lemma WriteBackKeepsSet(ways: seq<Line>, s: nat, mem: seq<Word>, victim: Line, index: nat)
    requires SetOk(ways, s, mem) && LineOk(victim, index, mem) && index < 4 && s < 4 && s != index
    ensures SetOk(ways, s, WriteBack(mem, victim, index))
  {
    hide WriteBack;
    forall i | 0 <= i < 4 ensures LineOk(ways[i], s, WriteBack(mem, victim, index)) {
      WriteBackKeepsLine(mem, victim, index, ways[i], s);
    }
  }

  lemma WriteBackKeepsOthers(ways: seq<Line>, index: nat, mem: seq<Word>)
    requires SetOk(ways, index, mem) && index < 4
    ensures forall i :: 1 <= i < 4 ==> LineOk(ways[i], index, WriteBack(mem, ways[0], index))
  {
    hide WriteBack;
    assert LineOk(ways[0], index, mem);
    forall i | 1 <= i < 4 ensures LineOk(ways[i], index, WriteBack(mem, ways[0], index)) {
      assert LineOk(ways[i], index, mem);
      WriteBackKeepsLine(mem, ways[0], index, ways[i], index);
    }
  }

  lemma MissKeepsInv(c: Cache, tag: nat, index: nat)
    requires Inv(c) && index < 4 && LineStart(tag, index) + 4 <= |c.mem|
    requires FindWay(c.sets[index], tag, 0).None?
    ensures Inv(Access(c, tag, index))
  {
    hide WriteBack, Rotate;
    var ways := c.sets[index];
    var d := Access(c, tag, index);
    SetLines(c, index);
    RotateAt(ways, 0);
    WriteBackKeepsOthers(ways, index, c.mem);
    ReplaceKeepsSet(ways, index, d.mem, Fetched(d.mem, tag, index));
    hide SetOk;
    forall s | 0 <= s < 4 && s != index ensures SetOk(d.sets[s], s, d.mem) {
      SetLines(c, s);
      WriteBackKeepsSet(c.sets[s], s, c.mem, ways[0], index);
    }
  }

  /** Every access keeps the invariant and leaves the addressed line, valid, in way 3. */
  lemma AccessKeepsInv(c: Cache, tag: nat, index: nat)
    requires Inv(c) && index < 4 && LineStart(tag, index) + 4 <= |c.mem|
    ensures var d := Access(c, tag, index);
            Inv(d) && |d.mem| == |c.mem| && Hits(d.sets[index], tag, 3)
  {
    SetLines(c, index);
    var way := FindWay(c.sets[index], tag, 0);
    RotateAt(c.sets[index], if way.Some? then way.value else 0);
    hide Inv;
    if way.Some? { HitKeepsInv(c, tag, index); } else { MissKeepsInv(c, tag, index); }
  }

  /** An access makes no line dirty: a line that hits keeps its flag, a fetched one is clean; and a load miss writes
      memory back only for a dirty victim. */
  lemma AccessDirtiesNothing(c: Cache, tag: nat, index: nat)
    requires Inv(c) && index < 4 && LineStart(tag, index) + 4 <= |c.mem|
    ensures var d, way := Access(c, tag, index), FindWay(c.sets[index], tag, 0);
            && |d.sets| == 4 && |d.sets[index]| == 4
            && (way.Some? ==> d.sets[index][3] == c.sets[index][way.value] && d.mem == c.mem)
            && (way.None? ==> d.sets[index][3].valid && !d.sets[index][3].dirty && d.sets[index][3].tag == tag)
            && (way.None? && !c.sets[index][0].dirty ==> d.mem == c.mem)
  {
    SetLines(c, index);
    var way := FindWay(c.sets[index], tag, 0);
    RotateAt(c.sets[index], if way.Some? then way.value else 0);
  }

  // ---------------------------------------------------------------- access keeps the view

  lemma HitKeepsLookup(c: Cache, tag: nat, index: nat, w: nat)
    requires Inv(c) && index < 4 && LineStart(tag, index) + 4 <= |c.mem| && w < |c.mem|
    requires FindWay(c.sets[index], tag, 0).Some? && Inv(Access(c, tag, index))
    ensures Lookup(Access(c, tag, index), w) == Lookup(c, w)
  {
    var d := Access(c, tag, index);
    var p := FindWay(c.sets[index], tag, 0).value;
    SetLines(c, index);
    if w / 4 % 4 == index {
      RotateAt(c.sets[index], p);
      var way := FindWay(c.sets[index], w / 16, 0);
      hide Rotate, Inv, Lookup;
      if way.Some? {
        var q := way.value;
        LookupHit(c, w, q);
        LookupHit(d, w, if q < p then q else if q == p then 3 else q - 1);
      } else {
        LookupMiss(c, w);
        forall i | 0 <= i < 4 ensures !Hits(d.sets[index], w / 16, i) {
          assert !Hits(c.sets[index], w / 16, RotatedFrom(p, i));
        }
        LookupMiss(d, w);
      }
    }
  }

  /** A word of another set than the one accessed. */
  lemma MissKeepsOtherSet(c: Cache, tag: nat, index: nat, w: nat)
    requires Inv(c) && index < 4 && LineStart(tag, index) + 4 <= |c.mem| && w < |c.mem|
    requires FindWay(c.sets[index], tag, 0).None? && Inv(Access(c, tag, index)) && w / 4 % 4 != index
    ensures Lookup(Access(c, tag, index), w) == Lookup(c, w)
  {
    SetLines(c, index);
    RotateAt(c.sets[index], 0);
    WriteBackAt(c.mem, c.sets[index][0], index, w);
  }

  /** A word of the line that was fetched. */
  lemma MissKeepsFetched(c: Cache, tag: nat, index: nat, w: nat)
    requires Inv(c) && index < 4 && LineStart(tag, index) + 4 <= |c.mem| && w < |c.mem|
    requires FindWay(c.sets[index], tag, 0).None? && Inv(Access(c, tag, index))
    requires w / 4 % 4 == index && w / 16 == tag
    ensures Lookup(Access(c, tag, index), w) == Lookup(c, w)
  {
    var d := Access(c, tag, index);
    SetLines(c, index);
    RotateAt(c.sets[index], 0);
    assert !Hits(c.sets[index], tag, 0);
    WriteBackAt(c.mem, c.sets[index][0], index, w);
    hide WriteBack;
    LookupMiss(c, w);
    LookupHit(d, w, 3);
    WordSplits(w);
  }

  /** A word of the line that was evicted. */
  lemma MissKeepsEvicted(c: Cache, tag: nat, index: nat, w: nat)
    requires Inv(c) && index < 4 && LineStart(tag, index) + 4 <= |c.mem| && w < |c.mem|
    requires FindWay(c.sets[index], tag, 0).None? && Inv(Access(c, tag, index))
    requires w / 4 % 4 == index && w / 16 != tag && Hits(c.sets[index], w / 16, 0)
    ensures Lookup(Access(c, tag, index), w) == Lookup(c, w)
  {
    var ways, d := c.sets[index], Access(c, tag, index);
    SetLines(c, index);
    RotateAt(ways, 0);
    WriteBackAt(c.mem, ways[0], index, w);
    hide WriteBack, Lookup;
    forall i | 0 <= i < 4 ensures !Hits(d.sets[index], w / 16, i) {
      if i < 3 { assert d.sets[index][i] == ways[i + 1]; }
    }
    LookupMiss(d, w);
    LookupHit(c, w, 0);
    if !ways[0].dirty { CleanAgrees(c, w, 0); }
  }

  /** A word of any other line of the accessed set, cached or not. */
  lemma MissKeepsRest(c: Cache, tag: nat, index: nat, w: nat)
    requires Inv(c) && index < 4 && LineStart(tag, index) + 4 <= |c.mem| && w < |c.mem|
    requires FindWay(c.sets[index], tag, 0).None? && Inv(Access(c, tag, index))
    requires w / 4 % 4 == index && w / 16 != tag && !Hits(c.sets[index], w / 16, 0)
    ensures Lookup(Access(c, tag, index), w) == Lookup(c, w)
  {
    var ways, d := c.sets[index], Access(c, tag, index);
    SetLines(c, index);
    RotateAt(ways, 0);
    WriteBackAt(c.mem, ways[0], index, w);
    var way := FindWay(ways, w / 16, 0);
    hide WriteBack, Lookup, Rotate;
    if way.Some? {
      LookupHit(c, w, way.value);
      LookupHit(d, w, way.value - 1);
    } else {
      LookupMiss(c, w);
      forall i | 0 <= i < 4 ensures !Hits(d.sets[index], w / 16, i) {
        if i < 3 { assert !Hits(ways, w / 16, i + 1); }
      }
      LookupMiss(d, w);
    }
  }

  /** Moving lines between the cache and memory changes no word of the memory they stand for. */
  lemma AccessKeepsView(c: Cache, tag: nat, index: nat)
    requires Inv(c) && index < 4 && LineStart(tag, index) + 4 <= |c.mem|
    ensures Inv(Access(c, tag, index)) && View(Access(c, tag, index)) == View(c)
  {
    AccessKeepsInv(c, tag, index);
    var d := Access(c, tag, index);
    hide Access, Inv;
    forall w: nat | w < |c.mem| ensures Lookup(d, w) == Lookup(c, w) {
      if FindWay(c.sets[index], tag, 0).Some? { HitKeepsLookup(c, tag, index, w); }
      else if w / 4 % 4 != index { MissKeepsOtherSet(c, tag, index, w); }
      else if w / 16 == tag { MissKeepsFetched(c, tag, index, w); }
      else if Hits(c.sets[index], w / 16, 0) { MissKeepsEvicted(c, tag, index, w); }
      else { MissKeepsRest(c, tag, index, w); }
    }
  }
}
