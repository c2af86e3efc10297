/** Which lines the cache holds: replacement is least-recently-used, for every history. */
module CacheRecency {
  import opened Words
  import opened CacheSpec
  import opened CacheTheorems

  /** The tags of the valid ways, oldest first. */
  ghost function Tags(ways: seq<Line>): seq<nat> {
    if ways == [] then [] else (if ways[0].valid then [ways[0].tag] else []) + Tags(ways[1..])
  }

  function Without(tags: seq<nat>, t: nat): (r: seq<nat>)
    ensures |r| <= |tags| && t !in r
    ensures forall x :: x in r ==> x in tags
  {
    if tags == [] then [] else (if tags[0] == t then [] else [tags[0]]) + Without(tags[1..], t)
  }

  function LastFour(tags: seq<nat>): (r: seq<nat>)
    ensures |r| == if |tags| < 4 then |tags| else 4
  {
    if |tags| <= 4 then tags else tags[|tags| - 4..]
  }

  /** The distinct lines of a history, in the order of their last use. */
  function ByLastUse(history: seq<nat>): (r: seq<nat>)
    ensures forall x :: x in r <==> x in history
  {
    if history == [] then []
    else if history[0] in history[1..] then ByLastUse(history[1..])
    else [history[0]] + ByLastUse(history[1..])
  }

  ghost predicate Distinct(s: seq<nat>) {
    forall i, j :: 0 <= i < j < |s| ==> s[i] != s[j]
  }

  // ---------------------------------------------------------------- sequences of tags

  lemma Assoc(x: seq<nat>, y: seq<nat>, z: seq<nat>)
    ensures x + (y + z) == (x + y) + z
  {}

  lemma {:induction false} TagsConcat(x: seq<Line>, y: seq<Line>)
    ensures Tags(x + y) == Tags(x) + Tags(y)
  {
    if x == [] {
      assert x + y == y;
    } else {
      TagsConcat(x[1..], y);
      assert (x + y)[1..] == x[1..] + y;
      var head := if x[0].valid then [x[0].tag] else [];
      Assoc(head, Tags(x[1..]), Tags(y));
    }
  }

  lemma {:induction false} TagsExact(ways: seq<Line>, t: nat)
    ensures t in Tags(ways) <==> exists i :: 0 <= i < |ways| && Hits(ways, t, i)
    ensures |Tags(ways)| <= |ways|
  {
    if ways != [] {
      var rest := ways[1..];
      TagsExact(rest, t);
      assert t in Tags(ways) <==> Hits(ways, t, 0) || t in Tags(rest);
      forall i | 0 <= i < |rest| ensures Hits(rest, t, i) <==> Hits(ways, t, i + 1) {}
      if i :| 1 <= i < |ways| && Hits(ways, t, i) { assert Hits(rest, t, i - 1); }
    }
  }

  lemma {:induction false} WithoutAbsent(tags: seq<nat>, t: nat)
    requires t !in tags
    ensures Without(tags, t) == tags
  {
    if tags != [] { WithoutAbsent(tags[1..], t); }
  }

  lemma {:induction false} WithoutConcat(x: seq<nat>, y: seq<nat>, t: nat)
    ensures Without(x + y, t) == Without(x, t) + Without(y, t)
  {
    if x == [] {
      assert x + y == y;
    } else {
      WithoutConcat(x[1..], y, t);
      assert (x + y)[1..] == x[1..] + y;
      var head := if x[0] == t then [] else [x[0]];
      Assoc(head, Without(x[1..], t), Without(y, t));
    }
  }

  lemma {:induction false} WithoutDistinct(tags: seq<nat>, t: nat)
    requires Distinct(tags)
    ensures Distinct(Without(tags, t))
    ensures |Without(tags, t)| == if t in tags then |tags| - 1 else |tags|
  {
    if tags != [] {
      assert forall i :: 1 <= i < |tags| ==> tags[0] != tags[i];
      assert tags[0] !in tags[1..];
      WithoutDistinct(tags[1..], t);
      if tags[0] == t { WithoutAbsent(tags[1..], t); }
    }
  }

  lemma {:induction false} ByLastUseDistinct(history: seq<nat>)
    ensures Distinct(ByLastUse(history))
  {
    if history != [] { ByLastUseDistinct(history[1..]); }
  }

  /** Using a line once more moves it to the end. */
  lemma {:induction false} ByLastUseSnoc(history: seq<nat>, t: nat)
    ensures ByLastUse(history + [t]) == Without(ByLastUse(history), t) + [t]
  {
    if history == [] {
      assert history + [t] == [t];
    } else {
      ByLastUseSnoc(history[1..], t);
      SnocStep(history[0], history[1..], t);
      assert history == [history[0]] + history[1..];
    }
  }

  lemma SnocStep(h: nat, rest: seq<nat>, t: nat)
    requires ByLastUse(rest + [t]) == Without(ByLastUse(rest), t) + [t]
    ensures ByLastUse([h] + rest + [t]) == Without(ByLastUse([h] + rest), t) + [t]
  {
    hide ByLastUse, Without;
    assert [h] + rest + [t] == [h] + (rest + [t]);
    ByLastUseCons(h, rest);
    ByLastUseCons(h, rest + [t]);
    if h !in rest {
      WithoutCons(h, ByLastUse(rest), t);
      if h == t {
        WithoutAbsent(ByLastUse(rest), t);
      } else {
        Assoc([h], Without(ByLastUse(rest), t), [t]);
      }
    }
  }

  lemma ByLastUseCons(h: nat, rest: seq<nat>)
    ensures ByLastUse([h] + rest) == if h in rest then ByLastUse(rest) else [h] + ByLastUse(rest)
  {
    assert ([h] + rest)[1..] == rest;
  }

  lemma WithoutCons(h: nat, rest: seq<nat>, t: nat)
    ensures Without([h] + rest, t) == (if h == t then [] else [h]) + Without(rest, t)
  {
    assert ([h] + rest)[1..] == rest;
  }

  // ---------------------------------------------------------------- one access

  /** The tags of a set after one access, from the tags before. */
  function Use(tags: seq<nat>, t: nat): seq<nat> {
    LastFour(Without(tags, t) + [t])
  }

  lemma WithoutSplit(first: seq<nat>, last: seq<nat>, t: nat)
    requires Distinct(first + last)
    ensures Without(first + last, t) == if t in first then Without(first, t) + last else first + Without(last, t)
    ensures |Without(first, t)| == if t in first then |first| - 1 else |first|
    ensures |Without(last, t)| == if t in last then |last| - 1 else |last|
    ensures t in first ==> Without(last, t) == last
  {
    var d := first + last;
    assert Distinct(first) by { assert forall i :: 0 <= i < |first| ==> first[i] == d[i]; }
    assert Distinct(last) by { assert forall i :: 0 <= i < |last| ==> last[i] == d[|first| + i]; }
    WithoutConcat(first, last, t);
    WithoutDistinct(first, t);
    WithoutDistinct(last, t);
    if t in first {
      var j :| 0 <= j < |first| && first[j] == t;
      forall i | 0 <= i < |last| ensures last[i] != t { assert d[j] != d[|first| + i]; }
      WithoutAbsent(last, t);
    } else {
      WithoutAbsent(first, t);
    }
  }

  /** The last four by last use can be kept up to date from themselves alone. */
  lemma LastFourSuffices(d: seq<nat>, t: nat)
    requires Distinct(d)
    ensures Use(LastFour(d), t) == LastFour(Without(d, t) + [t])
  {
    hide Without, LastFour;
    var last := LastFour(d);
    var first := d[..|d| - |last|];
    LastFourIs(d);
    WithoutSplit(first, last, t);
    if t in first {
      LastFourOfConcat(Without(first, t), last + [t]);
      assert Without(d, t) + [t] == Without(first, t) + (last + [t]);
    } else {
      LastFourOfConcat(first, Without(last, t) + [t]);
      assert Without(d, t) + [t] == first + (Without(last, t) + [t]);
    }
  }

  lemma LastFourIs(d: seq<nat>)
    ensures |LastFour(d)| <= |d| && d == d[..|d| - |LastFour(d)|] + LastFour(d)
  {}

  lemma LastFourOfConcat(x: seq<nat>, y: seq<nat>)
    requires 4 <= |y| || x == []
    ensures LastFour(x + y) == LastFour(y)
  {
    if x == [] { assert x + y == y; }
  }

  lemma {:induction false} AllValidTags(ways: seq<Line>)
    requires ValidSuffix(ways) && ways != [] && ways[0].valid
    ensures |Tags(ways)| == |ways|
  {
    if |ways| > 1 {
      assert ways[1].valid && ValidSuffix(ways[1..]);
      AllValidTags(ways[1..]);
    }
  }

  lemma TagsOne(l: Line)
    requires l.valid
    ensures Tags([l]) == [l.tag]
  {
    assert [l][1..] == [];
  }

  lemma WithoutOne(t: nat)
    ensures Without([t], t) == []
  {}

  lemma WithoutMiddle(x: seq<nat>, y: seq<nat>, t: nat)
    requires t !in x && t !in y
    ensures Without(x + [t] + y, t) == x + y
  {
    hide Without;
    WithoutConcat(x + [t], y, t);
    WithoutConcat(x, [t], t);
    WithoutAbsent(x, t);
    WithoutAbsent(y, t);
    WithoutOne(t);
  }

  lemma HitUses(ways: seq<Line>, t: nat)
    requires |ways| == 4 && DistinctTags(ways) && FindWay(ways, t, 0).Some?
    ensures Tags(Rotate(ways, FindWay(ways, t, 0).value)) == Use(Tags(ways), t)
  {
    var p := FindWay(ways, t, 0).value;
    var a, l, b := ways[..p], ways[p], ways[p + 1..];
    assert ways == a + [l] + b;
    assert forall i :: 0 <= i < |a| ==> !Hits(a, t, i);
    forall i | 0 <= i < |b| ensures !Hits(b, t, i) { assert b[i] == ways[p + 1 + i]; }
    TagsExact(a, t);
    TagsExact(b, t);
    TagsOne(l);
    hide Tags, Without, FindWay;
    TagsConcat(a, [l]);
    TagsConcat(a + [l], b);
    TagsConcat(a, b);
    TagsConcat(a + b, [l]);
    WithoutMiddle(Tags(a), Tags(b), t);
  }

  lemma MissUses(ways: seq<Line>, t: nat, l: Line)
    requires |ways| == 4 && ValidSuffix(ways) && FindWay(ways, t, 0).None? && l.valid && l.tag == t
    ensures |Rotate(ways, 0)| == 4 && Tags(Rotate(ways, 0)[3 := l]) == Use(Tags(ways), t)
  {
    var rest := ways[1..];
    assert Rotate(ways, 0)[3 := l] == rest + [l];
    TagsConcat(rest, [l]);
    TagsOne(l);
    TagsExact(ways, t);
    TagsExact(rest, t);
    WithoutAbsent(Tags(ways), t);
    if ways[0].valid { AllValidTags(ways); }
  }

  /** One access updates the tags of its own set as `Use` says and no other set's. */
  lemma AccessUses(c: Cache, tag: nat, index: nat, s: nat)
    requires Inv(c) && index < 4 && s < 4 && LineStart(tag, index) + 4 <= |c.mem|
    ensures var d := Access(c, tag, index);
            |d.sets| == 4 && Tags(d.sets[s]) == if s == index then Use(Tags(c.sets[s]), tag) else Tags(c.sets[s])
  {
    hide Use, Tags, Rotate;
    SetLines(c, index);
    var ways, way := c.sets[index], FindWay(c.sets[index], tag, 0);
    if way.Some? {
      HitUses(ways, tag);
    } else {
      RotateAt(ways, 0);
      MissUses(ways, tag, Fetched(WriteBack(c.mem, Rotate(ways, 0)[3], index), tag, index));
    }
  }

  /** A store marks the youngest line dirty and touches no tag. */
  lemma PatchKeepsTags(c: Cache, index: nat, offset: nat, data: Word, mask: Word, s: nat)
    requires Patchable(c, index) && |c.sets| == 4 && offset < 4 && s < 4
    ensures Tags(PatchYoungest(c, index, offset, data, mask).sets[s]) == Tags(c.sets[s])
  {
    if s == index {
      var ways := c.sets[index];
      var l := Patched(ways[3], offset, data, mask);
      assert ways == ways[..3] + [ways[3]] && ways[3 := l] == ways[..3] + [l];
      TagsConcat(ways[..3], [ways[3]]);
      TagsConcat(ways[..3], [l]);
      assert [l][1..] == [] && [ways[3]][1..] == [];
    }
  }

  // ---------------------------------------------------------------- whole traces

  /** The lines of set `s` that a trace touches, in order. */
  function History(ops: seq<Op>, s: nat): seq<nat> {
    if ops == [] then []
    else (if Index(ops[0].addr) == s then [Tag(ops[0].addr)] else []) + History(ops[1..], s)
  }

  ghost function Step(c: Cache, op: Op): (d: Cache)
    requires Inv(c) && Legal(|c.mem|, [op])
    ensures Inv(d) && |d.mem| == |c.mem|
  {
    assert [op][0] == op;
    match op
    case Load(addr) => Touched(c, addr)
    case Store(addr, strobe, data) => StoreWritesView(c, addr, strobe, data); Stored(c, addr, strobe, data)
  }

  lemma StepUses(c: Cache, op: Op, s: nat)
    requires Inv(c) && Legal(|c.mem|, [op]) && s < 4
    ensures Tags(Step(c, op).sets[s]) ==
            if s == Index(op.addr) then Use(Tags(c.sets[s]), Tag(op.addr)) else Tags(c.sets[s])
  {
    assert [op][0] == op;
    LineInRange(c, op.addr);
    AccessUses(c, Tag(op.addr), Index(op.addr), s);
    if op.Store? {
      PatchKeepsTags(Touched(c, op.addr), Index(op.addr), Offset(op.addr), op.data, Mask(op.strobe), s);
    }
  }

  lemma HistoryUnfolds(ops: seq<Op>, s: nat)
    ensures ops == [] ==> History(ops, s) == []
    ensures ops != [] ==>
              History(ops, s) == (if Index(ops[0].addr) == s then [Tag(ops[0].addr)] else []) + History(ops[1..], s)
    ensures ops != [] && Index(ops[0].addr) != s ==> History(ops, s) == History(ops[1..], s)
  {}

  lemma CacheRunEnds(c: Cache)
    requires Inv(c)
    ensures Legal(|c.mem|, []) && CacheRun(c, []).state == c
  {}

  lemma CacheRunStep(c: Cache, ops: seq<Op>)
    requires Inv(c) && Legal(|c.mem|, ops) && ops != []
    ensures Legal(|c.mem|, [ops[0]]) && Legal(|Step(c, ops[0]).mem|, ops[1..])
    ensures CacheRun(c, ops).state == CacheRun(Step(c, ops[0]), ops[1..]).state
  {
    hide Inv, Touched, Stored, Loaded;
    assert [ops[0]][0] == ops[0];
  }

  /** If a set holds the last four lines of history `h`, then after `ops` it holds the last four of the
      history with what `ops` touched in that set appended. */
  lemma {:induction false} RunUses(c: Cache, ops: seq<Op>, s: nat, h: seq<nat>)
    requires Inv(c) && Legal(|c.mem|, ops) && s < 4
    requires Tags(c.sets[s]) == LastFour(ByLastUse(h))
    ensures Inv(CacheRun(c, ops).state)
    ensures Tags(CacheRun(c, ops).state.sets[s]) == LastFour(ByLastUse(h + History(ops, s)))
    decreases |ops|
  {
    hide Inv, Tags, Tag, Index, Legal, Use, LastFour, ByLastUse, CacheRun, History, Step;
    HistoryUnfolds(ops, s);
    if ops == [] {
      CacheRunEnds(c);
      assert h + [] == h;
    } else {
      var op, t := ops[0], Tag(ops[0].addr);
      CacheRunStep(c, ops);
      StepUses(c, op, s);
      if Index(op.addr) == s {
        UseAppends(h, t);
        RunUses(Step(c, op), ops[1..], s, h + [t]);
        assert h + [t] + History(ops[1..], s) == h + History(ops, s);
      } else {
        RunUses(Step(c, op), ops[1..], s, h);
      }
    }
  }

  lemma UseAppends(h: seq<nat>, t: nat)
    ensures Use(LastFour(ByLastUse(h)), t) == LastFour(ByLastUse(h + [t]))
  {
    ByLastUseDistinct(h);
    ByLastUseSnoc(h, t);
    LastFourSuffices(ByLastUse(h), t);
  }

  /** After any trace from reset, every set holds exactly the last four distinct lines touched in it,
      oldest first, in the ways that are valid; these are the last ways of the set. */
  lemma SetsHoldLastFour(mem: seq<Word>, ops: seq<Op>, s: nat)
    requires |mem| % 4 == 0 && Legal(|mem|, ops) && s < 4
    ensures Inv(Reset(mem)) && Inv(CacheRun(Reset(mem), ops).state)
    ensures var ways := CacheRun(Reset(mem), ops).state.sets[s];
            && Tags(ways) == LastFour(ByLastUse(History(ops, s)))
            && ValidSuffix(ways) && DistinctTags(ways)
  {
    ResetStandsForMemory(mem);
    var c := Reset(mem);
    assert c.sets[s] == EmptySet();
    assert Tags(c.sets[s]) == [] by {
      var e := EmptyLine();
      assert EmptySet()[1..] == [e, e, e] && [e, e, e][1..] == [e, e] && [e, e][1..] == [e] && [e][1..] == [];
    }
    hide Inv, Tags;
    RunUses(c, ops, s, []);
    assert [] + History(ops, s) == History(ops, s);
    SetLines(CacheRun(c, ops).state, s);
  }

  /** An access hits exactly if its line is among the last four distinct ones touched in its set. */
  lemma HitsAreTheLastFour(mem: seq<Word>, ops: seq<Op>, addr: nat)
    requires |mem| % 4 == 0 && Legal(|mem|, ops)
    ensures Inv(Reset(mem)) && Inv(CacheRun(Reset(mem), ops).state)
    ensures FindWay(CacheRun(Reset(mem), ops).state.sets[Index(addr)], Tag(addr), 0).Some?
        <==> Tag(addr) in LastFour(ByLastUse(History(ops, Index(addr))))
  {
    hide Inv, CacheRun, History, ByLastUse, LastFour, Tags;
    SetsHoldLastFour(mem, ops, Index(addr));
    SetLines(CacheRun(Reset(mem), ops).state, Index(addr));
    TagsExact(CacheRun(Reset(mem), ops).state.sets[Index(addr)], Tag(addr));
  }

  /** A valid line survives an access, unless it is the oldest of four valid ones and the access misses. */
  lemma NoEarlyEviction(c: Cache, tag: nat, index: nat, i: nat)
    requires Inv(c) && index < 4 && i < 4 && LineStart(tag, index) + 4 <= |c.mem|
    requires c.sets[index][i].valid
    ensures || c.sets[index][i].tag in Tags(Access(c, tag, index).sets[index])
            || (i == 0 && FindWay(c.sets[index], tag, 0).None? && forall k :: 0 <= k < 4 ==> c.sets[index][k].valid)
  {
    hide Tags;
    SetLines(c, index);
    var ways, d := c.sets[index], Access(c, tag, index);
    var l := ways[i];
    TagsExact(d.sets[index], l.tag);
    var way := FindWay(ways, tag, 0);
    RotateAt(ways, if way.Some? then way.value else 0);
    if way.Some? {
      var p := way.value;
      var j := if i < p then i else if i == p then 3 else i - 1;
      assert Hits(d.sets[index], l.tag, j);
    } else if 1 <= i {
      assert Hits(d.sets[index], l.tag, i - 1);
    }
  }
}
