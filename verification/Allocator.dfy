/** The allocator itself: header fields threaded through memory, changed in place. */
module Allocator {
  import opened Options
  import opened ArenaSpec
  import opened ArenaTheorems

  // ---------------------------------------------------------------- chains of headers

  /** The headers of `nodes`, in this order, are linked by `ptr`; the last one points at `target`. */
  ghost predicate Chain(nodes: seq<Span>, target: nat, ptr: map<nat, nat>, size: map<nat, nat>) {
    forall i :: 0 <= i < |nodes| ==>
      && nodes[i].addr in ptr && nodes[i].addr in size
      && size[nodes[i].addr] == nodes[i].len
      && ptr[nodes[i].addr] == NextAddr(nodes, i, target)
  }

  function NextAddr(nodes: seq<Span>, i: nat, target: nat): nat
    requires i < |nodes|
  {
    if i + 1 < |nodes| then nodes[i + 1].addr else target
  }

  ghost predicate NotIn(p: nat, nodes: seq<Span>) {
    forall i :: 0 <= i < |nodes| ==> nodes[i].addr != p
  }

  lemma ChainConcat(x: seq<Span>, y: seq<Span>, target: nat, ptr: map<nat, nat>, size: map<nat, nat>)
    requires y != []
    ensures Chain(x + y, target, ptr, size) <==> Chain(x, y[0].addr, ptr, size) && Chain(y, target, ptr, size)
  {
    var z := x + y;
    forall i | 0 <= i < |x| ensures z[i] == x[i] && NextAddr(z, i, target) == NextAddr(x, i, y[0].addr) {}
    forall i | 0 <= i < |y|
      ensures z[|x| + i] == y[i] && NextAddr(z, |x| + i, target) == NextAddr(y, i, target) {}
    if Chain(z, target, ptr, size) {
      forall i | 0 <= i < |y|
        ensures && y[i].addr in ptr && y[i].addr in size
                && size[y[i].addr] == y[i].len && ptr[y[i].addr] == NextAddr(y, i, target)
      {
        assert z[|x| + i] == y[i];
      }
    }
  }

  lemma ChainFrame(nodes: seq<Span>, target: nat, ptr: map<nat, nat>, size: map<nat, nat>, p: nat, t: nat, n: nat)
    requires Chain(nodes, target, ptr, size) && NotIn(p, nodes)
    ensures Chain(nodes, target, ptr[p := t], size[p := n])
  {}

  lemma ChainOne(s: Span, target: nat, ptr: map<nat, nat>, size: map<nat, nat>)
    requires s.addr in ptr && s.addr in size && size[s.addr] == s.len && ptr[s.addr] == target
    ensures Chain([s], target, ptr, size)
  {}

  /** A header in front of a chain that does not contain it. */
  lemma ChainPrepend(s: Span, rest: seq<Span>, target: nat, ptr: map<nat, nat>, size: map<nat, nat>)
    requires Chain(rest, target, ptr, size) && NotIn(s.addr, rest)
    ensures Chain([s] + rest, target,
                  ptr[s.addr := if rest == [] then target else rest[0].addr], size[s.addr := s.len])
  {
    hide Chain, NotIn;
    var t := if rest == [] then target else rest[0].addr;
    var ptr', size' := ptr[s.addr := t], size[s.addr := s.len];
    ChainOne(s, t, ptr', size');
    if rest == [] {
      assert [s] + rest == [s];
    } else {
      ChainFrame(rest, target, ptr, size, s.addr, t, s.len);
      ChainConcat([s], rest, target, ptr', size');
    }
  }

  lemma ChainRest(above: seq<Span>, target: nat, ptr: map<nat, nat>, size: map<nat, nat>)
    requires above != [] && Chain(above, target, ptr, size)
    ensures Chain(above[1..], target, ptr, size)
  {
    if |above| > 1 {
      assert above == above[..1] + above[1..];
      ChainConcat(above[..1], above[1..], target, ptr, size);
    }
  }

  lemma NotInRest(p: nat, above: seq<Span>)
    requires above != [] && NotIn(p, above)
    ensures NotIn(p, above[1..])
  {}

  lemma ChainSwallow(s: Span, above: seq<Span>, target: nat, ptr: map<nat, nat>, size: map<nat, nat>)
    requires above != [] && Chain(above, target, ptr, size) && NotIn(s.addr, above)
    ensures Chain([Span(s.addr, s.len + above[0].len)] + above[1..], target,
                  ptr[s.addr := NextAddr(above, 0, target)], size[s.addr := s.len + above[0].len])
  {
    hide Chain, NotIn;
    ChainRest(above, target, ptr, size);
    NotInRest(s.addr, above);
    ChainPrepend(Span(s.addr, s.len + above[0].len), above[1..], target, ptr, size);
  }

  /** The right half of `free`: block `p` takes over the link, and the units of the span it touches. */
  lemma ChainJoinRight(s: Span, above: seq<Span>, target: nat, ptr: map<nat, nat>, size: map<nat, nat>)
    requires Chain(above, target, ptr, size) && NotIn(s.addr, above)
    ensures var r := JoinRight(s, above);
            Chain(r, target, ptr[s.addr := NextAddr(r, 0, target)], size[s.addr := r[0].len])
  {
    hide Chain, NotIn;
    if above != [] && s.End() == above[0].addr {
      ChainSwallow(s, above, target, ptr, size);
    } else {
      ChainPrepend(s, above, target, ptr, size);
    }
  }

  /** The left half of `free`: the node below is linked to the block, or swallows it. */
  lemma ChainJoinLeft(init: seq<Span>, last: Span, above: seq<Span>, target: nat, ptr: map<nat, nat>, size: map<nat, nat>)
    requires above != []
    requires Chain(init, last.addr, ptr, size) && Chain(above, target, ptr, size)
    requires last.addr in size && size[last.addr] == last.len
    requires NotIn(last.addr, init) && NotIn(last.addr, above)
    ensures var touch := last.End() == above[0].addr;
            Chain(JoinLeft(init + [last], above), target,
                  ptr[last.addr := if touch then NextAddr(above, 0, target) else above[0].addr],
                  size[last.addr := if touch then last.len + above[0].len else last.len])
  {
    hide Chain, NotIn;
    var touch := last.End() == above[0].addr;
    var t := if touch then NextAddr(above, 0, target) else above[0].addr;
    var n := if touch then last.len + above[0].len else last.len;
    var ptr', size' := ptr[last.addr := t], size[last.addr := n];
    var tail := if touch then above[1..] else above;
    assert above == [above[0]] + above[1..];
    assert JoinLeft(init + [last], above) == init + ([Span(last.addr, n)] + tail);
    ChainFrame(init, last.addr, ptr, size, last.addr, t, n);
    ChainFrame(above, target, ptr, size, last.addr, t, n);
    ChainOne(Span(last.addr, n), t, ptr', size');
    if tail == [] {
      assert [Span(last.addr, n)] + tail == [Span(last.addr, n)];
    } else {
      if touch { ChainConcat([above[0]], above[1..], target, ptr', size'); }
      ChainConcat([Span(last.addr, n)], tail, target, ptr', size');
    }
    ChainConcat(init, [Span(last.addr, n)] + tail, target, ptr', size');
  }

  // ---------------------------------------------------------------- the link updates of free and malloc

  datatype Links = Links(ptr: map<nat, nat>, size: map<nat, nat>)

  ghost predicate Linked(nodes: seq<Span>, m: Links) {
    0 < |nodes| && Chain(nodes, nodes[0].addr, m.ptr, m.size)
  }

  /** Block `p` in front of `next`, joined with it if they touch. */
  function JoinNext(m: Links, p: nat, next: nat): Links
    requires p in m.size && next in m.ptr && next in m.size
  {
    if p + m.size[p] == next then Links(m.ptr[p := m.ptr[next]], m.size[p := m.size[p] + m.size[next]])
    else m.(ptr := m.ptr[p := next])
  }

  /** Node `q` in front of block `p`, joined with it if they touch. */
  function JoinPrev(m: Links, q: nat, p: nat): Links
    requires p in m.ptr && p in m.size && q in m.size
  {
    if q + m.size[q] == p then Links(m.ptr[q := m.ptr[p]], m.size[q := m.size[q] + m.size[p]])
    else m.(ptr := m.ptr[q := p])
  }

  /** The two joins of `free`, in the order the code makes them. */
  function FreeLinks(m: Links, q: nat, p: nat): Links
    requires p in m.size && q in m.size && q in m.ptr && m.ptr[q] in m.ptr && m.ptr[q] in m.size
  {
    JoinPrev(JoinNext(m, p, m.ptr[q]), q, p)
  }

  lemma LinkedJoinNext(s: Span, above: seq<Span>, base: nat, m: Links)
    requires Chain(above, base, m.ptr, m.size) && NotIn(s.addr, above) && base < s.addr
    requires base in m.ptr && base in m.size
    requires s.addr in m.size && m.size[s.addr] == s.len
    ensures var next := if above == [] then base else above[0].addr;
            var m1 := JoinNext(m, s.addr, next);
            var r := JoinRight(s, above);
            && Chain(r, base, m1.ptr, m1.size)
            && m1.ptr == m.ptr[s.addr := NextAddr(r, 0, base)]
            && m1.size == m.size[s.addr := r[0].len]
  {
    var r := JoinRight(s, above);
    ChainJoinRight(s, above, base, m.ptr, m.size);
    assert m.size[s.addr := s.len] == m.size;
    if above != [] && s.End() == above[0].addr {
      assert NextAddr(r, 0, base) == NextAddr(above, 0, base);
    }
  }

  /** A circle taken apart around one of its nodes. */
  lemma LinkedSplit(init: seq<Span>, node: Span, above: seq<Span>, m: Links)
    requires Linked(init + [node] + above, m)
    ensures var base := (init + [node])[0].addr;
            && Chain(init, node.addr, m.ptr, m.size) && Chain(above, base, m.ptr, m.size)
            && node.addr in m.ptr && node.addr in m.size && m.size[node.addr] == node.len
            && m.ptr[node.addr] == (if above == [] then base else above[0].addr)
            && m.ptr[node.addr] in m.ptr && m.ptr[node.addr] in m.size
  {
    var base := (init + [node])[0].addr;
    var nodes := init + [node] + above;
    assert nodes[0].addr == base && nodes[|init|] == node;
    assert nodes == init + ([node] + above);
    ChainConcat(init, [node] + above, base, m.ptr, m.size);
    if above != [] {
      assert nodes[|init| + 1] == above[0];
      ChainConcat([node], above, base, m.ptr, m.size);
    }
  }

  lemma LinkedJoinPrev(init: seq<Span>, last: Span, r: seq<Span>, base: nat, m: Links)
    requires r != [] && Chain(init, last.addr, m.ptr, m.size) && Chain(r, base, m.ptr, m.size)
    requires last.addr in m.size && m.size[last.addr] == last.len && base == (init + [last])[0].addr
    requires NotIn(last.addr, init) && NotIn(last.addr, r)
    ensures Linked(JoinLeft(init + [last], r), JoinPrev(m, last.addr, r[0].addr))
  {
    ChainJoinLeft(init, last, r, base, m.ptr, m.size);
    assert m.size[last.addr := last.len] == m.size;
    assert JoinLeft(init + [last], r)[0].addr == base;
    assert m.size[r[0].addr] == r[0].len && m.ptr[r[0].addr] == NextAddr(r, 0, base);
  }

  /** Both halves together: the circle with span `s` inserted behind node `last`. */
  lemma LinkedInsert(init: seq<Span>, last: Span, above: seq<Span>, s: Span, m: Links)
    requires Linked(init + [last] + above, m)
    requires NotIn(last.addr, init) && NotIn(last.addr, above)
    requires NotIn(s.addr, init) && NotIn(s.addr, above) && s.addr != last.addr
    requires (init + [last])[0].addr < s.addr
    requires s.addr in m.size && m.size[s.addr] == s.len
    ensures && last.addr in m.ptr && last.addr in m.size
            && m.ptr[last.addr] in m.ptr && m.ptr[last.addr] in m.size
            && Linked(JoinLeft(init + [last], JoinRight(s, above)),
                      FreeLinks(m, last.addr, s.addr))
  {
    var base := (init + [last])[0].addr;
    LinkedSplit(init, last, above, m);
    assert base in m.ptr && base in m.size by {
      assert (init + [last] + above)[0].addr == base;
    }
    LinkedJoinNext(s, above, base, m);
    var m1, r := JoinNext(m, s.addr, m.ptr[last.addr]), JoinRight(s, above);
    ChainFrame(init, last.addr, m.ptr, m.size, s.addr, NextAddr(r, 0, base), r[0].len);
    NotInJoinRight(last.addr, s, above);
    LinkedJoinPrev(init, last, r, base, m1);
  }

  lemma NotInJoinRight(q: nat, s: Span, above: seq<Span>)
    requires NotIn(q, above) && q != s.addr
    ensures NotIn(q, JoinRight(s, above))
  {
    var r := JoinRight(s, above);
    assert forall i :: 1 <= i < |r| ==> r[i] in above;
  }

  lemma UnlinkNext(init: seq<Span>, node: Span, above: seq<Span>, m: Links)
    requires init != [] && Chain(init, node.addr, m.ptr, m.size) && Chain(above, init[0].addr, m.ptr, m.size)
    requires node.addr in m.ptr && m.ptr[node.addr] == (if above == [] then init[0].addr else above[0].addr)
    requires NotIn(init[|init| - 1].addr, above) && NotIn(init[|init| - 1].addr, init[..|init| - 1])
    ensures Linked(init + above, m.(ptr := m.ptr[init[|init| - 1].addr := m.ptr[node.addr]]))
  {
    var t := |init| - 1;
    var first, last := init[..t], init[t];
    var next := m.ptr[node.addr];
    var ptr' := m.ptr[last.addr := next];
    assert init == first + [last];
    ChainConcat(first, [last], node.addr, m.ptr, m.size);
    assert m.size[last.addr := m.size[last.addr]] == m.size;
    ChainFrame(first, last.addr, m.ptr, m.size, last.addr, next, m.size[last.addr]);
    ChainFrame(above, init[0].addr, m.ptr, m.size, last.addr, next, m.size[last.addr]);
    ChainOne(last, next, ptr', m.size);
    ChainConcat(first, [last], next, ptr', m.size);
    if above == [] {
      assert init + above == init;
    } else {
      ChainConcat(init, above, init[0].addr, ptr', m.size);
    }
  }

  lemma AddressesDiffer(nodes: seq<Span>, k: nat)
    requires Ordered(nodes) && k < |nodes|
    ensures NotIn(nodes[k].addr, nodes[..k]) && NotIn(nodes[k].addr, nodes[k + 1..])
    ensures forall i :: 0 <= i < k ==> nodes[i].addr < nodes[k].addr
  {
    forall i | 0 <= i < |nodes| && i != k
      ensures nodes[i].addr != nodes[k].addr && (i < k ==> nodes[i].addr < nodes[k].addr)
    {
      assert i < k ==> nodes[i].End() < nodes[k].addr;
      assert k < i ==> nodes[k].End() < nodes[i].addr;
    }
  }

  lemma CircleInsert(nodes: seq<Span>, k: nat, s: Span, m: Links)
    requires Linked(nodes, m) && Ordered(nodes) && k < |nodes|
    requires NotIn(s.addr, nodes) && nodes[0].addr < s.addr
    requires s.addr in m.size && m.size[s.addr] == s.len
    ensures && nodes[k].addr in m.ptr && nodes[k].addr in m.size
            && m.ptr[nodes[k].addr] in m.ptr && m.ptr[nodes[k].addr] in m.size
            && Linked(Insert(nodes, k, s),
                      FreeLinks(m, nodes[k].addr, s.addr))
  {
    SplitAt(nodes, k);
    AddressesDiffer(nodes, k);
    assert nodes[..k + 1] == nodes[..k] + [nodes[k]];
    LinkedInsert(nodes[..k], nodes[k], nodes[k + 1..], s, m);
  }

  lemma PrevDiffers(nodes: seq<Span>, i: nat)
    requires Ordered(nodes) && 1 <= i < |nodes|
    ensures var init := nodes[..i];
            && init[|init| - 1] == nodes[i - 1]
            && NotIn(nodes[i - 1].addr, nodes[i + 1..]) && NotIn(nodes[i - 1].addr, init[..|init| - 1])
  {
    AddressesDiffer(nodes, i - 1);
    assert nodes[..i][..i - 1] == nodes[..i - 1];
    var above := nodes[i + 1..];
    forall j | 0 <= j < |above| ensures above[j].addr != nodes[i - 1].addr {
      assert above[j] == nodes[i..][j + 1];
    }
  }

  /** `malloc` unlinking node `i`, which fits exactly. */
  lemma CircleUnlink(nodes: seq<Span>, i: nat, m: Links)
    requires Linked(nodes, m) && Ordered(nodes) && 1 <= i < |nodes|
    ensures nodes[i].addr in m.ptr
    ensures Linked(Cut(nodes, i, nodes[i].len), m.(ptr := m.ptr[nodes[i - 1].addr := m.ptr[nodes[i].addr]]))
  {
    SplitAt(nodes, i);
    LinkedSplit(nodes[..i], nodes[i], nodes[i + 1..], m);
    assert (nodes[..i] + [nodes[i]])[0] == nodes[..i][0];
    PrevDiffers(nodes, i);
    UnlinkNext(nodes[..i], nodes[i], nodes[i + 1..], m);
  }

  /** `malloc` taking the tail of node `i`. */
  lemma CircleShorten(nodes: seq<Span>, i: nat, n: nat, m: Links)
    requires Linked(nodes, m) && Ordered(nodes) && 1 <= i < |nodes| && n < nodes[i].len
    ensures nodes[i].addr in m.ptr && nodes[i].addr in m.size && m.size[nodes[i].addr] == nodes[i].len
    ensures Linked(Cut(nodes, i, n), m.(size := m.size[nodes[i].addr := nodes[i].len - n]))
  {
    var r, size' := Cut(nodes, i, n), m.size[nodes[i].addr := nodes[i].len - n];
    AddressesDiffer(nodes, i);
    forall j | 0 <= j < |r|
      ensures && r[j].addr in m.ptr && r[j].addr in size'
              && size'[r[j].addr] == r[j].len && m.ptr[r[j].addr] == NextAddr(r, j, r[0].addr)
    {
      assert nodes[j].addr in m.ptr && NextAddr(r, j, r[0].addr) == NextAddr(nodes, j, nodes[0].addr);
      assert j < i ==> nodes[..i][j] == nodes[j];
      assert i < j ==> nodes[i + 1..][j - i - 1] == nodes[j];
    }
  }

  /** The exit test of the search loop in `free` holds at exactly one node: the one below the block. */
  lemma SearchStopsBelow(nodes: seq<Span>, p: nat, i: nat, q: nat, next: nat)
    requires Ordered(nodes) && i < |nodes| && nodes[0].addr < p && NotIn(p, nodes)
    requires q == nodes[i].addr && next == nodes[Succ(nodes, i)].addr
    ensures (p > q && p < next) || (q >= next && (p > q || p < next)) <==> i == Below(nodes, p)
  {
    var k := Below(nodes, p);
    if i != k {
      var lo, hi := if i < k then i else k, if i < k then k else i;
      assert nodes[lo].End() < nodes[hi].addr;
    }
    if i + 1 < |nodes| {
      Gap(nodes, i);
      if i + 1 != k && i < k { assert nodes[i + 1].End() < nodes[k].addr; }
    } else if i != 0 {
      assert nodes[0].End() < nodes[i].addr;
    }
    if k < i && k + 1 < i { assert nodes[k + 1].End() < nodes[i].addr; }
  }

  // ---------------------------------------------------------------- the allocator

  ghost predicate LiveHeaders(live: map<nat, nat>, size: map<nat, nat>) {
    forall a :: a in live ==> a in size && size[a] == live[a]
  }

  /** The headers in memory and `allocp` spell out the abstract arena. */
  ghost predicate Threads(a: Arena, m: Links, allocp: nat) {
    && a.rover < |a.nodes| && allocp == a.nodes[a.rover].addr
    && Linked(a.nodes, m)
    && LiveHeaders(a.live, m.size)
  }

  /** What the two joins of `free` do to memory is what `Release` does to the arena. */
  lemma ReleaseThreads(a: Arena, p: nat, m: Links)
    requires Inv(a) && p in a.live && Linked(a.nodes, m) && LiveHeaders(a.live, m.size)
    ensures a.nodes[0].addr < p
    ensures var q := a.nodes[Below(a.nodes, p)].addr;
            && p != q && p in m.size && q in m.size && q in m.ptr && m.ptr[q] in m.ptr && m.ptr[q] in m.size
            && Threads(Release(a, p), FreeLinks(m, q, p), q)
            && Release(a, p).nodes[0].addr == a.nodes[0].addr
  {
    FreedIsNoNode(a, p);
    var k := Below(a.nodes, p);
    var s := Span(p, a.live[p]);
    NodesAreNotLive(a, k);
    CircleInsert(a.nodes, k, s, m);
    InsertKeepsNode(a.nodes, k, s);
    ReleaseHeaders(a.live, p, a.nodes[k].addr, m);
  }

  lemma ReleaseHeaders(live: map<nat, nat>, p: nat, q: nat, m: Links)
    requires LiveHeaders(live, m.size) && p in live && q !in live
    requires q in m.size && q in m.ptr && m.ptr[q] in m.ptr && m.ptr[q] in m.size
    ensures LiveHeaders(live - {p}, FreeLinks(m, q, p).size)
  {}

  const NULL: nat := 0

  /** The state between calls, once the free list exists; `membase` is a byte address. */
  ghost predicate Represents(a: Arena, m: Links, allocp: nat, base: nat, membase: nat) {
    && Inv(a) && a.brk <= ADDRESS_UNITS
    && (!a.spent ==> membase == BreakBytes(a.brk))
    && NULL < base == a.nodes[0].addr
    && Threads(a, m, allocp)
  }

  /** The addresses `free` adds up and compares lie inside the address space. */
  ghost predicate NoWrap(m: Links, q: nat, p: nat) {
    && p in m.size && q in m.size && q in m.ptr
    && 0 < p < ADDRESS_UNITS && p + m.size[p] <= ADDRESS_UNITS
    && 0 < m.ptr[q] < ADDRESS_UNITS && q + m.size[q] <= ADDRESS_UNITS
  }

  lemma NodeAddressable(a: Arena, i: nat)
    requires Inv(a) && a.brk <= ADDRESS_UNITS && 0 < a.nodes[0].addr && i < |a.nodes|
    ensures 0 < a.nodes[i].addr < ADDRESS_UNITS && a.nodes[i].End() <= ADDRESS_UNITS
  {
    assert 0 < i ==> Inside(a.nodes[i], a.lo, a.brk);
  }

  lemma ReleaseNoWrap(a: Arena, p: nat, m: Links)
    requires Inv(a) && a.brk <= ADDRESS_UNITS && 0 < a.nodes[0].addr < p && p in a.live
    requires Linked(a.nodes, m) && LiveHeaders(a.live, m.size)
    ensures NoWrap(m, a.nodes[Below(a.nodes, p)].addr, p)
  {
    var k := Below(a.nodes, p);
    Visit(a, k, m);
    assert m.size[a.nodes[k].addr] == a.nodes[k].len;
    hide Inv, Linked, Below;
    NodeAddressable(a, k);
    NodeAddressable(a, Succ(a.nodes, k));
    LiveAddressable(a, p);
  }

  lemma LiveAddressable(a: Arena, p: nat)
    requires Inv(a) && a.brk <= ADDRESS_UNITS && p in a.live
    ensures 1 <= a.live[p] && p + a.live[p] <= ADDRESS_UNITS
  {}

  lemma ReleaseRepresents(a: Arena, p: nat, m: Links, allocp: nat, base: nat, membase: nat)
    requires Represents(a, m, allocp, base, membase) && p in a.live
    ensures a.nodes[0].addr < p
    ensures var q := a.nodes[Below(a.nodes, p)].addr;
            && p != q && p in m.size && q in m.size && q in m.ptr && m.ptr[q] in m.ptr && m.ptr[q] in m.size
            && NoWrap(m, q, p)
            && Represents(Release(a, p), FreeLinks(m, q, p), q, base, membase)
            && q != NULL
  {
    AddressesDiffer(a.nodes, Below(a.nodes, p));
    ReleaseThreads(a, p, m);
    ReleaseNoWrap(a, p, m);
    ReleaseKeepsInv(a, p);
  }

  lemma ExtendHeaders(live: map<nat, nat>, size: map<nat, nat>, p: nat, n: nat)
    requires LiveHeaders(live, size)
    ensures LiveHeaders(live[p := n], size[p := n])
  {}

  lemma ExtendRepresents(a: Arena, n: nat, m: Links, allocp: nat, base: nat, membase: nat)
    requires Represents(a, m, allocp, base, membase) && 1 <= n && !a.spent && a.brk + CoreUnits(n) <= ADDRESS_UNITS
    ensures Represents(Extend(a, n), m.(size := m.size[a.brk := CoreUnits(n)]), allocp, base,
                       BreakBytes(a.brk + CoreUnits(n)))
  {
    hide Inv, Linked, LiveHeaders, CoreUnits, NotIn, BreakBytes;
    CoreIsNoNode(a);
    ExtendKeepsInv(a, n);
    ExtendHeaders(a.live, m.size, a.brk, CoreUnits(n));
    LinkedFrame(a.nodes, m, a.brk, CoreUnits(n));
  }

  /** Only at the end of the address space is the break, as a 32-bit number, the null pointer. */
  lemma BreakIsZero(a: Arena, m: Links, allocp: nat, base: nat, membase: nat)
    requires Represents(a, m, allocp, base, membase) && !a.spent
    ensures Shape(a) && 0 < a.brk <= ADDRESS_UNITS && membase == BreakBytes(a.brk)
    ensures membase == NULL <==> a.brk == ADDRESS_UNITS
    ensures a.brk < ADDRESS_UNITS ==> membase / HEADER_BYTES == a.brk
  {}

  /** A refusal moves `membase` to no good, and nothing else. */
  lemma RefuseRepresents(a: Arena, m: Links, allocp: nat, base: nat, membase: nat, moved: nat)
    requires Represents(a, m, allocp, base, membase)
    ensures Represents(a.(spent := true), m, allocp, base, moved)
  {}

  lemma CarveRepresents(a: Arena, i: nat, n: nat, m: Links, allocp: nat, base: nat, membase: nat)
    requires Represents(a, m, allocp, base, membase)
    requires 1 <= i < |a.nodes| && 1 <= n <= a.nodes[i].len
    ensures var p, q := a.nodes[i].addr, a.nodes[i - 1].addr;
            && p in m.ptr && p in m.size && m.size[p] == a.nodes[i].len
            && Represents(Carve(a, i, n), TakeLinks(m, q, p, n), q, base, membase)
            && q != NULL
    ensures a.nodes[i].End() <= ADDRESS_UNITS
  {
    CarveThreads(a, i, n, m);
    AddressesDiffer(a.nodes, i - 1);
    NodeAddressable(a, i);
    CarveKeepsInv(a, i, n);
  }

  /** An `int` argument holding these 32 bits. */
  function AsInt(x: nat): int {
    if x < SIZE_LIMIT / 2 then x else x - SIZE_LIMIT
  }

  /** That `sbrk` takes the size as a signed number makes no difference to the address. */
  lemma SbrkMoves(brk: nat, n: nat)
    ensures (BreakBytes(brk) + AsInt(CoreBytes(n))) % SIZE_LIMIT == (BreakBytes(brk) + CoreBytes(n)) % SIZE_LIMIT
  {
    var x := BreakBytes(brk) + CoreBytes(n);
    assert (x - SIZE_LIMIT) % SIZE_LIMIT == x % SIZE_LIMIT;
  }

  /** The list is one circle in address order: every node links to a higher address, except the topmost one,
      which links back to the sentinel. */
  lemma OneWrapLink(a: Arena, m: Links, allocp: nat, base: nat, membase: nat, i: nat)
    requires Represents(a, m, allocp, base, membase) && i < |a.nodes|
    ensures a.nodes[i].addr in m.ptr
    ensures m.ptr[a.nodes[i].addr] == a.nodes[Succ(a.nodes, i)].addr
    ensures m.ptr[a.nodes[i].addr] <= a.nodes[i].addr <==> i + 1 == |a.nodes|
    ensures i + 1 == |a.nodes| ==> m.ptr[a.nodes[i].addr] == base
  {
    if i + 1 < |a.nodes| { Gap(a.nodes, i); } else if 0 < i { AddressesDiffer(a.nodes, i); }
  }

  /** Address `x` lies in the payload of some live block, behind its header. */
  ghost predicate InPayload(live: map<nat, nat>, x: nat) {
    exists q :: q in live && q < x < q + live[q]
  }

  lemma UnitsInPayload(live: map<nat, nat>, p: nat, n: nat, ap: nat)
    requires p in live && live[p] == n && ap == p + 1
    ensures forall x :: ap <= x < ap + n - 1 ==> InPayload(live, x)
  {
    forall x | ap <= x < ap + n - 1 ensures InPayload(live, x) {
      assert p in live && p < x < p + live[p];
    }
  }

  lemma ServedIsAllocated(a: Arena, n: nat)
    requires Inv(a) && 1 <= n && Serves(a, n)
    ensures BlockAt(a, n) !in a.live && Reply(a, n).live == a.live[BlockAt(a, n) := n]
  {
    hide Inv, Serves, BlockAt, Allocate;
    AllocateKeepsInv(a, n);
  }

  lemma BlockAddressable(a: Arena, n: nat)
    requires Inv(a) && a.brk <= ADDRESS_UNITS && 1 <= n && Serves(a, n)
    ensures BlockAt(a, n) + n <= ADDRESS_UNITS
  {
    hide Inv, BlockAt, Allocate, Reply;
    ReplyKeepsInv(a, n);
    ServedIsAllocated(a, n);
    LiveAddressable(Reply(a, n), BlockAt(a, n));
  }

  /** The address one unit behind the header of a new block is the first of its payload. */
  lemma ReturnedAddress(a: Arena, n: nat, ap: nat)
    requires Inv(a) && a.brk <= ADDRESS_UNITS && 1 <= n && Serves(a, n)
    requires ap == (BlockAt(a, n) + 1) % ADDRESS_UNITS
    ensures 2 <= n ==>
              && 1 <= ap && ap - 1 !in a.live
              && Reply(a, n).live == a.live[ap - 1 := n]
              && forall x :: ap <= x < ap + n - 1 ==> InPayload(Reply(a, n).live, x)
  {
    hide Inv, Serves, InPayload, Allocate, BlockAt, Reply;
    if 2 <= n {
      ServedIsAllocated(a, n);
      BlockAddressable(a, n);
      UnitsInPayload(Reply(a, n).live, BlockAt(a, n), n, ap);
    }
  }

  /** Callers may overwrite every unit of their payloads: the allocator reads no header there. */
  lemma PayloadWritesAreHarmless(a: Arena, m: Links, w: Links, allocp: nat, base: nat, membase: nat)
    requires Represents(a, m, allocp, base, membase)
    requires forall x :: x in m.ptr && !InPayload(a.live, x) ==> x in w.ptr && w.ptr[x] == m.ptr[x]
    requires forall x :: x in m.size && !InPayload(a.live, x) ==> x in w.size && w.size[x] == m.size[x]
    ensures Represents(a, w, allocp, base, membase)
  {
    forall i | 0 <= i < |a.nodes| ensures !InPayload(a.live, a.nodes[i].addr) {
      NodeOutsidePayloads(a, i);
    }
    forall p | p in a.live ensures !InPayload(a.live, p) {}
  }

  lemma NodeOutsidePayloads(a: Arena, i: nat)
    requires Inv(a) && i < |a.nodes|
    ensures !InPayload(a.live, a.nodes[i].addr)
  {
    forall q | q in a.live ensures !(q < a.nodes[i].addr < q + a.live[q]) {
      assert AllApart(a.nodes, q, a.live[q]);
      assert Apart(a.nodes[i], q, a.live[q]);
    }
  }

  class Allocator {
    const base: nat
    var ptr: map<nat, nat>
    var size: map<nat, nat>
    var allocp: nat
    /** A byte address; all other addresses count header units. */
    var membase: nat
    ghost var arena: Arena

    ghost predicate Valid()
      reads this
    {
      if allocp == NULL then
        && NULL < base < arena.brk <= ADDRESS_UNITS
        && arena == Initial(base, arena.brk) && membase == BreakBytes(arena.brk)
      else Represents(arena, Links(ptr, size), allocp, base, membase)
    }

    constructor (base: nat, start: nat)
      requires NULL < base < start <= ADDRESS_UNITS
      ensures Valid() && allocp == NULL && arena == Initial(base, start)
    {
      this.base, this.membase := base, BreakBytes(start);
      allocp, ptr, size := NULL, map[], map[];
      arena := Initial(base, start);
    }

    /** `sbrk`, on 32-bit addresses. */
    method Sbrk(bytes: int) returns (p: nat)
      modifies this`membase
      ensures p == old(membase) && membase == (old(membase) + bytes) % SIZE_LIMIT
    {
      p := membase;
      membase := (membase + bytes) % SIZE_LIMIT;
    }

    /** The search loop of `free`: the node below the block at `p`, starting from `allocp`. */
    method FindBelow(p: nat) returns (q: nat)
      requires Valid() && allocp != NULL && p in arena.live
      ensures arena.nodes[0].addr < p && q == arena.nodes[Below(arena.nodes, p)].addr
    {
      ghost var nodes := arena.nodes;
      FreedIsNoNode(arena, p);
      ghost var k := Below(nodes, p);
      ghost var i: nat := arena.rover;
      q := allocp;
      while !(p > q && p < ptr[q])
        invariant i < |nodes| && q == nodes[i].addr
        decreases if i <= k then k - i else |nodes| - i + k
      {
        SearchStopsBelow(nodes, p, i, q, ptr[q]);
        if q >= ptr[q] && (p > q || p < ptr[q]) {
          break;
        }
        q := ptr[q];
        i := Succ(nodes, i);
      }
      SearchStopsBelow(nodes, p, i, q, ptr[q]);
    }

    /** The rest of `free`: block `p` is linked behind node `q`, joining whichever neighbour it touches. */
    method Coalesce(p: nat, q: nat)
      requires p in size && q in size && q in ptr && ptr[q] in ptr && ptr[q] in size && p != q
      requires NoWrap(Links(ptr, size), q, p)
      modifies this`ptr, this`size
      ensures Links(ptr, size) == old(FreeLinks(Links(ptr, size), q, p))
    {
      var next := ptr[q];
      if (p + size[p]) % ADDRESS_UNITS == next {
        size := size[p := size[p] + size[next]];
        ptr := ptr[p := ptr[next]];
      } else {
        ptr := ptr[p := next];
      }
      if (q + size[q]) % ADDRESS_UNITS == p {
        size := size[q := size[q] + size[p]];
        ptr := ptr[q := ptr[p]];
      } else {
        ptr := ptr[q := p];
      }
    }

    /** `free`: the block whose header is one unit below `ap` goes back between its neighbours in address order,
        coalesced with both. */
    method Free(ap: nat)
      requires Valid() && allocp != NULL && (ap + ADDRESS_UNITS - 1) % ADDRESS_UNITS in arena.live
      modifies this`ptr, this`size, this`allocp, this`arena
      ensures Valid() && allocp != NULL
      ensures var p := (ap + ADDRESS_UNITS - 1) % ADDRESS_UNITS;
              old(arena.nodes[0].addr) < p && arena == Release(old(arena), p)
      ensures 1 <= ap < ADDRESS_UNITS ==> ap - 1 in old(arena.live) && arena.live == old(arena.live) - {ap - 1}
    {
      hide Inv, Linked, LiveHeaders, Release, NoWrap;
      InvConserves(arena);
      var p := (ap + ADDRESS_UNITS - 1) % ADDRESS_UNITS;
      var q := FindBelow(p);
      ReleaseRepresents(arena, p, Links(ptr, size), allocp, base, membase);
      ReleaseLive(arena, p);
      Coalesce(p, q);
      allocp := q;
      arena := Release(arena, p);
    }

    /** `morecore`: takes at least `nu` units from `sbrk` and frees them as one block; the null pointer when the
        break is the end of the address space, that is 0. */
    method Morecore(nu: nat) returns (r: nat)
      requires Valid() && allocp != NULL && 1 <= nu && !arena.spent
      requires arena.brk == ADDRESS_UNITS || arena.brk + CoreUnits(nu) <= ADDRESS_UNITS
      modifies this
      ensures Valid() && allocp != NULL && old(Shape(arena))
      ensures if old(arena.brk) == ADDRESS_UNITS then r == NULL && arena == old(arena.(spent := true))
              else r == allocp && arena == Grow(old(arena), nu)
    {
      hide Inv, Linked, LiveHeaders, Release, CoreUnits, BreakBytes, Represents;
      BreakIsZero(arena, Links(ptr, size), allocp, base, membase);
      var rnu := CoreUnits(nu);
      var cp := Sbrk(AsInt(rnu * HEADER_BYTES % SIZE_LIMIT));
      if cp == NULL {
        RefuseRepresents(arena, Links(ptr, size), allocp, base, old(membase), membase);
        arena := arena.(spent := true);
        return NULL;
      }
      BreakExact(arena.brk, nu);
      SbrkMoves(arena.brk, nu);
      ExtendRepresents(arena, nu, Links(ptr, size), allocp, base, old(membase));
      var up := cp / HEADER_BYTES;
      size := size[up := rnu];
      arena := Extend(arena, nu);
      Free((up + 1) % ADDRESS_UNITS);
      r := allocp;
    }

    /** First call only: the free list is the sentinel pointing at itself. */
    method Start()
      requires Valid() && allocp == NULL
      modifies this`ptr, this`size, this`allocp
      ensures Valid() && allocp == base
    {
      ptr, allocp := ptr[base := base], base;
      size := size[base := 0];
    }

    /** The header updates of `malloc` at node `p`, which is behind `q` and big enough. */
    method Detach(q: nat, p: nat, nunits: nat) returns (block: nat)
      requires p in ptr && p in size && 1 <= nunits <= size[p] && p + size[p] <= ADDRESS_UNITS
      modifies this`ptr, this`size
      ensures Links(ptr, size) == old(TakeLinks(Links(ptr, size), q, p, nunits))
      ensures block == p + old(size[p]) - nunits
    {
      block := p;
      if size[p] == nunits {
        ptr := ptr[q := ptr[p]];
      } else {
        size := size[p := size[p] - nunits];
        block := (p + size[p]) % ADDRESS_UNITS;
        size := size[block := nunits];
      }
    }

    /** The loop of `malloc`: next fit from the node behind `allocp`, with one visit to `sbrk` if the circle has no
        fit.  It stops at a big enough node `p`, reached from node `q`, or with the null pointer. */
    method FindFit(nunits: nat) returns (q: nat, p: nat)
      requires Valid() && allocp != NULL && 1 <= nunits
      requires Serves(arena, nunits) || Refuses(arena, nunits)
      modifies this
      ensures Valid() && allocp != NULL && old(Inv(arena))
      ensures old(Refuses(arena, nunits)) ==> p == NULL && arena == old(arena.(spent := true))
      ensures old(Serves(arena, nunits)) ==>
                && p != NULL && arena == old(Supply(arena, nunits)) && HasFit(arena, nunits)
                && Visiting(arena.nodes, NextFit(arena, nunits).value, q, p, Links(ptr, size))
    {
      hide Inv, Linked, LiveHeaders, Grow, Searching, CoreUnits;
      InvConserves(arena);
      ghost var a0 := arena;
      ghost var j: nat, left: nat, grown := Succ(arena.nodes, arena.rover), |arena.nodes|, false;
      SearchStart(arena, nunits);
      Visit(arena, arena.rover, Links(ptr, size));
      q := allocp;
      p := ptr[q];
      while size[p] < nunits
        invariant Valid() && allocp != NULL
        invariant Searching(arena, j, left, nunits)
        invariant Visiting(arena.nodes, j, q, p, Links(ptr, size))
        invariant arena == if grown then Supply(a0, nunits) else a0
        invariant grown ==> NextFit(a0, nunits).None? && Serves(a0, nunits)
        decreases !grown, left
      {
        SearchStep(arena, j, left, nunits);
        if p == allocp {
          RoverIsUnique(arena, j);
          assert !grown by { SupplyFits(a0, nunits); }
          p := Morecore(nunits);
          if p == NULL {
            return;
          }
          grown, j, left := true, arena.rover, |arena.nodes| + 1;
          SearchStart(arena, nunits);
        }
        Visit(arena, j, Links(ptr, size));
        q := p;
        p := ptr[p];
        j, left := Succ(arena.nodes, j), left - 1;
      }
      SearchEnds(arena, j, left, nunits);
      SupplyFits(a0, nunits);
      NodeIsNotNull(arena, j, Links(ptr, size), allocp, base, membase);
    }

    /** `malloc`: the first fitting node gives up its tail, and the returned address is one unit behind the header
        of the new block: all units asked for lie in its payload.  For a request that has a payload the null
        pointer means a refusal, and only that. */
    method Malloc(nbytes: nat) returns (ap: nat)
      requires Valid() && nbytes < SIZE_LIMIT
      requires Serves(arena, Units(nbytes)) || Refuses(arena, Units(nbytes))
      modifies this
      ensures Valid() && allocp != NULL
      ensures old(Inv(arena)) && arena == old(Reply(arena, Units(nbytes)))
      ensures ap == if old(Serves(arena, Units(nbytes))) then (old(BlockAt(arena, Units(nbytes))) + 1) % ADDRESS_UNITS
                    else NULL
      ensures old(Serves(arena, Units(nbytes))) && 2 <= Units(nbytes) ==>
                && 1 <= ap && ap - 1 !in old(arena.live)
                && arena.live == old(arena.live)[ap - 1 := Units(nbytes)]
                && forall x :: ap <= x < ap + Units(nbytes) - 1 ==> InPayload(arena.live, x)
      ensures 2 <= Units(nbytes) ==> (ap == NULL <==> old(Refuses(arena, Units(nbytes))))
    {
      hide Inv, Linked, LiveHeaders, Supply, Carve, Units, Serves, Refuses;
      InvConserves(arena);
      ghost var a0 := arena;
      var nunits := Units(nbytes);
      ServesOrRefuses(arena, nunits);
      if allocp == NULL {
        Start();
      }
      var q, p := FindFit(nunits);
      if p == NULL {
        return NULL;
      }
      ghost var i := NextFit(arena, nunits).value;
      CarveRepresents(arena, i, nunits, Links(ptr, size), allocp, base, membase);
      var block := Detach(q, p, nunits);
      allocp := q;
      arena := Carve(arena, i, nunits);
      ap := (block + 1) % ADDRESS_UNITS;
      ReturnedAddress(a0, nunits, ap);
    }
  }

  lemma ServesOrRefuses(a: Arena, n: nat)
    requires 1 <= n
    ensures !(Serves(a, n) && Refuses(a, n))
  {}

  lemma NodeIsNotNull(a: Arena, i: nat, m: Links, allocp: nat, base: nat, membase: nat)
    requires Represents(a, m, allocp, base, membase) && i < |a.nodes|
    ensures a.nodes[i].addr != NULL
  {
    NodeAddressable(a, i);
  }

  /** The loop variables of `malloc`: `p` is node `j`, `q` the node before it. */
  ghost predicate Visiting(nodes: seq<Span>, j: nat, q: nat, p: nat, m: Links) {
    && j < |nodes| && p == nodes[j].addr && q == nodes[Prev(nodes, j)].addr
    && p in m.ptr && p in m.size && m.size[p] == nodes[j].len
  }

  lemma Visit(a: Arena, i: nat, m: Links)
    requires i < |a.nodes| && Linked(a.nodes, m)
    ensures a.nodes[i].addr in m.ptr
    ensures Visiting(a.nodes, Succ(a.nodes, i), a.nodes[i].addr, m.ptr[a.nodes[i].addr], m)
  {
    assert a.nodes[Succ(a.nodes, i)].addr in m.size;
    assert Prev(a.nodes, Succ(a.nodes, i)) == i;
  }

  lemma SearchEnds(a: Arena, j: nat, left: nat, n: nat)
    requires Searching(a, j, left, n) && n <= a.nodes[j].len
    ensures NextFit(a, n) == Some(j)
  {}

  function Prev(nodes: seq<Span>, j: nat): (i: nat)
    requires j < |nodes|
    ensures i < |nodes| && Succ(nodes, i) == j
  {
    if j == 0 then |nodes| - 1 else j - 1
  }

  /** The search is at node `j` and ends, `left` nodes from here, at the rover. */
  ghost predicate Searching(a: Arena, j: nat, left: nat, n: nat) {
    && j < |a.nodes| && a.rover < |a.nodes|
    && left == 1 + (if j <= a.rover then a.rover - j else |a.nodes| - j + a.rover)
    && NextFit(a, n) == Scan(a.nodes, j, left, n)
  }

  lemma SearchStart(a: Arena, n: nat)
    requires a.rover < |a.nodes|
    ensures Searching(a, Succ(a.nodes, a.rover), |a.nodes|, n)
  {}

  lemma SearchStep(a: Arena, j: nat, left: nat, n: nat)
    requires Searching(a, j, left, n) && a.nodes[j].len < n
    ensures if j == a.rover then NextFit(a, n).None? else Searching(a, Succ(a.nodes, j), left - 1, n)
  {
    assert Scan(a.nodes, Succ(a.nodes, j), 0, n).None?;
  }

  lemma RoverIsUnique(a: Arena, j: nat)
    requires Inv(a) && j < |a.nodes| && a.nodes[j].addr == a.nodes[a.rover].addr
    ensures j == a.rover
  {
    AddressesDiffer(a.nodes, if a.rover < j then j else a.rover);
  }

  /** The header updates of `malloc` at node `p`, reached from node `q`. */
  function TakeLinks(m: Links, q: nat, p: nat, n: nat): Links
    requires p in m.ptr && p in m.size && n <= m.size[p]
  {
    if m.size[p] == n then m.(ptr := m.ptr[q := m.ptr[p]])
    else m.(size := m.size[p := m.size[p] - n][p + m.size[p] - n := n])
  }

  lemma UnlinkThreads(a: Arena, i: nat, m: Links)
    requires Inv(a) && 1 <= i < |a.nodes| && Linked(a.nodes, m)
    ensures var p, q, n := a.nodes[i].addr, a.nodes[i - 1].addr, a.nodes[i].len;
            && p in m.ptr && p in m.size && m.size[p] == n
            && Linked(Cut(a.nodes, i, n), TakeLinks(m, q, p, n))
  {
    assert a.nodes[i].addr in m.size;
    CircleUnlink(a.nodes, i, m);
  }

  lemma ShortenThreads(a: Arena, i: nat, n: nat, m: Links)
    requires Inv(a) && 1 <= i < |a.nodes| && 1 <= n < a.nodes[i].len && Linked(a.nodes, m)
    ensures var p, q := a.nodes[i].addr, a.nodes[i - 1].addr;
            && p in m.ptr && p in m.size && m.size[p] == a.nodes[i].len
            && Linked(Cut(a.nodes, i, n), TakeLinks(m, q, p, n))
  {
    hide Linked, Cut, Chain, Ordered;
    CircleShorten(a.nodes, i, n, m);
    TailIsNoNode(a.nodes, i, n);
    LinkedFrame(Cut(a.nodes, i, n), m.(size := m.size[a.nodes[i].addr := a.nodes[i].len - n]), a.nodes[i].End() - n, n);
  }

  lemma TakeHeaders(live: map<nat, nat>, p: nat, q: nat, n: nat, m: Links)
    requires LiveHeaders(live, m.size) && p !in live && p in m.ptr && p in m.size && 1 <= n <= m.size[p]
    ensures LiveHeaders(live[p + m.size[p] - n := n], TakeLinks(m, q, p, n).size)
  {}

  /** What `malloc` writes at the chosen node is what `Carve` does to the arena. */
  lemma CarveThreads(a: Arena, i: nat, n: nat, m: Links)
    requires Inv(a) && i < |a.nodes| && 1 <= n <= a.nodes[i].len
    requires Linked(a.nodes, m) && LiveHeaders(a.live, m.size)
    ensures 1 <= i
    ensures var p, q := a.nodes[i].addr, a.nodes[i - 1].addr;
            && p in m.ptr && p in m.size && m.size[p] == a.nodes[i].len
            && Threads(Carve(a, i, n), TakeLinks(m, q, p, n), q)
            && Carve(a, i, n).nodes[0].addr == a.nodes[0].addr
  {
    hide Cut, Ordered, Linked, TakeLinks, LiveHeaders;
    if a.nodes[i].len == n { UnlinkThreads(a, i, m); } else { ShortenThreads(a, i, n, m); }
    NodesAreNotLive(a, i);
    TakeHeaders(a.live, a.nodes[i].addr, a.nodes[i - 1].addr, n, m);
    CutKeepsPrev(a.nodes, i, n);
  }

  lemma CutKeepsPrev(nodes: seq<Span>, i: nat, n: nat)
    requires 1 <= i < |nodes| && n <= nodes[i].len
    ensures var r := Cut(nodes, i, n);
            i <= |r| && r[i - 1] == nodes[i - 1] && r[0] == nodes[0]
  {}

  lemma TailIsNoNode(nodes: seq<Span>, i: nat, n: nat)
    requires Ordered(nodes) && i < |nodes| && 1 <= n < nodes[i].len
    ensures NotIn(nodes[i].End() - n, Cut(nodes, i, n))
  {
    CutLeavesTail(nodes, i, n);
    var r := Cut(nodes, i, n);
    forall j | 0 <= j < |r| ensures r[j].addr != nodes[i].End() - n {
      assert Apart(r[j], nodes[i].End() - n, n);
      if j != i { assert r[j] == nodes[j]; AddressesDiffer(nodes, i); assert i < j ==> nodes[i].End() < nodes[j].addr; }
    }
  }

  lemma FreedIsNoNode(a: Arena, p: nat)
    requires Inv(a) && p in a.live
    ensures NotIn(p, a.nodes) && a.nodes[0].addr < p
  {
    assert AllApart(a.nodes, p, a.live[p]);
    forall i | 1 <= i < |a.nodes| ensures a.nodes[i].addr != p {
      assert Inside(a.nodes[i], a.lo, a.brk) && Apart(a.nodes[i], p, a.live[p]);
    }
  }

  lemma InsertKeepsNode(nodes: seq<Span>, k: nat, s: Span)
    requires k < |nodes|
    ensures var r := Insert(nodes, k, s); k < |r| && r[k].addr == nodes[k].addr && r[0].addr == nodes[0].addr
  {}

  lemma NodesAreNotLive(a: Arena, k: nat)
    requires Inv(a) && k < |a.nodes|
    ensures a.nodes[k].addr !in a.live
  {
    if a.nodes[k].addr in a.live { FreedIsNoNode(a, a.nodes[k].addr); }
  }

  lemma CoreIsNoNode(a: Arena)
    requires Inv(a)
    ensures NotIn(a.brk, a.nodes) && a.brk !in a.live && a.nodes[0].addr < a.brk
  {
    forall i | 1 <= i < |a.nodes| ensures a.nodes[i].addr != a.brk {
      assert Inside(a.nodes[i], a.lo, a.brk);
    }
  }

  lemma LinkedFrame(nodes: seq<Span>, m: Links, p: nat, n: nat)
    requires Linked(nodes, m) && NotIn(p, nodes)
    ensures Linked(nodes, m.(size := m.size[p := n]))
  {}
}
