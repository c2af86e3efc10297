/** The storage allocator as an algebra of spans.

    Addresses count HEADER units (8 bytes on the 32-bit target).  The free list is a sequence of
    spans in address order whose element 0 is the static sentinel `base` of length 0; the circular
    `s.ptr` links join every element to the next one and the last to element 0.  `rover` is the index
    of the node `allocp` points at, `live` maps every block handed out (by its header's address) to
    its length, and `lo..brk` is the region obtained from `sbrk` so far.  `spent` is set once `sbrk` has been
    asked for more although `brk` was the end of the address space. */
module ArenaSpec {
  import opened Options

  const HEADER_BYTES: nat := 8
  const NALLOC: nat := 128
  const SIZE_LIMIT: nat := 0x1_0000_0000

  /** The 32-bit address space in header units. */
  const ADDRESS_UNITS: nat := 0x2000_0000

  datatype Span = Span(addr: nat, len: nat) {
    function End(): nat { addr + len }
  }

  datatype Arena = Arena(nodes: seq<Span>, rover: nat, live: map<nat, nat>, lo: nat, brk: nat, spent: bool)

  // ---------------------------------------------------------------- invariant

  /** Address order with a gap between neighbours: no two free spans ever touch. */
  ghost predicate Ordered(nodes: seq<Span>) {
    forall i, j :: 0 <= i < j < |nodes| ==> nodes[i].End() < nodes[j].addr
  }

  ghost predicate Inside(s: Span, lo: nat, brk: nat) {
    1 <= s.len && lo <= s.addr && s.End() <= brk
  }

  ghost predicate InsideFrom(nodes: seq<Span>, from: nat, lo: nat, brk: nat) {
    forall i :: from <= i < |nodes| ==> Inside(nodes[i], lo, brk)
  }

  ghost predicate LiveInside(live: map<nat, nat>, lo: nat, brk: nat) {
    forall a :: a in live ==> 1 <= live[a] && lo <= a && a + live[a] <= brk
  }

  ghost predicate LiveDisjoint(live: map<nat, nat>) {
    forall a, b :: a in live && b in live && a < b ==> a + live[a] <= b
  }

  ghost predicate Apart(s: Span, a: nat, len: nat) {
    s.End() <= a || a + len <= s.addr
  }

  ghost predicate AllApart(nodes: seq<Span>, q: nat, len: nat) {
    forall i :: 0 <= i < |nodes| ==> Apart(nodes[i], q, len)
  }

  ghost predicate FreeLiveDisjoint(nodes: seq<Span>, live: map<nat, nat>) {
    forall a :: a in live ==> AllApart(nodes, a, live[a])
  }

  ghost predicate Shape(a: Arena) {
    && 0 < |a.nodes|
    && a.rover < |a.nodes|
    && a.nodes[0].len == 0
    && a.nodes[0].addr < a.lo <= a.brk
  }

  /** Everything the allocator keeps between calls. */
  ghost predicate Inv(a: Arena) {
    && Shape(a)
    && Ordered(a.nodes)
    && InsideFrom(a.nodes, 1, a.lo, a.brk)
    && LiveInside(a.live, a.lo, a.brk)
    && LiveDisjoint(a.live)
    && FreeLiveDisjoint(a.nodes, a.live)
    && FreeUnits(a.nodes) + LiveUnits(a.live) == a.brk - a.lo
  }

  ghost function FreeUnits(nodes: seq<Span>): nat {
    if nodes == [] then 0 else nodes[0].len + FreeUnits(nodes[1..])
  }

  ghost function LiveUnits(live: map<nat, nat>): nat {
    if live == map[] then 0 else
    var a :| a in live;
    live[a] + LiveUnits(live - {a})
  }

  // ---------------------------------------------------------------- operations

  /** The size of a request in units, one of them for the header; the sum is a 32-bit number. */
  function Units(nbytes: nat): (n: nat)
    ensures 1 <= n
  {
    (nbytes + HEADER_BYTES - 1) % SIZE_LIMIT / HEADER_BYTES + 1
  }

  /** The units behind the header hold the requested bytes, and less than one unit more, exactly when rounding
      up does not wrap; where it wraps there is no payload at all. */
  lemma UnitsExact(nbytes: nat)
    requires nbytes < SIZE_LIMIT
    ensures nbytes <= (Units(nbytes) - 1) * HEADER_BYTES <==> nbytes + HEADER_BYTES - 1 < SIZE_LIMIT
    ensures (Units(nbytes) - 1) * HEADER_BYTES < nbytes + HEADER_BYTES
    ensures nbytes + HEADER_BYTES - 1 >= SIZE_LIMIT ==> Units(nbytes) == 1
  {}

  function CoreUnits(n: nat): (r: nat)
    ensures n <= r < n + NALLOC && r % NALLOC == 0
  {
    DivUp(n);
    NALLOC * ((n + NALLOC - 1) / NALLOC)
  }

  lemma DivUp(n: nat)
    ensures var r := NALLOC * ((n + NALLOC - 1) / NALLOC); n <= r < n + NALLOC && r % NALLOC == 0
  {
    var q := (n + NALLOC - 1) / NALLOC;
    assert n + NALLOC - 1 == NALLOC * q + (n + NALLOC - 1) % NALLOC;
    Multiple(q);
  }

  lemma Multiple(q: nat)
    ensures NALLOC * q % NALLOC == 0
  {}

  /** The argument of `sbrk`: the product is a 32-bit number. */
  function CoreBytes(n: nat): (r: nat)
    ensures r < SIZE_LIMIT
  {
    CoreUnits(n) * HEADER_BYTES % SIZE_LIMIT
  }

  /** `sbrk` is asked for all of the core, exactly up to this size; it sees a positive `int` up to half of it. */
  lemma CoreBytesExact(n: nat)
    requires 1 <= n
    ensures CoreBytes(n) == CoreUnits(n) * HEADER_BYTES <==> n <= 0x1FFF_FF80
    ensures CoreUnits(n) * HEADER_BYTES < SIZE_LIMIT / 2 <==> n <= 0x0FFF_FF80
  {
    assert n <= 0x1FFF_FF80 ==> CoreUnits(n) <= 0x1FFF_FF80;
    assert n <= 0x0FFF_FF80 ==> CoreUnits(n) <= 0x0FFF_FF80;
  }

  /** For instance a request of 0xFFFFFFF0 bytes, whose size does not wrap, is given a core of 0 bytes. */
  lemma HugeRequestGetsNoCore()
    ensures 0xFFFF_FFF0 + HEADER_BYTES - 1 < SIZE_LIMIT
    ensures Units(0xFFFF_FFF0) == 0x1FFF_FFFF && CoreUnits(Units(0xFFFF_FFF0)) == 0x2000_0000
    ensures CoreBytes(Units(0xFFFF_FFF0)) == 0
  {}

  /** What the 32-bit variable `membase` holds when the break is at unit `u`. */
  function BreakBytes(u: nat): nat {
    u * HEADER_BYTES % SIZE_LIMIT
  }

  /** The core that `morecore` writes its header over lies below the break `sbrk` moves to exactly when it ends
      inside the address space; where it ends with the address space, the break becomes 0. */
  lemma BreakExact(brk: nat, n: nat)
    requires 0 < brk < ADDRESS_UNITS && 1 <= n
    ensures var moved := (BreakBytes(brk) + CoreBytes(n)) % SIZE_LIMIT;
            && (BreakBytes(brk) + CoreUnits(n) * HEADER_BYTES <= moved <==> brk + CoreUnits(n) < ADDRESS_UNITS)
            && (brk + CoreUnits(n) <= ADDRESS_UNITS ==> moved == BreakBytes(brk + CoreUnits(n)))
            && (brk + CoreUnits(n) == ADDRESS_UNITS ==> moved == 0)
  {}

  function Succ(nodes: seq<Span>, i: nat): (j: nat)
    requires i < |nodes|
    ensures j < |nodes|
  {
    if i + 1 < |nodes| then i + 1 else 0
  }

  /** The first of `left` nodes, walking the circle from node `i`, that holds `n` units. */
  function Scan(nodes: seq<Span>, i: nat, left: nat, n: nat): Option<nat>
    requires i < |nodes|
    decreases left
  {
    if left == 0 then None
    else if nodes[i].len >= n then Some(i)
    else Scan(nodes, Succ(nodes, i), left - 1, n)
  }

  /** Next fit: one whole circle, starting behind the rover. */
  function NextFit(a: Arena, n: nat): Option<nat>
    requires a.rover < |a.nodes|
  {
    Scan(a.nodes, Succ(a.nodes, a.rover), |a.nodes|, n)
  }

  /** The node below address `addr`: the last one whose address is smaller. */
  function Below(nodes: seq<Span>, addr: nat): (k: nat)
    requires 0 < |nodes| && nodes[0].addr < addr
    ensures k < |nodes| && nodes[k].addr < addr
    ensures k + 1 < |nodes| ==> addr <= nodes[k + 1].addr
  {
    BelowFrom(nodes, addr, 0)
  }

  function BelowFrom(nodes: seq<Span>, addr: nat, i: nat): (k: nat)
    requires i < |nodes| && nodes[i].addr < addr
    ensures i <= k < |nodes| && nodes[k].addr < addr
    ensures k + 1 < |nodes| ==> addr <= nodes[k + 1].addr
    decreases |nodes| - i
  {
    if i + 1 < |nodes| && nodes[i + 1].addr < addr then BelowFrom(nodes, addr, i + 1) else i
  }

  /** Puts `s` in front of the spans above it, joining the first one if they touch. */
  function JoinRight(s: Span, above: seq<Span>): (r: seq<Span>)
    ensures r != [] && r[0].addr == s.addr
  {
    if above != [] && s.End() == above[0].addr then [Span(s.addr, s.len + above[0].len)] + above[1..]
    else [s] + above
  }

  /** Appends the spans `above`, joining the last of `below` with the first of them if they touch. */
  function JoinLeft(below: seq<Span>, above: seq<Span>): seq<Span>
    requires below != [] && above != []
  {
    var last := below[|below| - 1];
    if last.End() == above[0].addr then
      below[..|below| - 1] + [Span(last.addr, last.len + above[0].len)] + above[1..]
    else below + above
  }

  /** Links span `s` behind node `k`, coalescing it with both neighbours. */
  function Insert(nodes: seq<Span>, k: nat, s: Span): seq<Span>
    requires k < |nodes|
  {
    JoinLeft(nodes[..k + 1], JoinRight(s, nodes[k + 1..]))
  }

  /** `free`: gives the live block at `p` back and leaves the rover below it. */
  function Release(a: Arena, p: nat): Arena
    requires 0 < |a.nodes| && a.nodes[0].addr < p && p in a.live
  {
    var k := Below(a.nodes, p);
    a.(nodes := Insert(a.nodes, k, Span(p, a.live[p])), rover := k, live := a.live - {p})
  }

  /** `sbrk` and the header written over the new core, before it is freed. */
  function Extend(a: Arena, n: nat): Arena {
    a.(live := a.live[a.brk := CoreUnits(n)], brk := a.brk + CoreUnits(n))
  }

  /** `morecore`: new core enters the free list through `free`. */
  function Grow(a: Arena, n: nat): Arena
    requires 0 < |a.nodes| && a.nodes[0].addr < a.brk
  {
    Release(Extend(a, n), a.brk)
  }

  /** The tail of `n` units is cut off node `i`; a node that has no more is unlinked. */
  function Cut(nodes: seq<Span>, i: nat, n: nat): seq<Span>
    requires i < |nodes| && n <= nodes[i].len
  {
    if nodes[i].len == n then nodes[..i] + nodes[i + 1..]
    else nodes[i := Span(nodes[i].addr, nodes[i].len - n)]
  }

  /** The part of `malloc` after the search: node `i` gives up its last `n` units. */
  function Carve(a: Arena, i: nat, n: nat): Arena
    requires 1 <= i < |a.nodes| && n <= a.nodes[i].len
  {
    a.(nodes := Cut(a.nodes, i, n), rover := i - 1, live := a.live[a.nodes[i].End() - n := n])
  }

  /** The arena the block is cut from: the present one if some free node is big enough. */
  function Supply(a: Arena, n: nat): Arena
    requires 0 < |a.nodes| && a.rover < |a.nodes| && a.nodes[0].addr < a.brk
  {
    if NextFit(a, n).Some? then a else Grow(a, n)
  }

  // ---------------------------------------------------------------- scanning

  lemma {:induction false} ScanFinds(nodes: seq<Span>, i: nat, left: nat, n: nat)
    requires i < |nodes|
    ensures var r := Scan(nodes, i, left, n);
            r.Some? ==> r.value < |nodes| && n <= nodes[r.value].len
    decreases left
  {
    if left != 0 && nodes[i].len < n {
      ScanFinds(nodes, Succ(nodes, i), left - 1, n);
    }
  }

  /** Walking `left` steps from `i` reaches node `t` whenever `t` is that close on the circle. */
  lemma {:induction false} ScanReaches(nodes: seq<Span>, i: nat, left: nat, n: nat, t: nat)
    requires i < |nodes| && t < |nodes| && n <= nodes[t].len
    requires (if i <= t then t - i else |nodes| - i + t) < left
    ensures Scan(nodes, i, left, n).Some?
    decreases left
  {
    if nodes[i].len < n {
      ScanReaches(nodes, Succ(nodes, i), left - 1, n, t);
    }
  }

  /** `sbrk` is asked exactly when no free node is big enough. */
  lemma NextFitExact(a: Arena, n: nat)
    requires a.rover < |a.nodes|
    ensures NextFit(a, n).Some? <==> exists t :: 0 <= t < |a.nodes| && n <= a.nodes[t].len
    ensures NextFit(a, n).Some? ==> NextFit(a, n).value < |a.nodes| && n <= a.nodes[NextFit(a, n).value].len
  {
    ScanFinds(a.nodes, Succ(a.nodes, a.rover), |a.nodes|, n);
    forall t | 0 <= t < |a.nodes| && n <= a.nodes[t].len ensures NextFit(a, n).Some? {
      ScanReaches(a.nodes, Succ(a.nodes, a.rover), |a.nodes|, n, t);
    }
  }

  /** The nodes the scan passes before the one it stops at are too small. */
  lemma {:induction false} ScanFirst(nodes: seq<Span>, i: nat, left: nat, n: nat, t: nat)
    requires i < |nodes| && t < |nodes| && Scan(nodes, i, left, n).Some?
    requires var j := Scan(nodes, i, left, n).value;
             (if i <= t then t - i else |nodes| - i + t) < (if i <= j then j - i else |nodes| - i + j)
    ensures nodes[t].len < n
    decreases left
  {
    ScanFinds(nodes, i, left, n);
    if t != i {
      ScanFinds(nodes, Succ(nodes, i), left - 1, n);
      ScanFirst(nodes, Succ(nodes, i), left - 1, n, t);
    }
  }

  /** Next fit: walking the circle from the node behind the rover, every node before the chosen one is too small. */
  lemma NextFitIsFirst(a: Arena, n: nat, t: nat)
    requires a.rover < |a.nodes| && t < |a.nodes| && NextFit(a, n).Some?
    requires var j := NextFit(a, n).value;
             (if a.rover < t then t - a.rover else |a.nodes| - a.rover + t)
               < (if a.rover < j then j - a.rover else |a.nodes| - a.rover + j)
    ensures a.nodes[t].len < n
  {
    ScanFinds(a.nodes, Succ(a.nodes, a.rover), |a.nodes|, n);
    ScanFirst(a.nodes, Succ(a.nodes, a.rover), |a.nodes|, n, t);
  }

  // ---------------------------------------------------------------- unit counts

  lemma {:induction false} FreeUnitsConcat(x: seq<Span>, y: seq<Span>)
    ensures FreeUnits(x + y) == FreeUnits(x) + FreeUnits(y)
  {
    if x == [] {
      assert x + y == y;
    } else {
      FreeUnitsConcat(x[1..], y);
      assert (x + y)[1..] == x[1..] + y;
    }
  }

  lemma {:induction false} LiveUnitsMinus(live: map<nat, nat>, p: nat)
    requires p in live
    ensures LiveUnits(live) == live[p] + LiveUnits(live - {p})
    decreases |live|
  {
    var a :| a in live && LiveUnits(live) == live[a] + LiveUnits(live - {a});
    if a != p {
      LiveUnitsMinus(live - {a}, p);
      LiveUnitsMinus(live - {p}, a);
      assert live - {a} - {p} == live - {p} - {a};
    }
  }

  lemma LiveUnitsPlus(live: map<nat, nat>, p: nat, n: nat)
    requires p !in live
    ensures LiveUnits(live[p := n]) == n + LiveUnits(live)
  {
    LiveUnitsMinus(live[p := n], p);
    assert live[p := n] - {p} == live;
  }

  lemma FreeUnitsCons(s: Span, rest: seq<Span>)
    ensures FreeUnits([s] + rest) == s.len + FreeUnits(rest)
  {
    assert ([s] + rest)[1..] == rest;
  }

  lemma FreeUnitsSnoc(init: seq<Span>, s: Span)
    ensures FreeUnits(init + [s]) == FreeUnits(init) + s.len
  {
    FreeUnitsConcat(init, [s]);
    FreeUnitsCons(s, []);
    assert [s] + [] == [s];
  }

  lemma JoinRightUnits(s: Span, above: seq<Span>)
    ensures FreeUnits(JoinRight(s, above)) == s.len + FreeUnits(above)
  {
    if above != [] && s.End() == above[0].addr {
      FreeUnitsCons(Span(s.addr, s.len + above[0].len), above[1..]);
    } else {
      FreeUnitsCons(s, above);
    }
  }

  lemma JoinLeftUnits(below: seq<Span>, above: seq<Span>)
    requires below != [] && above != []
    ensures FreeUnits(JoinLeft(below, above)) == FreeUnits(below) + FreeUnits(above)
  {
    var init, last := below[..|below| - 1], below[|below| - 1];
    if last.End() == above[0].addr {
      var joined := Span(last.addr, last.len + above[0].len);
      FreeUnitsConcat(init + [joined], above[1..]);
      FreeUnitsSnoc(init, joined);
      FreeUnitsSnoc(init, last);
      assert below == init + [last];
    } else {
      FreeUnitsConcat(below, above);
    }
  }

  lemma InsertUnits(nodes: seq<Span>, k: nat, s: Span)
    requires k < |nodes|
    ensures FreeUnits(Insert(nodes, k, s)) == FreeUnits(nodes) + s.len
  {
    hide JoinLeft, JoinRight, FreeUnits;
    JoinRightUnits(s, nodes[k + 1..]);
    JoinLeftUnits(nodes[..k + 1], JoinRight(s, nodes[k + 1..]));
    FreeUnitsConcat(nodes[..k + 1], nodes[k + 1..]);
    assert nodes == nodes[..k + 1] + nodes[k + 1..];
  }

  lemma MiddleUnits(init: seq<Span>, s: Span, rest: seq<Span>)
    ensures FreeUnits(init + [s] + rest) == FreeUnits(init) + s.len + FreeUnits(rest)
  {
    FreeUnitsConcat(init + [s], rest);
    FreeUnitsSnoc(init, s);
  }

  lemma CutUnits(nodes: seq<Span>, i: nat, n: nat)
    requires i < |nodes| && n <= nodes[i].len
    ensures FreeUnits(Cut(nodes, i, n)) + n == FreeUnits(nodes)
  {
    hide FreeUnits;
    var cut := Span(nodes[i].addr, nodes[i].len - n);
    assert nodes == nodes[..i] + [nodes[i]] + nodes[i + 1..];
    MiddleUnits(nodes[..i], nodes[i], nodes[i + 1..]);
    if nodes[i].len == n {
      FreeUnitsConcat(nodes[..i], nodes[i + 1..]);
    } else {
      assert nodes[i := cut] == nodes[..i] + [cut] + nodes[i + 1..];
      MiddleUnits(nodes[..i], cut, nodes[i + 1..]);
    }
  }

  // ---------------------------------------------------------------- the invariant is kept

  /** Facts about the freed block that make `Insert` behind the node below it safe. */
  lemma BelowSeparates(a: Arena, p: nat)
    requires Inv(a) && p in a.live
    ensures var k := Below(a.nodes, p);
            && (forall i :: 0 <= i <= k ==> a.nodes[i].End() <= p)
            && (forall i :: k < i < |a.nodes| ==> p + a.live[p] <= a.nodes[i].addr)
  {
    var k := Below(a.nodes, p);
    assert a.nodes[0].End() <= p;
    forall i | 1 <= i < |a.nodes|
      ensures i <= k ==> a.nodes[i].End() <= p
      ensures k < i ==> p + a.live[p] <= a.nodes[i].addr
    {
      assert Apart(a.nodes[i], p, a.live[p]);
      if i < k { assert a.nodes[i].End() < a.nodes[k].addr; }
      if k + 1 < i { assert a.nodes[k + 1].End() < a.nodes[i].addr; }
    }
  }

  lemma JoinRightOrdered(s: Span, above: seq<Span>, lo: nat, brk: nat)
    requires Ordered(above) && InsideFrom(above, 0, lo, brk) && Inside(s, lo, brk)
    requires above != [] ==> s.End() <= above[0].addr
    ensures var r := JoinRight(s, above); Ordered(r) && InsideFrom(r, 0, lo, brk)
  {
    var r := JoinRight(s, above);
    if above != [] && s.End() == above[0].addr {
      forall j | 1 <= j < |r| ensures r[j] == above[j] && r[0].End() < r[j].addr {}
    } else {
      forall j | 1 <= j < |r| ensures r[j] == above[j - 1] && r[0].End() < r[j].addr {}
    }
  }

  lemma AppendOrdered(below: seq<Span>, above: seq<Span>)
    requires Ordered(below) && Ordered(above)
    requires below != [] && above != [] ==> below[|below| - 1].End() < above[0].addr
    ensures Ordered(below + above)
  {
    forall i, j | 0 <= i < |below| && 0 <= j < |above| ensures below[i].End() < above[j].addr {
      if i < |below| - 1 { assert below[i].End() < below[|below| - 1].addr; }
      if 0 < j { assert above[0].End() < above[j].addr; }
    }
  }

  lemma OneOrdered(s: Span)
    ensures Ordered([s])
  {}

  lemma PartsOrdered(nodes: seq<Span>, k: nat)
    requires Ordered(nodes) && k < |nodes|
    ensures Ordered(nodes[..k]) && Ordered(nodes[1..])
    ensures 1 <= k ==> nodes[k - 1].End() < nodes[k].addr
    ensures 2 <= |nodes| ==> nodes[0].End() < nodes[1].addr
  {}

  lemma JoinLeftOrdered(below: seq<Span>, above: seq<Span>, lo: nat, brk: nat)
    requires below != [] && above != []
    requires Ordered(below) && Ordered(above)
    requires InsideFrom(below, 1, lo, brk) && below[0].End() < lo && InsideFrom(above, 0, lo, brk)
    requires below[|below| - 1].End() <= above[0].addr
    ensures var r := JoinLeft(below, above);
            Ordered(r) && InsideFrom(r, 1, lo, brk) && r[0] == below[0]
  {
    hide Ordered;
    var n := |below| - 1;
    var last, first := below[n], above[0];
    assert Inside(first, lo, brk);
    if last.End() == first.addr {
      assert 1 <= n;
      assert Inside(last, lo, brk);
      var joined := Span(last.addr, last.len + first.len);
      PartsOrdered(below, n);
      PartsOrdered(above, 0);
      OneOrdered(joined);
      AppendOrdered(below[..n], [joined]);
      AppendOrdered(below[..n] + [joined], above[1..]);
    } else {
      AppendOrdered(below, above);
    }
  }

  lemma InsertOrdered(nodes: seq<Span>, k: nat, s: Span, lo: nat, brk: nat)
    requires k < |nodes| && Ordered(nodes) && InsideFrom(nodes, 1, lo, brk) && nodes[0].End() < lo
    requires Inside(s, lo, brk)
    requires nodes[k].End() <= s.addr && (k + 1 < |nodes| ==> s.End() <= nodes[k + 1].addr)
    ensures var r := Insert(nodes, k, s);
            Ordered(r) && InsideFrom(r, 1, lo, brk) && r[0] == nodes[0]
  {
    var above := nodes[k + 1..];
    assert InsideFrom(above, 0, lo, brk);
    JoinRightOrdered(s, above, lo, brk);
    JoinLeftOrdered(nodes[..k + 1], JoinRight(s, above), lo, brk);
  }

  lemma InsertApart(nodes: seq<Span>, k: nat, s: Span, q: nat, len: nat)
    requires k < |nodes| && 1 <= len
    requires AllApart(nodes, q, len) && Apart(s, q, len)
    ensures AllApart(Insert(nodes, k, s), q, len)
  {
    var right := JoinRight(s, nodes[k + 1..]);
    assert AllApart(nodes[k + 1..], q, len);
    assert AllApart(right, q, len);
    assert AllApart(nodes[..k + 1], q, len);
  }

  lemma LiveMinus(live: map<nat, nat>, p: nat, lo: nat, brk: nat)
    requires LiveInside(live, lo, brk) && LiveDisjoint(live) && p in live
    ensures LiveInside(live - {p}, lo, brk) && LiveDisjoint(live - {p})
    ensures forall q :: q in live - {p} ==> Apart(Span(p, live[p]), q, live[q])
  {}

  lemma LivePlus(live: map<nat, nat>, p: nat, n: nat, lo: nat, brk: nat)
    requires LiveInside(live, lo, brk) && LiveDisjoint(live) && p !in live
    requires Inside(Span(p, n), lo, brk)
    requires forall q :: q in live ==> Apart(Span(p, n), q, live[q])
    ensures LiveInside(live[p := n], lo, brk) && LiveDisjoint(live[p := n])
  {}

  lemma ReleaseKeepsInv(a: Arena, p: nat)
    requires Inv(a) && p in a.live
    ensures Inv(Release(a, p))
  {
    var k := Below(a.nodes, p);
    var s := Span(p, a.live[p]);
    BelowSeparates(a, p);
    InsertUnits(a.nodes, k, s);
    LiveUnitsMinus(a.live, p);
    LiveMinus(a.live, p, a.lo, a.brk);
    InsertOrdered(a.nodes, k, s, a.lo, a.brk);
    forall q | q in a.live - {p} ensures AllApart(Insert(a.nodes, k, s), q, a.live[q]) {
      InsertApart(a.nodes, k, s, q, a.live[q]);
    }
  }

  lemma ExtendKeepsInv(a: Arena, n: nat)
    requires Inv(a) && 1 <= n
    ensures Inv(Extend(a, n))
  {
    hide FreeUnits, LiveUnits, Ordered, CoreUnits;
    var core := CoreUnits(n);
    assert a.brk !in a.live && forall q :: q in a.live ==> Apart(Span(a.brk, core), q, a.live[q]);
    LiveUnitsPlus(a.live, a.brk, core);
    LivePlus(a.live, a.brk, core, a.lo, a.brk + core);
    forall i | 0 <= i < |a.nodes| ensures Apart(a.nodes[i], a.brk, core) {
      assert 0 < i ==> Inside(a.nodes[i], a.lo, a.brk);
    }
    assert AllApart(a.nodes, a.brk, core);
    assert InsideFrom(a.nodes, 1, a.lo, a.brk + core) by {
      forall i | 1 <= i < |a.nodes| ensures Inside(a.nodes[i], a.lo, a.brk + core) {
        assert Inside(a.nodes[i], a.lo, a.brk);
      }
    }
  }

  lemma GrowKeepsInv(a: Arena, n: nat)
    requires Inv(a) && 1 <= n
    ensures Inv(Grow(a, n)) && Grow(a, n).live == a.live && Grow(a, n).spent == a.spent
  {
    hide Inv, Release, CoreUnits;
    BreakIsFree(a);
    ExtendKeepsInv(a, n);
    ReleaseKeepsInv(Extend(a, n), a.brk);
    ReleaseLive(Extend(a, n), a.brk);
    assert a.live[a.brk := CoreUnits(n)] - {a.brk} == a.live;
  }

  lemma BreakIsFree(a: Arena)
    requires Inv(a)
    ensures a.brk !in a.live && 0 < |a.nodes| && a.nodes[0].addr < a.brk
  {}

  /** After `free` the rover is at the last node that starts below the freed block. */
  lemma ReleaseRover(a: Arena, p: nat)
    requires Inv(a) && p in a.live
    ensures var b := Release(a, p);
            && b.rover < |b.nodes| && b.nodes[b.rover].addr < p
            && (b.rover + 1 < |b.nodes| ==> p <= b.nodes[b.rover + 1].addr)
  {
    hide Below;
    BelowSeparates(a, p);
    RoverAfterInsert(a.nodes, Below(a.nodes, p), Span(p, a.live[p]));
  }

  lemma RoverAfterInsert(nodes: seq<Span>, k: nat, s: Span)
    requires Ordered(nodes) && k < |nodes| && (k + 1 < |nodes| ==> s.End() <= nodes[k + 1].addr)
    ensures var r := Insert(nodes, k, s);
            && k < |r| && r[k].addr == nodes[k].addr
            && (k + 1 < |r| ==> s.addr <= r[k + 1].addr)
  {
    hide JoinLeft, JoinRight, Ordered;
    var above := nodes[k + 1..];
    PartsOrdered(nodes, k);
    OrderedAbove(nodes, k + 1);
    JoinRightNext(s, above);
    JoinLeftAt(nodes[..k + 1], JoinRight(s, above));
  }

  lemma OrderedAbove(nodes: seq<Span>, k: nat)
    requires Ordered(nodes) && k <= |nodes|
    ensures Ordered(nodes[k..])
  {}

  lemma JoinRightNext(s: Span, above: seq<Span>)
    requires Ordered(above) && (above != [] ==> s.End() <= above[0].addr)
    ensures var r := JoinRight(s, above); r[0].addr == s.addr && (1 < |r| ==> s.addr <= r[1].addr)
  {
    assert 1 < |above| ==> above[0].End() < above[1].addr;
  }

  lemma JoinLeftAt(below: seq<Span>, above: seq<Span>)
    requires below != [] && above != []
    requires 1 < |above| ==> above[0].addr <= above[1].addr
    ensures var r, k := JoinLeft(below, above), |below| - 1;
            k < |r| && r[k].addr == below[k].addr && (k + 1 < |r| ==> above[0].addr <= r[k + 1].addr)
  {}

  lemma ReleaseLive(a: Arena, p: nat)
    requires 0 < |a.nodes| && a.nodes[0].addr < p && p in a.live
    ensures Release(a, p).live == a.live - {p} && Release(a, p).spent == a.spent
  {}

  lemma CutNodes(nodes: seq<Span>, i: nat, n: nat, lo: nat, brk: nat)
    requires Ordered(nodes) && InsideFrom(nodes, 1, lo, brk)
    requires 1 <= i < |nodes| && 1 <= n <= nodes[i].len
    ensures var r := Cut(nodes, i, n);
            i <= |r| && r[0] == nodes[0] && Ordered(r) && InsideFrom(r, 1, lo, brk)
  {
    var r := Cut(nodes, i, n);
    if nodes[i].len == n {
      forall j | 0 <= j < |r| ensures r[j] == nodes[if j < i then j else j + 1] {}
    }
  }

  lemma CutLeavesTail(nodes: seq<Span>, i: nat, n: nat)
    requires Ordered(nodes) && i < |nodes| && 1 <= n <= nodes[i].len
    ensures AllApart(Cut(nodes, i, n), nodes[i].End() - n, n)
  {
    var r := Cut(nodes, i, n);
    forall j | 0 <= j < |r| ensures Apart(r[j], nodes[i].End() - n, n) {
      var t := if nodes[i].len != n || j < i then j else j + 1;
      assert t < i ==> nodes[t].End() < nodes[i].addr;
      assert i < t ==> nodes[i].End() < nodes[t].addr;
    }
  }

  lemma CutApart(nodes: seq<Span>, i: nat, n: nat, q: nat, len: nat)
    requires i < |nodes| && 1 <= n <= nodes[i].len && 1 <= len && AllApart(nodes, q, len)
    ensures Apart(Span(nodes[i].End() - n, n), q, len)
    ensures AllApart(Cut(nodes, i, n), q, len)
  {
    assert Apart(nodes[i], q, len);
    var r := Cut(nodes, i, n);
    forall j | 0 <= j < |r| ensures Apart(r[j], q, len) {
      assert Apart(nodes[if nodes[i].len != n || j < i then j else j + 1], q, len);
    }
  }

  lemma CarveKeepsInv(a: Arena, i: nat, n: nat)
    requires Inv(a) && 1 <= i < |a.nodes| && 1 <= n <= a.nodes[i].len
    ensures Inv(Carve(a, i, n))
    ensures a.nodes[i].End() - n !in a.live
  {
    hide Cut, Ordered, AllApart, FreeUnits, LiveUnits, LiveDisjoint;
    var p := a.nodes[i].End() - n;
    var b := Carve(a, i, n);
    CutNodes(a.nodes, i, n, a.lo, a.brk);
    CutLeavesTail(a.nodes, i, n);
    forall q | q in a.live
      ensures q != p && Apart(Span(p, n), q, a.live[q]) && AllApart(b.nodes, q, a.live[q])
    {
      CutApart(a.nodes, i, n, q, a.live[q]);
    }
    assert LiveInside(b.live, a.lo, a.brk) && LiveDisjoint(b.live) by {
      assert Inside(a.nodes[i], a.lo, a.brk);
      LivePlus(a.live, p, n, a.lo, a.brk);
    }
    assert FreeUnits(b.nodes) + LiveUnits(b.live) == a.brk - a.lo by {
      CutUnits(a.nodes, i, n);
      LiveUnitsPlus(a.live, p, n);
    }
  }
}
