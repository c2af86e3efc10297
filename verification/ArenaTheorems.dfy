/** What the allocator promises about whole calls and whole runs. */
module ArenaTheorems {
  import opened ArenaSpec

  /** Before the first call: nothing but the sentinel, nothing obtained from `sbrk`. */
  function Initial(base: nat, lo: nat): (a: Arena)
    requires base < lo
    ensures Inv(a)
  {
    assert FreeUnits([Span(base, 0)]) == 0 by { assert [Span(base, 0)][1..] == []; }
    Arena([Span(base, 0)], 0, map[], lo, lo, false)
  }

  // ---------------------------------------------------------------- malloc as a whole

  lemma {:induction false} BelowFromIs(nodes: seq<Span>, addr: nat, i: nat, k: nat)
    requires Ordered(nodes) && i <= k < |nodes| && nodes[i].addr < addr
    requires nodes[k].addr < addr && (k + 1 < |nodes| ==> addr <= nodes[k + 1].addr)
    ensures BelowFrom(nodes, addr, i) == k
    decreases k - i
  {
    if i < k {
      assert i + 1 == k || nodes[i + 1].End() < nodes[k].addr;
      BelowFromIs(nodes, addr, i + 1, k);
    }
  }

  lemma BelowIs(nodes: seq<Span>, addr: nat, k: nat)
    requires Ordered(nodes) && k < |nodes|
    requires nodes[k].addr < addr && (k + 1 < |nodes| ==> addr <= nodes[k + 1].addr)
    ensures 0 < |nodes| && nodes[0].addr < addr && Below(nodes, addr) == k
  {
    assert k == 0 || nodes[0].End() < nodes[k].addr;
    BelowFromIs(nodes, addr, 0, k);
  }

  /** New core joins the topmost free span if that one reaches `brk`, and is linked last otherwise. */
  lemma GrowAtTop(a: Arena, n: nat)
    requires Inv(a) && 1 <= n
    ensures var k := |a.nodes| - 1;
            var top := a.nodes[k];
            var core := CoreUnits(n);
            && Grow(a, n).rover == k
            && Grow(a, n).brk == a.brk + core
            && Grow(a, n).nodes == (if top.End() == a.brk then a.nodes[k := Span(top.addr, top.len + core)]
                                    else a.nodes + [Span(a.brk, core)])
  {
    var k := |a.nodes| - 1;
    assert k == 0 || Inside(a.nodes[k], a.lo, a.brk);
    BelowIs(a.nodes, a.brk, k);
    assert a.nodes[k + 1..] == [];
    assert a.nodes[..k + 1] == a.nodes;
  }

  /** After growing, one circle from the new rover always finds room. */
  lemma SupplyFits(a: Arena, n: nat)
    requires Inv(a) && 1 <= n
    ensures var s := Supply(a, n);
            && Inv(s) && s.live == a.live && s.spent == a.spent
            && s.nodes[0] == a.nodes[0]
            && HasFit(s, n)
  {
    hide Inv, Release, Below, Insert, NextFit, Extend, CoreUnits;
    InvConserves(a);
    NextFitExact(a, n);
    var s := Supply(a, n);
    if NextFit(a, n).None? {
      GrowKeepsInv(a, n);
      InvConserves(Grow(a, n));
      GrowAtTop(a, n);
      var t := |s.nodes| - 1;
      assert n <= s.nodes[t].len;
      NextFitExact(s, n);
    }
  }

  /** The node next fit chooses exists and has room; node 0, the sentinel, is never chosen. */
  ghost predicate HasFit(s: Arena, n: nat) {
    && s.rover < |s.nodes|
    && NextFit(s, n).Some?
    && 1 <= NextFit(s, n).value < |s.nodes|
    && n <= s.nodes[NextFit(s, n).value].len
  }

  ghost function CarveNext(s: Arena, n: nat): Arena
    requires HasFit(s, n)
  {
    Carve(s, NextFit(s, n).value, n)
  }

  ghost function NextBlock(s: Arena, n: nat): nat
    requires HasFit(s, n)
  {
    s.nodes[NextFit(s, n).value].End() - n
  }

  /** `malloc` for `n` units, and the address of the header of the block it returns. */
  ghost function Allocate(a: Arena, n: nat): Arena
    requires Inv(a) && 1 <= n
  {
    SupplyFits(a, n);
    CarveNext(Supply(a, n), n)
  }

  ghost function BlockAt(a: Arena, n: nat): nat
    requires Inv(a) && 1 <= n
  {
    SupplyFits(a, n);
    NextBlock(Supply(a, n), n)
  }

  /** malloc keeps the invariant, hands out a block that was not live and touches no live one, and asks
      `sbrk` for more only when no free span is big enough. */
  lemma AllocateKeepsInv(a: Arena, n: nat)
    requires Inv(a) && 1 <= n
    ensures var b := Allocate(a, n);
            && Inv(b)
            && BlockAt(a, n) !in a.live
            && b.live == a.live[BlockAt(a, n) := n]
            && b.lo == a.lo
            && b.spent == a.spent
            && b.brk == (if NextFit(a, n).Some? then a.brk else a.brk + CoreUnits(n))
            && b.nodes[0] == a.nodes[0]
  {
    hide Inv, NextFit, Insert;
    InvConserves(a);
    SupplyFits(a, n);
    var s := Supply(a, n);
    var i := NextFit(s, n).value;
    assert Allocate(a, n) == Carve(s, i, n) && BlockAt(a, n) == s.nodes[i].End() - n;
    assert s.nodes[0] == a.nodes[0] && Cut(s.nodes, i, n)[0] == s.nodes[0];
    CarveKeepsInv(s, i, n);
  }

  // ---------------------------------------------------------------- the end of the address space

  /** `malloc` finds room, or core that ends inside the address space. */
  ghost predicate Serves(a: Arena, n: nat) {
    && a.rover < |a.nodes|
    && (NextFit(a, n).Some? || (!a.spent && a.brk + CoreUnits(n) <= ADDRESS_UNITS))
  }

  /** `malloc` finds no room, and `sbrk`, whose break has come back to 0, hands out the null pointer. */
  ghost predicate Refuses(a: Arena, n: nat) {
    a.rover < |a.nodes| && NextFit(a, n).None? && !a.spent && a.brk == ADDRESS_UNITS
  }

  /** When it does which: a request is served if some node is big enough, or the core for it ends inside the address
      space; it is refused if no node is big enough and the address space is used up. */
  lemma ServesExact(a: Arena, n: nat)
    requires a.rover < |a.nodes|
    ensures Serves(a, n) <==>
            ((exists t :: 0 <= t < |a.nodes| && n <= a.nodes[t].len)
             || (!a.spent && a.brk + CoreUnits(n) <= 0x2000_0000))
    ensures Refuses(a, n) <==>
            ((forall t :: 0 <= t < |a.nodes| ==> a.nodes[t].len < n) && !a.spent && a.brk == 0x2000_0000)
  {
    hide NextFit, CoreUnits;
    NextFitExact(a, n);
  }

  /** `malloc` on a 32-bit machine.  A refusal changes nothing but the break of `sbrk`. */
  ghost function Reply(a: Arena, n: nat): Arena
    requires Inv(a) && 1 <= n
  {
    if Serves(a, n) then Allocate(a, n) else a.(spent := true)
  }

  /** No address of a span or block, and no end of one, is beyond the address space. */
  ghost predicate Addressable(a: Arena) {
    && a.brk <= ADDRESS_UNITS
    && (forall i :: 0 <= i < |a.nodes| ==> a.nodes[i].End() <= ADDRESS_UNITS)
    && (forall p :: p in a.live ==> p + a.live[p] <= ADDRESS_UNITS)
  }

  lemma BreakBoundsAll(a: Arena)
    requires Inv(a) && a.brk <= ADDRESS_UNITS
    ensures Addressable(a)
  {
    forall i | 1 <= i < |a.nodes| ensures a.nodes[i].End() <= a.brk {
      assert Inside(a.nodes[i], a.lo, a.brk);
    }
  }

  lemma ReplyKeepsInv(a: Arena, n: nat)
    requires Inv(a) && 1 <= n && a.brk <= ADDRESS_UNITS && (Serves(a, n) || Refuses(a, n))
    ensures var b := Reply(a, n);
            && Inv(b) && b.lo == a.lo && a.brk <= b.brk <= ADDRESS_UNITS && b.nodes[0] == a.nodes[0]
            && (Refuses(a, n) ==>
                  !Serves(a, n) && b.nodes == a.nodes && b.rover == a.rover && b.live == a.live && b.brk == a.brk)
  {
    if Serves(a, n) {
      hide Inv;
      AllocateKeepsInv(a, n);
    }
  }

  /** Which units malloc hands out: the last ones of the node next fit chooses.  That node is shortened, or unlinked
      if nothing is left of it; all other nodes stay, and the rover is left at the node before it. */
  lemma AllocateTakesTail(a: Arena, n: nat)
    requires Inv(a) && 1 <= n
    ensures var s, b := Supply(a, n), Allocate(a, n);
            && HasFit(s, n)
            && var i := NextFit(s, n).value;
            && BlockAt(a, n) + n == s.nodes[i].addr + s.nodes[i].len
            && b.rover + 1 == i
            && (s.nodes[i].len == n ==> b.nodes == s.nodes[..i] + s.nodes[i + 1..])
            && (s.nodes[i].len != n ==>
                  && |b.nodes| == |s.nodes| && b.nodes[i] == Span(s.nodes[i].addr, s.nodes[i].len - n)
                  && forall j :: 0 <= j < |s.nodes| && j != i ==> b.nodes[j] == s.nodes[j])
  {
    hide Inv, NextFit, Supply;
    SupplyFits(a, n);
  }

  lemma LiveIsExclusive(b: Arena, p: nat)
    requires Inv(b) && p in b.live
    ensures b.lo <= p && p + b.live[p] <= b.brk
    ensures forall q :: q in b.live && q != p ==> Apart(Span(p, b.live[p]), q, b.live[q])
    ensures AllApart(b.nodes, p, b.live[p])
  {}

  /** No unit of a new block belongs to another live block or to a free span.  It has room for the bytes asked
      for and lies inside the address space exactly when their number does not wrap when it is rounded up, and
      the core, if more is needed, ends inside the address space. */
  lemma PayloadIsExclusive(a: Arena, nbytes: nat)
    requires Inv(a) && a.brk <= ADDRESS_UNITS && nbytes < SIZE_LIMIT
    ensures var n := Units(nbytes);
            var b, p := Allocate(a, n), BlockAt(a, n);
            && (nbytes <= (n - 1) * HEADER_BYTES && Addressable(b)
                <==> nbytes + HEADER_BYTES - 1 < SIZE_LIMIT
                     && (NextFit(a, n).Some? || a.brk + CoreUnits(n) <= ADDRESS_UNITS))
            && a.lo <= p && p + n <= b.brk
            && (forall q :: q in a.live ==> Apart(Span(p, n), q, a.live[q]))
            && AllApart(b.nodes, p, n)
  {
    var n := Units(nbytes);
    UnitsExact(nbytes);
    AllocateKeepsInv(a, n);
    var b, p := Allocate(a, n), BlockAt(a, n);
    LiveIsExclusive(b, p);
    if b.brk <= ADDRESS_UNITS { BreakBoundsAll(b); }
    forall q | q in a.live ensures Apart(Span(p, n), q, a.live[q]) {
      assert q in b.live && b.live[q] == a.live[q];
    }
  }

  /** A tail put back behind the span it was cut from joins it again and nothing else. */
  lemma TailJoinsBack(init: seq<Span>, node: Span, n: nat, above: seq<Span>)
    requires n < node.len && (above != [] ==> node.End() < above[0].addr)
    ensures JoinLeft(init + [Span(node.addr, node.len - n)], JoinRight(Span(node.End() - n, n), above))
         == init + [node] + above
  {
    var cut, tail := Span(node.addr, node.len - n), Span(node.End() - n, n);
    assert JoinRight(tail, above) == [tail] + above;
    assert (init + [cut])[..|init|] == init;
    assert ([tail] + above)[1..] == above;
  }

  /** A span linked between neighbours it does not touch stays as it is. */
  lemma SpanRelinks(below: seq<Span>, node: Span, above: seq<Span>)
    requires below != [] && below[|below| - 1].End() < node.addr
    requires above != [] ==> node.End() < above[0].addr
    ensures JoinLeft(below, JoinRight(node, above)) == below + [node] + above
  {
    assert JoinRight(node, above) == [node] + above;
    assert below + ([node] + above) == below + [node] + above;
  }

  lemma Gap(nodes: seq<Span>, i: nat)
    requires Ordered(nodes) && i + 1 < |nodes|
    ensures nodes[i].End() < nodes[i + 1].addr
  {}

  lemma SplitAt(nodes: seq<Span>, i: nat)
    requires i < |nodes|
    ensures nodes == nodes[..i] + [nodes[i]] + nodes[i + 1..]
  {}

  lemma InsertCut(nodes: seq<Span>, i: nat, n: nat)
    requires 1 <= i < |nodes| && 1 <= n <= nodes[i].len
    requires nodes[i - 1].End() < nodes[i].addr && (i + 1 < |nodes| ==> nodes[i].End() < nodes[i + 1].addr)
    ensures var k := if nodes[i].len == n then i - 1 else i;
            k < |Cut(nodes, i, n)| && Insert(Cut(nodes, i, n), k, Span(nodes[i].End() - n, n)) == nodes
  {
    hide JoinLeft, JoinRight;
    var r := Cut(nodes, i, n);
    SplitAt(nodes, i);
    if nodes[i].len == n {
      assert r[..i] == nodes[..i] && r[i..] == nodes[i + 1..];
      SpanRelinks(nodes[..i], nodes[i], nodes[i + 1..]);
    } else {
      assert r[..i + 1] == nodes[..i] + [r[i]] && r[i + 1..] == nodes[i + 1..];
      TailJoinsBack(nodes[..i], nodes[i], n, nodes[i + 1..]);
    }
  }

  lemma BelowShortened(nodes: seq<Span>, i: nat, n: nat)
    requires i < |nodes| && 1 <= n < nodes[i].len && Ordered(Cut(nodes, i, n))
    requires i + 1 < |nodes| ==> nodes[i].End() < nodes[i + 1].addr
    ensures Cut(nodes, i, n)[0].addr < nodes[i].End() - n
    ensures Below(Cut(nodes, i, n), nodes[i].End() - n) == i
  {
    BelowIs(Cut(nodes, i, n), nodes[i].End() - n, i);
  }

  lemma BelowUnlinked(nodes: seq<Span>, i: nat)
    requires 1 <= i < |nodes| && Ordered(Cut(nodes, i, nodes[i].len))
    requires nodes[i - 1].End() < nodes[i].addr && (i + 1 < |nodes| ==> nodes[i].End() < nodes[i + 1].addr)
    ensures var r := Cut(nodes, i, nodes[i].len);
            0 < |r| && r[0].addr < nodes[i].addr && Below(r, nodes[i].addr) == i - 1
  {
    var r := Cut(nodes, i, nodes[i].len);
    assert r[i - 1] == nodes[i - 1];
    assert i < |r| ==> r[i] == nodes[i + 1];
    BelowIs(r, nodes[i].addr, i - 1);
  }

  lemma BelowCut(nodes: seq<Span>, i: nat, n: nat)
    requires Ordered(nodes) && 1 <= i < |nodes| && 1 <= n <= nodes[i].len
    requires Ordered(Cut(nodes, i, n))
    ensures var r, p := Cut(nodes, i, n), nodes[i].End() - n;
            && 0 < |r| && r[0].addr < p
            && Below(r, p) == (if nodes[i].len == n then i - 1 else i)
  {
    Gap(nodes, i - 1);
    if i + 1 < |nodes| { Gap(nodes, i); }
    if nodes[i].len == n { BelowUnlinked(nodes, i); } else { BelowShortened(nodes, i, n); }
  }

  /** The units cut from a free list, put back by `Insert`, give the same free list again. */
  ghost predicate CutIsUndone(nodes: seq<Span>, i: nat, n: nat)
    requires i < |nodes| && n <= nodes[i].len
  {
    var r, p := Cut(nodes, i, n), nodes[i].End() - n;
    0 < |r| && r[0].addr < p && Insert(r, Below(r, p), Span(p, n)) == nodes
  }

  lemma CutReinserts(nodes: seq<Span>, i: nat, n: nat)
    requires Ordered(nodes) && 1 <= i < |nodes| && 1 <= n <= nodes[i].len
    requires Ordered(Cut(nodes, i, n))
    ensures CutIsUndone(nodes, i, n)
  {
    BelowCut(nodes, i, n);
    Gap(nodes, i - 1);
    if i + 1 < |nodes| { Gap(nodes, i); }
    InsertCut(nodes, i, n);
  }

  /** Freeing the block at `p` turns arena `b` back into arena `s`, up to the rover. */
  ghost predicate FreeGivesBack(b: Arena, p: nat, s: Arena) {
    && 0 < |b.nodes| && b.nodes[0].addr < p && p in b.live
    && Release(b, p) == s.(rover := Below(b.nodes, p))
  }

  lemma ReleaseUndoesCarve(s: Arena, i: nat, n: nat)
    requires 1 <= i < |s.nodes| && 1 <= n <= s.nodes[i].len && s.nodes[i].End() - n !in s.live
    requires CutIsUndone(s.nodes, i, n)
    ensures FreeGivesBack(Carve(s, i, n), s.nodes[i].End() - n, s)
  {
    var p := s.nodes[i].End() - n;
    var r := Cut(s.nodes, i, n);
    var b := Carve(s, i, n);
    assert b.nodes == r && b.live[p] == n;
    assert b.live - {p} == s.live;
    assert Insert(b.nodes, Below(b.nodes, p), Span(p, b.live[p])) == s.nodes;
  }

  lemma UndoAt(s: Arena, i: nat, n: nat)
    requires Inv(s) && 1 <= i < |s.nodes| && 1 <= n <= s.nodes[i].len
    ensures FreeGivesBack(Carve(s, i, n), s.nodes[i].End() - n, s)
  {
    assert s.nodes[i].End() - n !in s.live by { CarveKeepsInv(s, i, n); }
    assert Ordered(Cut(s.nodes, i, n)) by { CutNodes(s.nodes, i, n, s.lo, s.brk); }
    CutReinserts(s.nodes, i, n);
    ReleaseUndoesCarve(s, i, n);
  }

  lemma UndoNext(s: Arena, n: nat)
    requires Inv(s) && 1 <= n && HasFit(s, n)
    ensures FreeGivesBack(CarveNext(s, n), NextBlock(s, n), s)
  {
    hide Inv, Carve;
    UndoAt(s, NextFit(s, n).value, n);
  }

  /** Freeing what malloc just returned restores the free list malloc cut it from, span by span. */
  lemma FreeUndoesMalloc(a: Arena, n: nat)
    requires Inv(a) && 1 <= n
    ensures FreeGivesBack(Allocate(a, n), BlockAt(a, n), Supply(a, n))
  {
    SupplyFits(a, n);
    UndoNext(Supply(a, n), n);
  }

  // ---------------------------------------------------------------- full coalescing

  lemma {:induction false} GapsCost(nodes: seq<Span>, lo: nat, brk: nat)
    requires nodes != [] && Ordered(nodes) && InsideFrom(nodes, 0, lo, brk)
    ensures nodes[0].addr + FreeUnits(nodes) <= brk
    ensures 2 <= |nodes| ==> nodes[0].addr + FreeUnits(nodes) < brk
  {
    if |nodes| == 1 {
      assert FreeUnits(nodes[1..]) == 0;
    } else {
      GapsCost(nodes[1..], lo, brk);
    }
  }

  /** Once every block is freed the free list is one span covering all core ever obtained. */
  lemma AllFreedIsOneSpan(a: Arena)
    requires Inv(a) && a.live == map[]
    ensures a.nodes == [a.nodes[0]] + (if a.brk == a.lo then [] else [Span(a.lo, a.brk - a.lo)])
  {
    var rest := a.nodes[1..];
    assert FreeUnits(a.nodes) == FreeUnits(rest);
    assert LiveUnits(a.live) == 0;
    if rest != [] {
      GapsCost(rest, a.lo, a.brk);
      assert Inside(rest[0], a.lo, a.brk);
    }
  }

  lemma InvConserves(a: Arena)
    requires Inv(a)
    ensures Shape(a) && FreeUnits(a.nodes) + LiveUnits(a.live) == a.brk - a.lo
  {}

  // ---------------------------------------------------------------- runs

  datatype Call = Malloc(nbytes: nat) | Free(block: nat)

  /** Callers free live blocks only; they may call malloc as long as it can serve or refuse them. */
  ghost predicate Legal(a: Arena, calls: seq<Call>)
    requires Inv(a) && a.brk <= ADDRESS_UNITS
    decreases |calls|
  {
    calls == [] ||
    match calls[0]
    case Malloc(nbytes) =>
      && nbytes < SIZE_LIMIT
      && (Serves(a, Units(nbytes)) || Refuses(a, Units(nbytes)))
      && (ReplyKeepsInv(a, Units(nbytes)); Legal(Reply(a, Units(nbytes)), calls[1..]))
    case Free(p) =>
      p in a.live && (ReleaseKeepsInv(a, p); Legal(Release(a, p), calls[1..]))
  }

  ghost function Run(a: Arena, calls: seq<Call>): Arena
    requires Inv(a) && a.brk <= ADDRESS_UNITS && Legal(a, calls)
    decreases |calls|
  {
    if calls == [] then a else
    match calls[0]
    case Malloc(nbytes) =>
      ReplyKeepsInv(a, Units(nbytes));
      Run(Reply(a, Units(nbytes)), calls[1..])
    case Free(p) =>
      ReleaseKeepsInv(a, p);
      Run(Release(a, p), calls[1..])
  }

  lemma {:induction false} RunKeepsInv(a: Arena, calls: seq<Call>)
    requires Inv(a) && a.brk <= ADDRESS_UNITS && Legal(a, calls)
    ensures var b := Run(a, calls);
            Inv(b) && Addressable(b) && b.lo == a.lo && a.brk <= b.brk && b.nodes[0] == a.nodes[0]
    decreases |calls|
  {
    if calls == [] {
      BreakBoundsAll(a);
    } else {
      match calls[0]
      case Malloc(nbytes) =>
        var n := Units(nbytes);
        ReplyKeepsInv(a, n);
        RunKeepsInv(Reply(a, n), calls[1..]);
      case Free(p) =>
        ReleaseKeepsInv(a, p);
        RunKeepsInv(Release(a, p), calls[1..]);
    }
  }

  /** Every run from the first call: the free list stays one address-ordered circle through `base`
      without adjacent spans, blocks are disjoint, free units plus live units are what `sbrk` gave, and no
      address, and no sum of an address and a size, leaves the address space. */
  lemma EveryRunIsSound(base: nat, lo: nat, calls: seq<Call>)
    requires base < lo <= ADDRESS_UNITS && Legal(Initial(base, lo), calls)
    ensures var b := Run(Initial(base, lo), calls);
            && Inv(b) && Addressable(b)
            && b.nodes[0] == Span(base, 0)
            && FreeUnits(b.nodes) + LiveUnits(b.live) == b.brk - lo
            && (b.live == map[] && lo < b.brk ==> b.nodes == [Span(base, 0), Span(lo, b.brk - lo)])
  {
    hide Inv, Run, Legal;
    var a := Initial(base, lo);
    RunKeepsInv(a, calls);
    InvConserves(Run(a, calls));
    if Run(a, calls).live == map[] { AllFreedIsOneSpan(Run(a, calls)); }
  }
}
