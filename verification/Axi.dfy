/** Wrapping bursts: the address generator and the addresses it produces.  The reference is the pseudocode of
    section A3.4.2 of the AMBA AXI and ACE Protocol Specification. */
module Axi {
  import Numerals

  const TWO_32: nat := 0x1_0000_0000

  function Wrap32(x: nat): (r: nat)
    ensures r < TWO_32 && (x < TWO_32 ==> r == x)
  {
    x % TWO_32
  }

  /** The fields of a transaction, with the names of the specification shortened. */
  datatype Tx = Tx(
    busy: bool, isWrite: bool, aligned: bool, n: nat, addr: nat,
    start: nat, bytes: nat, length: nat, alignedAddr: nat, lower: nat, upper: nat)

  function IdleTx(): (t: Tx)
    ensures !t.busy && !t.isWrite && t.n == 0
  { 
    Tx(false, false, false, 0, 0, 0, 0, 0, 0, 0, 0)
  }

  /** `1 << AxSIZE` for the four transfer sizes. */
  function SizeBytes(size: nat): (n: nat)
    requires size < 4
    ensures size == 0 ==> n == 1
    ensures 0 < size ==> n == 2 * SizeBytes(size - 1)
    ensures n == Numerals.Pow2(size) && (n == 1 || n == 2 || n == 4 || n == 8)
  {
    if size == 0 then 1 else if size == 1 then 2 else if size == 2 then 4 else 8
  }

  function AlignDown(x: nat, d: nat): (r: nat)
    requires 1 <= d
    ensures r <= x < r + d
  {
    x / d * d
  }

  /** `init`, in 32-bit arithmetic; `busy` and `isWrite` are set by the caller. */
  function Init(t: Tx, addr: nat, size: nat, len: nat): Tx
    requires size < 4 && len < 256
  {
    var bytes, length := SizeBytes(size), len + 1;
    MulPositive(bytes, length);
    var dtsize := bytes * length;
    var lower := AlignDown(addr, dtsize);
    Tx(t.busy, t.isWrite, false, 1, addr, addr, bytes, length, AlignDown(addr, bytes), lower, Wrap32(lower + dtsize))
  }

  /** `sync`: the address of the next beat. */
  function Next(t: Tx): Tx {
    var to := if t.aligned then Wrap32(t.addr + t.bytes) else Wrap32(t.alignedAddr + t.bytes);
    t.(n := Wrap32(t.n + 1), aligned := true, addr := if to >= t.upper then t.lower else to)
  }

  function Last(t: Tx): bool { t.n == t.length }

  /** The transaction after `k` beats. */
  function Beat(t: Tx, k: nat): Tx {
    if k == 0 then t else Next(Beat(t, k - 1))
  }

  // ---------------------------------------------------------------- windows and slots

  /** A burst request: the window is `length` slots of `bytes` bytes. */
  datatype Burst = Burst(start: nat, bytes: nat, length: nat) {
    predicate Ok() { 1 <= bytes && 1 <= length }

    function Size(): (s: nat)
      requires Ok()
      ensures 1 <= s
    {
      MulPositive(bytes, length);
      bytes * length
    }

    function Lower(): nat
      requires Ok()
    {
      AlignDown(start, Size())
    }

    /** The slot the first beat falls into. */
    function First(): nat
      requires Ok()
    {
      start / bytes % length
    }

    /** The slot of beat `k`, counting from 0. */
    function Slot(k: nat): nat
      requires Ok()
    {
      (First() + k) % length
    }

    /** The address of beat `k`: the start itself, then the slots in circular order. */
    function Address(k: nat): nat
      requires Ok()
    {
      if k == 0 then start else Lower() + bytes * Slot(k)
    }
  }

  lemma MulPositive(x: nat, y: nat)
    requires 1 <= x && 1 <= y
    ensures 1 <= x * y
  {}

  lemma MulSum(x: nat, y: nat, z: nat)
    ensures x * (y + z) == x * y + x * z
  {}

  lemma MulAssoc(x: nat, y: nat, z: nat)
    ensures x * (y * z) == (x * y) * z
  {}

  lemma MulMono(x: nat, y: nat, z: nat)
    requires y <= z
    ensures x * y <= x * z
  {
    MulSum(x, y, z - y);
  }

  lemma DivModUnique(x: nat, d: nat, q: nat, r: nat)
    requires 1 <= d && x == d * q + r && r < d
    ensures x / d == q && x % d == r
  {
    var q', r' := x / d, x % d;
    assert x == d * q' + r';
    if q' < q { MulMono(d, q' + 1, q); MulSum(d, q', 1); }
    if q < q' { MulMono(d, q + 1, q'); MulSum(d, q, 1); }
  }

  /** `bytes * (length * w + f) + r` lies in window `w`, `f` slots and `r` bytes in. */
  lemma Split(bytes: nat, length: nat, w: nat, f: nat, r: nat)
    requires 1 <= bytes && f < length && r < bytes
    ensures bytes * (length * w + f) == (bytes * length) * w + bytes * f
    ensures bytes * f + r < bytes * length
    ensures 1 <= bytes * length
    ensures ((bytes * length) * w + (bytes * f + r)) / (bytes * length) == w
    ensures ((bytes * length) * w + (bytes * f + r)) % (bytes * length) == bytes * f + r
  {
    MulSum(bytes, length * w, f);
    MulAssoc(bytes, length, w);
    MulMono(bytes, f + 1, length);
    MulSum(bytes, f, 1);
    DivModUnique((bytes * length) * w + (bytes * f + r), bytes * length, w, bytes * f + r);
  }

  /** The aligned start address is the window's base plus whole slots. */
  lemma AlignedInWindow(b: Burst)
    requires b.Ok()
    ensures AlignDown(b.start, b.bytes) == b.Lower() + b.bytes * b.First()
    ensures b.First() < b.length
    ensures b.Lower() <= b.start < b.Lower() + b.Size()
  {
    var q := b.start / b.bytes;
    DivModParts(b.start, b.bytes);
    DivModParts(q, b.length);
    AlignedParts(b.start, b.bytes, b.length, q, b.start % b.bytes, q / b.length, q % b.length);
  }

  lemma DivModParts(x: nat, d: nat)
    requires 1 <= d
    ensures x == d * (x / d) + x % d && x % d < d
  {}

  lemma AlignedParts(x: nat, bytes: nat, length: nat, q: nat, r: nat, w: nat, f: nat)
    requires x == bytes * q + r && q == length * w + f && f < length && r < bytes
    ensures 1 <= bytes * length
    ensures x / (bytes * length) == w
    ensures q * bytes == w * (bytes * length) + bytes * f
    ensures w * (bytes * length) <= x < w * (bytes * length) + bytes * length
  {
    Split(bytes, length, w, f, r);
    assert q * bytes == bytes * q;
    assert w * (bytes * length) == (bytes * length) * w;
  }

  lemma SlotSteps(b: Burst, k: nat)
    requires b.Ok()
    ensures b.Slot(k + 1) == if b.Slot(k) + 1 == b.length then 0 else b.Slot(k) + 1
    ensures b.Slot(k) < b.length
  {
    var x := b.First() + k;
    var q, r := x / b.length, x % b.length;
    assert x == b.length * q + r;
    if r + 1 == b.length {
      assert x + 1 == b.length * (q + 1) + 0 by { assert b.length * (q + 1) == b.length * q + b.length; }
      DivModUnique(x + 1, b.length, q + 1, 0);
    } else {
      DivModUnique(x + 1, b.length, q, r + 1);
    }
  }

  lemma SlotEnd(b: Burst, s: nat)
    requires b.Ok() && s < b.length
    ensures b.bytes * s + b.bytes <= b.Size()
    ensures b.bytes * s + b.bytes == b.Size() <==> s + 1 == b.length
    ensures b.bytes * (s + 1) == b.bytes * s + b.bytes && 0 <= b.bytes * s
  {
    assert b.bytes * (s + 1) == b.bytes * s + b.bytes;
    if s + 1 < b.length {
      assert b.bytes * (s + 2) <= b.bytes * b.length;
      assert b.bytes * (s + 2) == b.bytes * (s + 1) + b.bytes;
    }
  }

  /** The base of the next slot is one beat further, or the window's base again. */
  lemma StepAddress(b: Burst, k: nat)
    requires b.Ok()
    ensures var to := b.Lower() + b.bytes * b.Slot(k) + b.bytes;
            b.Lower() + b.bytes * b.Slot(k + 1) == if to >= b.Lower() + b.Size() then b.Lower() else to
    ensures b.bytes * b.Slot(k) + b.bytes <= b.Size()
    ensures b.Slot(k) + 1 < b.length <==> b.bytes * b.Slot(k) + b.bytes < b.Size()
  {
    SlotSteps(b, k);
    SlotEnd(b, b.Slot(k));
  }

  /** The slot form of the address is the offset form modulo the window size. */
  lemma SlotIsOffset(b: Burst, k: nat)
    requires b.Ok()
    ensures b.bytes * b.Slot(k) == (AlignDown(b.start, b.bytes) - b.Lower() + k * b.bytes) % b.Size()
  {
    AlignedInWindow(b);
    var x := b.First() + k;
    Split(b.bytes, b.length, x / b.length, x % b.length, 0);
    assert x == b.length * (x / b.length) + x % b.length;
    MulSum(b.bytes, b.First(), k);
  }

  // ---------------------------------------------------------------- the generator walks the window

  /** A transaction just initialised for burst `b`. */
  ghost predicate Starts(t: Tx, b: Burst) {
    && b.Ok() && b.start < TWO_32 && b.length < TWO_32
    && t.start == t.addr == b.start && t.bytes == b.bytes && t.length == b.length
    && t.n == 1 && !t.aligned
    && t.alignedAddr == AlignDown(b.start, b.bytes)
    && t.lower == b.Lower() && t.upper == Wrap32(b.Lower() + b.Size())
  }

  lemma InitStarts(t: Tx, addr: nat, size: nat, len: nat)
    requires size < 4 && len < 256 && addr < TWO_32
    ensures Starts(Init(t, addr, size, len), Burst(addr, SizeBytes(size), len + 1))
  {}

  /** Everything of a transaction that beat `k` determines. */
  ghost predicate AtBeat(u: Tx, t: Tx, b: Burst, k: nat)
    requires b.Ok()
  {
    u == t.(n := k + 1, aligned := 0 < k, addr := b.Address(k))
  }

  /** As long as the window does not reach the end of the address space, beat `k` is at `Address(k)`. */
  lemma {:induction false} BeatAddress(t: Tx, b: Burst, k: nat)
    requires Starts(t, b) && b.Lower() + b.Size() < TWO_32 && k + 1 < TWO_32
    ensures AtBeat(Beat(t, k), t, b, k)
  {
    if k > 0 {
      BeatAddress(t, b, k - 1);
      AlignedInWindow(b);
      FirstSlot(b);
      StepAddress(b, k - 1);
    }
  }

  lemma FirstSlot(b: Burst)
    requires b.Ok()
    ensures b.Slot(0) == b.First() < b.length
  {
    DivModParts(b.start / b.bytes, b.length);
    DivModUnique(b.First() + 0, b.length, 0, b.First());
  }

  /** The beats of a burst visit every slot of the window exactly once. */
  lemma EverySlotOnce(b: Burst, s: nat)
    requires b.Ok() && s < b.length
    ensures exists k: nat :: k < b.length && b.Slot(k) == s
    ensures forall i: nat, j: nat :: i < j < b.length ==> b.Slot(i) != b.Slot(j)
  {
    FirstSlot(b);
    var f := b.First();
    var k := if f <= s then s - f else b.length - f + s;
    DivModUnique(f + k, b.length, if f <= s then 0 else 1, s);
    assert k < b.length && b.Slot(k) == s;
    forall i: nat, j: nat | i < j < b.length ensures b.Slot(i) != b.Slot(j) {
      SlotOf(b, i);
      SlotOf(b, j);
    }
  }

  lemma SlotOf(b: Burst, k: nat)
    requires b.Ok() && k < b.length
    ensures b.Slot(k) == if b.First() + k < b.length then b.First() + k else b.First() + k - b.length
  {
    FirstSlot(b);
    var x := b.First() + k;
    if x < b.length { DivModUnique(x, b.length, 0, x); } else { DivModUnique(x, b.length, 1, x - b.length); }
  }

  /** Every beat stays inside the window. */
  lemma AddressInWindow(b: Burst, k: nat)
    requires b.Ok()
    ensures b.Lower() <= b.Address(k) < b.Lower() + b.Size()
  {
    hide Burst.Slot, Burst.Lower, Burst.Size;
    AlignedInWindow(b);
    SlotSteps(b, k);
    SlotEnd(b, b.Slot(k));
  }

  // ---------------------------------------------------------------- windows at the end of the address space

  /** The beat sizes the device takes. */
  predicate ListedSize(bytes: nat) {
    bytes == 1 || bytes == 2 || bytes == 4 || bytes == 8
  }

  /** The requests the two enumerations allow: 1, 2, 4 or 8 bytes a beat, 1, 2, 4, 8 or 16 beats. */
  predicate Listed(b: Burst) {
    && ListedSize(b.bytes)
    && (b.length == 1 || b.length == 2 || b.length == 4 || b.length == 8 || b.length == 16)
  }

  /** A window whose size divides the address space lies inside it. */
  lemma DividedFits(x: nat, s: nat, m: nat)
    requires 1 <= s && s * m == TWO_32 && x < TWO_32
    ensures AlignDown(x, s) + s <= TWO_32
  {
    var w := x / s;
    if m <= w {
      assert w * s >= m * s by { MulMono(s, m, w); MulComm(s, m); MulComm(s, w); }
      MulComm(s, m);
    } else {
      assert (w + 1) * s <= m * s by { MulMono(s, w + 1, m); MulComm(s, m); MulComm(s, w + 1); }
      MulSum(s, w, 1);
      MulComm(s, w); MulComm(s, w + 1); MulComm(s, m);
    }
  }

  lemma MulComm(x: nat, y: nat)
    ensures x * y == y * x
  {}

  lemma ListedDivides(b: Burst) returns (m: nat)
    requires Listed(b)
    ensures b.Ok() && b.Size() * m == TWO_32
  {
    var s := b.bytes * b.length;
    assert s == 1 || s == 2 || s == 4 || s == 8 || s == 16 || s == 32 || s == 64 || s == 128;
    m := if s == 1 then 0x1_0000_0000 else if s == 2 then 0x8000_0000 else if s == 4 then 0x4000_0000
         else if s == 8 then 0x2000_0000 else if s == 16 then 0x1000_0000 else if s == 32 then 0x800_0000
         else if s == 64 then 0x400_0000 else 0x200_0000;
  }

  /** The windows of the two enumerations never cross the end of the address space. */
  lemma WindowFits(b: Burst)
    requires Listed(b) && b.start < TWO_32
    ensures b.Lower() + b.Size() <= TWO_32
  {
    var m := ListedDivides(b);
    DividedFits(b.start, b.Size(), m);
  }

  /** In the topmost window the upper boundary wraps to 0, and every later beat falls back to its base. */
  lemma {:induction false} TopWindowStuck(t: Tx, b: Burst, k: nat)
    requires Starts(t, b) && b.Lower() + b.Size() == TWO_32 && 1 <= k
    ensures Beat(t, k).addr == b.Lower() && Beat(t, k).upper == 0 && Beat(t, k).lower == b.Lower()
  {
    if k > 1 { TopWindowStuck(t, b, k - 1); }
  }

  lemma {:induction false} BeatBelow(t: Tx, b: Burst, k: nat)
    requires Starts(t, b)
    ensures Beat(t, k).addr < TWO_32 && Beat(t, k).lower == b.Lower()
  {
    if k > 0 { BeatBelow(t, b, k - 1); }
  }

  /** In a window that crosses the end of the address space the topmost slot lies beyond it; the generator, whose
      addresses are 32-bit numbers, never gets there. */
  lemma CrossingMissesTop(t: Tx, b: Burst) returns (k: nat)
    requires Starts(t, b) && ListedSize(b.bytes) && TWO_32 < b.Lower() + b.Size()
    ensures k < b.length && Beat(t, k).addr != b.Address(k)
  {
    var top := b.length - 1;
    EverySlotOnce(b, top);
    k :| k < b.length && b.Slot(k) == top;
    TopSlotBeyond(b);
    BeatBelow(t, b, k);
    if k == 0 { FirstSlot(b); AlignedInWindow(b); }
  }

  lemma TopSlotBeyond(b: Burst)
    requires b.Ok() && ListedSize(b.bytes) && TWO_32 < b.Lower() + b.Size()
    ensures TWO_32 <= b.Lower() + b.bytes * (b.length - 1)
  {
    var w := b.start / b.Size();
    var n := w * b.length + b.length;
    MulAssoc(b.bytes, b.length, w);
    MulSum(b.bytes, w * b.length, b.length);
    MulSum(b.bytes, b.length - 1, 1);
    assert b.Lower() + b.Size() == b.bytes * n by { MulComm(w, b.Size()); MulComm(w, b.length); }
    BeyondByOne(b.bytes, n);
    MulSum(b.bytes, n - 1, 1);
  }

  /** A multiple of the beat size above 2^32 is above it by a whole beat. */
  lemma BeyondByOne(bytes: nat, n: nat)
    requires ListedSize(bytes) && TWO_32 < bytes * n
    ensures TWO_32 + bytes <= bytes * n
  {
    if bytes == 1 {} else if bytes == 2 {} else if bytes == 4 {} else {}
  }

  /** The generator produces the right address for every beat, whatever their number, exactly when the window ends
      below 2^32, or the burst is too short for the wrapped boundary to show. */
  lemma WrapExact(t: Tx, b: Burst)
    requires Starts(t, b) && ListedSize(b.bytes)
    ensures (forall k: nat :: k < b.length ==> Beat(t, k).addr == b.Address(k))
       <==> (b.Lower() + b.Size() < TWO_32
             || (b.Lower() + b.Size() == TWO_32 && (b.length == 1 || (b.length == 2 && b.First() == 1))))
  {
    if b.Lower() + b.Size() < TWO_32 {
      forall k: nat | k < b.length ensures Beat(t, k).addr == b.Address(k) { BeatAddress(t, b, k); }
    } else if b.Lower() + b.Size() == TWO_32 {
      TopWindowExact(t, b);
    } else {
      var k := CrossingMissesTop(t, b);
    }
  }

  lemma TopWindowExact(t: Tx, b: Burst)
    requires Starts(t, b) && b.Lower() + b.Size() == TWO_32
    ensures (forall k: nat :: k < b.length ==> Beat(t, k).addr == b.Address(k))
       <==> b.length == 1 || (b.length == 2 && b.First() == 1)
  {
    FirstSlot(b);
    forall k: nat | 1 <= k < b.length
      ensures Beat(t, k).addr == b.Address(k) <==> b.Slot(k) == 0
    {
      TopWindowStuck(t, b, k);
      SlotSteps(b, k);
      if 0 < b.Slot(k) { MulPositive(b.bytes, b.Slot(k)); }
    }
    assert Beat(t, 0).addr == b.Address(0);
    if b.length == 2 { SlotOf(b, 1); }
    if b.length > 2 {
      SlotOf(b, 1);
      SlotOf(b, 2);
      assert Beat(t, 1).addr != b.Address(1) || Beat(t, 2).addr != b.Address(2);
    }
  }

  // ---------------------------------------------------------------- the specification's pseudocode

  datatype Reference = Reference(addr: nat, aligned: bool)

  /** The address update of section A3.4.2 for WRAP bursts, over unbounded addresses. */
  function ReferenceNext(r: Reference, b: Burst): Reference
    requires b.Ok()
  {
    if r.aligned then
      var to := r.addr + b.bytes;
      Reference(if to >= b.Lower() + b.Size() then b.Lower() else to, true)
    else Reference(AlignDown(b.start, b.bytes) + b.bytes, true)
  }

  function ReferenceBeat(b: Burst, k: nat): Reference
    requires b.Ok()
  {
    if k == 0 then Reference(b.start, b.start % b.bytes == 0) else ReferenceNext(ReferenceBeat(b, k - 1), b)
  }

  /** The pseudocode's address of beat `k`: it lacks the wrap test after an unaligned first beat. */
  lemma {:induction false} ReferenceAddress(b: Burst, k: nat)
    requires b.Ok() && (b.start % b.bytes == 0 || b.First() + 1 < b.length)
    ensures ReferenceBeat(b, k).addr == b.Address(k)
    ensures ReferenceBeat(b, k).aligned <==> 0 < k || b.start % b.bytes == 0
  {
    FirstSlot(b);
    if k > 0 {
      ReferenceAddress(b, k - 1);
      AlignedInWindow(b);
      StepAddress(b, k - 1);
      if b.start % b.bytes == 0 { DivExact(b.start, b.bytes); }
    }
  }

  lemma DivExact(x: nat, d: nat)
    requires 1 <= d && x % d == 0
    ensures x / d * d == x
  {}

  /** The generator, which starts with `aligned` false and always tests for wrapping, follows the pseudocode
      beat for beat exactly when the start is aligned, or the burst does not wrap right after its first beat. */
  lemma FollowsReference(t: Tx, b: Burst)
    requires Starts(t, b) && b.Lower() + b.Size() < TWO_32
    ensures (forall k: nat :: k < b.length ==> Beat(t, k).addr == ReferenceBeat(b, k).addr)
       <==> (b.start % b.bytes == 0 || b.length == 1 || b.First() + 1 < b.length)
  {
    FirstSlot(b);
    if b.start % b.bytes == 0 || b.First() + 1 < b.length {
      forall k: nat | k < b.length ensures Beat(t, k).addr == ReferenceBeat(b, k).addr {
        BeatAddress(t, b, k);
        ReferenceAddress(b, k);
      }
    } else if 1 < b.length {
      BeatAddress(t, b, 1);
      OvershootsTop(b);
    }
  }

  /** An unaligned start in the last slot: the pseudocode leaves the window, the wrapped address does not. */
  lemma OvershootsTop(b: Burst)
    requires b.Ok() && b.start % b.bytes != 0 && b.First() + 1 == b.length
    ensures ReferenceBeat(b, 1).addr == b.Lower() + b.Size() && b.Address(1) == b.Lower()
  {
    AlignedInWindow(b);
    FirstSlot(b);
    StepAddress(b, 0);
    assert ReferenceBeat(b, 1) == ReferenceNext(ReferenceBeat(b, 0), b);
  }
}
