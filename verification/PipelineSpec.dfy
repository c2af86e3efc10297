/** The data-bus pipeline: requests queue up as `pending`, are accepted into `ongoing`, and complete in order. */
module PipelineSpec {
  import opened Options
  import opened Words
  import opened LoadOps

  /** A task with a destination is a load into host memory; without one it is a store, if its strobe is not
      0, or an expectation about the loaded value. */
  datatype Task = Task(addr: nat, size: nat, data: Word, strobe: nat, dest: Option<nat>, op: LoadOp) {
    predicate IsLoad() { strobe == 0 }
  }

  /** What `issue` puts on the bus: a load carries neither strobe nor data. */
  datatype Request = Request(addr: nat, size: nat, strobe: nat, data: Word)

  function Issued(t: Task): Request {
    if t.IsLoad() then Request(t.addr, t.size, 0, 0) else Request(t.addr, t.size, t.strobe, t.data)
  }

  datatype Pipe = Pipe(bus: Option<Request>, pending: seq<Task>, ongoing: seq<Task>, host: seq<bv8>, ok: bool)

  /** The answers of the bus in one cycle. */
  datatype Signals = Signals(addrOk: bool, dataOk: bool, data: Word)

  ghost predicate TaskOk(t: Task, hostSize: nat) {
    && t.strobe < 16
    && (t.dest.Some? ==> t.strobe == 0 && t.dest.value + t.op.Width() <= hostSize)
  }

  // ---------------------------------------------------------------- operations

  function BusFor(pending: seq<Task>): Option<Request> {
    if pending == [] then None else Some(Issued(pending[0]))
  }

  function Submit(p: Pipe, t: Task): Pipe {
    p.(pending := p.pending + [t], bus := if p.bus.None? then Some(Issued(t)) else p.bus)
  }

  /** Host memory after a completed task. */
  function Delivered(host: seq<bv8>, t: Task, data: Word): (h: seq<bv8>)
    requires t.dest.Some? ==> t.dest.value + t.op.Width() <= |host|
    ensures |h| == |host|
  {
    if t.dest.None? then host
    else host[..t.dest.value] + Selected(t.op, data) + host[t.dest.value + t.op.Width()..]
  }

  /** The lanes of the operation carry the expected value. */
  predicate LanesMatch(t: Task, data: Word) {
    Agree(t.data, data, t.op.LaneMask())
  }

  /** Only a load without destination is an expectation. */
  predicate Expected(t: Task, data: Word) {
    t.dest.Some? || !t.IsLoad() || LanesMatch(t, data)
  }

  /** Host memory byte by byte: the selected lanes of the answer from the destination on, and nothing else. */
  lemma DeliveredBytes(host: seq<bv8>, t: Task, data: Word)
    requires t.dest.Some? ==> t.dest.value + t.op.Width() <= |host|
    ensures forall x :: 0 <= x < |host| ==>
              Delivered(host, t, data)[x] ==
              if t.dest.Some? && t.dest.value <= x < t.dest.value + t.op.Width()
              then ByteOf(data, t.op.Lane() + (x - t.dest.value)) else host[x]
  {
    hide ByteOf, LoadOp.Width, LoadOp.Lane;
  }

  /** An expectation is met exactly when the answer agrees with it in every selected byte. */
  lemma LanesMatchExact(t: Task, data: Word)
    ensures LanesMatch(t, data) <==>
            forall k :: t.op.Lane() <= k < t.op.Lane() + t.op.Width() ==> ByteOf(t.data, k) == ByteOf(data, k)
  {
    hide ByteOf, LoadOp.Width, LoadOp.Lane, LoadOp.LaneMask, Agree;
    t.op.LanesDecide(t.data, data);
  }

  /** What is on the bus: the oldest pending task's address and size, and its strobe and data if it is a store. */
  lemma BusCarriesFront(p: Pipe)
    requires Inv(p)
    ensures p.bus.None? <==> p.pending == []
    ensures p.pending != [] ==>
              && p.bus.value.addr == p.pending[0].addr && p.bus.value.size == p.pending[0].size
              && p.bus.value.strobe == p.pending[0].strobe
              && p.bus.value.data == if p.pending[0].strobe == 0 then 0 else p.pending[0].data
  {}

  predicate Accepting(p: Pipe, s: Signals) { s.addrOk && p.bus.Some? }

  /** The bus answers a request only once, and only one it has accepted. */
  predicate Possible(p: Pipe, s: Signals) {
    s.dataOk ==> p.ongoing != [] || Accepting(p, s)
  }

  ghost predicate Inv(p: Pipe) {
    && p.bus == BusFor(p.pending)
    && (forall i :: 0 <= i < |p.pending| ==> TaskOk(p.pending[i], |p.host|))
    && (forall i :: 0 <= i < |p.ongoing| ==> TaskOk(p.ongoing[i], |p.host|))
  }

  /** Accepted but not yet answered, after the address phase of a cycle. */
  function Accepted(p: Pipe, s: Signals): seq<Task>
    requires Accepting(p, s) ==> p.pending != []
  {
    if Accepting(p, s) then p.ongoing + [p.pending[0]] else p.ongoing
  }

  ghost function Tick(p: Pipe, s: Signals): Pipe
    requires Inv(p) && Possible(p, s)
  {
    var pending := if Accepting(p, s) then p.pending[1..] else p.pending;
    var ongoing := Accepted(p, s);
    if s.dataOk then
      var u := ongoing[0];
      assert TaskOk(u, |p.host|);
      Pipe(BusFor(pending), pending, ongoing[1..], Delivered(p.host, u, s.data), p.ok && Expected(u, s.data))
    else Pipe(BusFor(pending), pending, ongoing, p.host, p.ok)
  }

  function Empty(p: Pipe): bool { p.pending == [] && p.ongoing == [] }

  /** Handshakes still needed: two for a pending task, one for an ongoing one. */
  function Remaining(p: Pipe): nat { 2 * |p.pending| + |p.ongoing| }

  function Handshakes(p: Pipe, s: Signals): nat {
    (if Accepting(p, s) then 1 else 0) + (if s.dataOk then 1 else 0)
  }

  // ---------------------------------------------------------------- what every step keeps

  lemma SubmitKeepsInv(p: Pipe, t: Task)
    requires Inv(p) && TaskOk(t, |p.host|)
    ensures Inv(Submit(p, t))
  {}

  /** The bus carries the front of the pending queue, no assertion about empty queues can fail, and each
      handshake of the cycle pays for one unit of what remains. */
  lemma TickKeepsInv(p: Pipe, s: Signals)
    requires Inv(p) && Possible(p, s)
    ensures Accepting(p, s) ==> p.pending != []
    ensures s.dataOk ==> Accepted(p, s) != []
    ensures Inv(Tick(p, s)) && |Tick(p, s).host| == |p.host|
    ensures Remaining(Tick(p, s)) + Handshakes(p, s) == Remaining(p)
  {}

  /** A cycle byte by byte.  With `u` the oldest accepted task: its answer writes its selected lanes to its
      destination and no other byte; an expectation that fails clears `ok`, and nothing else does. */
  lemma TickBytes(p: Pipe, s: Signals)
    requires Inv(p) && Possible(p, s)
    ensures !s.dataOk ==> Tick(p, s).host == p.host && Tick(p, s).ok == p.ok
    ensures s.dataOk ==> p.ongoing != [] || p.pending != []
    ensures s.dataOk ==>
              var u := if p.ongoing != [] then p.ongoing[0] else p.pending[0];
              && |Tick(p, s).host| == |p.host|
              && (forall x :: 0 <= x < |p.host| ==>
                    Tick(p, s).host[x] ==
                    if u.dest.Some? && u.dest.value <= x < u.dest.value + u.op.Width()
                    then ByteOf(s.data, u.op.Lane() + (x - u.dest.value)) else p.host[x])
              && (Tick(p, s).ok <==>
                    (p.ok && (u.dest.None? && u.strobe == 0 ==>
                      forall k :: u.op.Lane() <= k < u.op.Lane() + u.op.Width() ==>
                        ByteOf(u.data, k) == ByteOf(s.data, k))))
  {
    hide ByteOf, LoadOp.Width, LoadOp.Lane, Delivered, LanesMatch;
    if s.dataOk {
      var u := Accepted(p, s)[0];
      assert TaskOk(u, |p.host|);
      DeliveredBytes(p.host, u, s.data);
      LanesMatchExact(u, s.data);
    }
  }

  // ---------------------------------------------------------------- fences

  ghost predicate AllPossible(p: Pipe, signals: seq<Signals>)
    requires Inv(p)
    decreases |signals|
  {
    signals == [] || (Possible(p, signals[0]) && (TickKeepsInv(p, signals[0]); AllPossible(Tick(p, signals[0]), signals[1..])))
  }

  /** `fence`: ticks until both queues are empty or the given cycles are used up. */
  ghost function Fence(p: Pipe, signals: seq<Signals>): Pipe
    requires Inv(p) && AllPossible(p, signals)
    decreases |signals|
  {
    if signals == [] || Empty(p) then p
    else TickKeepsInv(p, signals[0]); Fence(Tick(p, signals[0]), signals[1..])
  }

  /** The handshakes a bus makes while tasks remain. */
  ghost function Total(p: Pipe, signals: seq<Signals>): nat
    requires Inv(p) && AllPossible(p, signals)
    decreases |signals|
  {
    if signals == [] || Empty(p) then 0
    else TickKeepsInv(p, signals[0]); Handshakes(p, signals[0]) + Total(Tick(p, signals[0]), signals[1..])
  }

  /** A fence succeeds exactly when the bus makes all the handshakes that remain. */
  lemma {:induction false} FenceExact(p: Pipe, signals: seq<Signals>)
    requires Inv(p) && AllPossible(p, signals)
    ensures Inv(Fence(p, signals))
    ensures Remaining(Fence(p, signals)) + Total(p, signals) == Remaining(p)
    ensures Empty(Fence(p, signals)) <==> Total(p, signals) == Remaining(p)
    decreases |signals|
  {
    hide Inv, Tick;
    if signals != [] && !Empty(p) {
      TickKeepsInv(p, signals[0]);
      FenceExact(Tick(p, signals[0]), signals[1..]);
    }
  }

  /** Every cycle in which something remains brings at least one handshake. */
  ghost predicate Lively(p: Pipe, signals: seq<Signals>)
    requires Inv(p) && AllPossible(p, signals)
    decreases |signals|
  {
    signals == [] || Empty(p) ||
    (Handshakes(p, signals[0]) >= 1 && (TickKeepsInv(p, signals[0]); Lively(Tick(p, signals[0]), signals[1..])))
  }

  /** On a lively bus a fence ends within one cycle per remaining handshake. */
  lemma {:induction false} LivelyFenceEnds(p: Pipe, signals: seq<Signals>)
    requires Inv(p) && AllPossible(p, signals) && Lively(p, signals) && Remaining(p) <= |signals|
    ensures Empty(Fence(p, signals))
    decreases |signals|
  {
    hide Inv, Tick;
    if signals != [] && !Empty(p) {
      TickKeepsInv(p, signals[0]);
      LivelyFenceEnds(Tick(p, signals[0]), signals[1..]);
    }
  }
}
