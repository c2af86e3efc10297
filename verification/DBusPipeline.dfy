/** The pipeline object: two queues, the bus request register and the host memory the loads write to. */
module DBusPipeline {
  import opened Options
  import opened Words
  import opened LoadOps
  import opened PipelineSpec

  class DBusPipeline {
    var bus: Option<Request>
    var pending: seq<Task>
    var ongoing: seq<Task>
    const host: array<bv8>
    /** False once an expectation has failed; the program stops there. */
    var ok: bool

    ghost function State(): Pipe
      reads this, host
    {
      Pipe(bus, pending, ongoing, host[..], ok)
    }

    ghost predicate Valid()
      reads this, host
    {
      Inv(State())
    }

    constructor (memory: array<bv8>)
      ensures Valid() && host == memory && State() == Pipe(None, [], [], memory[..], true)
    {
      bus, pending, ongoing, host, ok := None, [], [], memory, true;
    }

    method Submit(t: Task)
      requires Valid() && TaskOk(t, host.Length)
      modifies this`pending, this`bus
      ensures Valid() && State() == old(PipelineSpec.Submit(State(), t))
    {
      pending := pending + [t];
      if bus.None? {
        bus := Some(Issued(t));
      }
    }

    /** A completed task: a load with a destination delivers, one without compares, a store does neither. */
    method Complete(u: Task, data: Word)
      requires TaskOk(u, host.Length)
      modifies this`ok, host
      ensures host[..] == Delivered(old(host[..]), u, data)
      ensures ok == (old(ok) && Expected(u, data))
      ensures forall x :: 0 <= x < host.Length ==>
                host[x] == if u.dest.Some? && u.dest.value <= x < u.dest.value + u.op.Width()
                           then ByteOf(data, u.op.Lane() + (x - u.dest.value)) else old(host[x])
      ensures ok <==>
              (old(ok) && (u.dest.None? && u.strobe == 0 ==>
                forall k :: u.op.Lane() <= k < u.op.Lane() + u.op.Width() ==> ByteOf(u.data, k) == ByteOf(data, k)))
    {
      hide Selected, LanesMatch, ByteOf, LoadOp.Width, LoadOp.Lane;
      DeliveredBytes(host[..], u, data);
      LanesMatchExact(u, data);
      if u.dest.Some? {
        ghost var before, at := host[..], u.dest.value;
        ApplyTo(u.op, data, host, u.dest.value);
        assert before[..at] == old(host[..at]) && before[at + u.op.Width()..] == old(host[at + u.op.Width()..]);
      } else if u.IsLoad() {
        ok := ok && LanesMatch(u, data);
      }
    }

    /** One clock cycle.  The signals are those read before the clock edge. */
    method Tick(s: Signals)
      requires Valid() && Possible(State(), s)
      modifies this`pending, this`ongoing, this`bus, this`ok, host
      ensures Valid() && State() == old(PipelineSpec.Tick(State(), s))
    {
      hide Inv, Delivered, Expected;
      ghost var p := State();
      TickKeepsInv(p, s);
      TasksOk(p);
      var valid := bus.Some?;
      if s.addrOk && valid {
        ongoing, pending := ongoing + [pending[0]], pending[1..];
      }
      if s.dataOk {
        var u := ongoing[0];
        ongoing := ongoing[1..];
        Complete(u, s.data);
      }
      if pending == [] {
        bus := None;
      } else {
        bus := Some(Issued(pending[0]));
      }
    }

    lemma TasksOk(p: Pipe)
      requires Inv(p)
      ensures forall i :: 0 <= i < |p.pending| ==> TaskOk(p.pending[i], |p.host|)
      ensures forall i :: 0 <= i < |p.ongoing| ==> TaskOk(p.ongoing[i], |p.host|)
    {}

    /** Ticks until both queues are empty or the given cycles are over; returns whether they are empty. */
    method Fence(signals: seq<Signals>) returns (empty: bool)
      requires Valid() && AllPossible(State(), signals)
      modifies this`pending, this`ongoing, this`bus, this`ok, host
      ensures Valid() && State() == old(PipelineSpec.Fence(State(), signals))
      ensures empty == Empty(State())
    {
      hide Inv, PipelineSpec.Tick;
      var count := 0;
      while !(pending == [] && ongoing == []) && count < |signals|
        invariant count <= |signals| && Valid()
        invariant AllPossible(State(), signals[count..])
        invariant PipelineSpec.Fence(State(), signals[count..]) == old(PipelineSpec.Fence(State(), signals))
        decreases |signals| - count
      {
        assert signals[count..][0] == signals[count] && signals[count..][1..] == signals[count + 1..];
        Tick(signals[count]);
        count := count + 1;
      }
      empty := pending == [] && ongoing == [];
    }
  }
}
