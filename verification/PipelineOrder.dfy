/** Pipelining is invisible: over a memory that answers in order, any interleaving of submissions, accepts
    and answers has the effect of executing the submitted tasks one after another. */
module PipelineOrder {
  import opened Words
  import opened Memory
  import opened LoadOps
  import opened PipelineSpec

  // ---------------------------------------------------------------- one task after another

  datatype Machine = Machine(mem: seq<Word>, host: seq<bv8>, ok: bool)

  /** `t` stays inside a memory of `words` words and a host memory of `bytes` bytes. */
  ghost predicate Fits(words: nat, bytes: nat, t: Task) {
    t.addr < 4 * words && TaskOk(t, bytes)
  }

  ghost predicate AllFit(words: nat, bytes: nat, tasks: seq<Task>) {
    forall i :: 0 <= i < |tasks| ==> Fits(words, bytes, tasks[i])
  }

  ghost function Execute(m: Machine, t: Task): (r: Machine)
    requires Fits(|m.mem|, |m.host|, t)
    ensures |r.mem| == |m.mem| && |r.host| == |m.host|
  {
    if t.IsLoad() then
      Machine(m.mem, Delivered(m.host, t, m.mem[t.addr / 4]), m.ok && Expected(t, m.mem[t.addr / 4]))
    else
      m.(mem := StoreWord(m.mem, t.addr / 4, t.data, Mask(t.strobe)))
  }

  ghost function ExecuteAll(m: Machine, tasks: seq<Task>): (r: Machine)
    requires AllFit(|m.mem|, |m.host|, tasks)
    ensures |r.mem| == |m.mem| && |r.host| == |m.host|
  {
    if tasks == [] then m
    else
      var last := |tasks| - 1;
      Execute(ExecuteAll(m, tasks[..last]), tasks[last])
  }

  /** One task byte by byte.  A load changes only the host: its selected lanes go to its destination; without one it
      clears `ok` unless the word agrees in every selected byte.  A store changes only the strobed bytes of its word. */
  lemma ExecuteBytes(m: Machine, t: Task)
    requires Fits(|m.mem|, |m.host|, t)
    ensures var r := Execute(m, t);
            t.strobe == 0 ==>
              && r.mem == m.mem
              && (forall x :: 0 <= x < |m.host| ==>
                    r.host[x] == if t.dest.Some? && t.dest.value <= x < t.dest.value + t.op.Width()
                                 then ByteOf(m.mem[t.addr / 4], t.op.Lane() + (x - t.dest.value)) else m.host[x])
              && (r.ok <==>
                    (m.ok && (t.dest.None? ==>
                      forall k :: t.op.Lane() <= k < t.op.Lane() + t.op.Width() ==>
                        ByteOf(t.data, k) == ByteOf(m.mem[t.addr / 4], k))))
    ensures var r := Execute(m, t);
            t.strobe != 0 ==>
              && r.host == m.host && r.ok == m.ok
              && forall w, k: nat :: 0 <= w < |m.mem| && k < 4 ==>
                   ByteOf(r.mem[w], k) == if w == t.addr / 4 && Enables(t.strobe, k) then ByteOf(t.data, k)
                                          else ByteOf(m.mem[w], k)
  {
    hide ByteOf, LoadOp.Width, LoadOp.Lane, Delivered, LanesMatch, Merge, Mask, Enables;
    if t.strobe == 0 {
      DeliveredBytes(m.host, t, m.mem[t.addr / 4]);
      LanesMatchExact(t, m.mem[t.addr / 4]);
    } else {
      forall k: nat | k < 4
        ensures ByteOf(Merge(m.mem[t.addr / 4], t.data, Mask(t.strobe)), k) ==
                if Enables(t.strobe, k) then ByteOf(t.data, k) else ByteOf(m.mem[t.addr / 4], k)
      {
        StoreByte(m.mem[t.addr / 4], t.data, t.strobe, k);
      }
    }
  }

  // ---------------------------------------------------------------- pipeline and memory together

  /** The memory behind the bus: accepted requests wait in `inflight` and are served first come, first
      served; the read data of a store's answer is whatever the memory holds. */
  datatype System = System(pipe: Pipe, inflight: seq<Request>, mem: seq<Word>)

  datatype Event = Submission(task: Task) | Clock(addrOk: bool, dataOk: bool)

  /** What the memory puts on the data lines. */
  function Front(s: System, addrOk: bool): seq<Request> {
    s.inflight + if addrOk && s.pipe.bus.Some? then [s.pipe.bus.value] else []
  }

  ghost predicate Can(s: System, e: Event) {
    match e
    case Submission(t) => t.addr < 4 * |s.mem| && TaskOk(t, |s.pipe.host|)
    case Clock(addrOk, dataOk) => dataOk ==> Front(s, addrOk) != []
  }

  function Answer(s: System, addrOk: bool, dataOk: bool): Signals {
    var front := Front(s, addrOk);
    Signals(addrOk, dataOk, if dataOk && front != [] && front[0].addr < 4 * |s.mem| then s.mem[front[0].addr / 4] else 0)
  }

  function Serve(mem: seq<Word>, r: Request): (m: seq<Word>)
    ensures |m| == |mem|
  {
    if 0 < r.strobe < 16 && r.addr < 4 * |mem| then StoreWord(mem, r.addr / 4, r.data, Mask(r.strobe)) else mem
  }

  ghost predicate Sound(s: System) {
    && Inv(s.pipe)
    && |s.inflight| == |s.pipe.ongoing|
    && (forall i :: 0 <= i < |s.inflight| ==> s.inflight[i] == Issued(s.pipe.ongoing[i]))
    && (forall i :: 0 <= i < |s.pipe.ongoing| ==> s.pipe.ongoing[i].addr < 4 * |s.mem|)
    && (forall i :: 0 <= i < |s.pipe.pending| ==> s.pipe.pending[i].addr < 4 * |s.mem|)
  }

  ghost function Step(s: System, e: Event): System
    requires Sound(s) && Can(s, e)
  {
    match e
    case Submission(t) => s.(pipe := Submit(s.pipe, t))
    case Clock(addrOk, dataOk) =>
      var front := Front(s, addrOk);
      FrontIsAccepted(s, addrOk, dataOk);
      var pipe := Tick(s.pipe, Answer(s, addrOk, dataOk));
      if dataOk then System(pipe, front[1..], Serve(s.mem, front[0])) else System(pipe, front, s.mem)
  }

  /** The memory's queue is the pipeline's `ongoing` queue, so the memory never answers what was not asked. */
  lemma FrontIsAccepted(s: System, addrOk: bool, dataOk: bool)
    requires Sound(s)
    ensures dataOk && Front(s, addrOk) != [] ==> Possible(s.pipe, Answer(s, addrOk, dataOk))
    ensures !dataOk ==> Possible(s.pipe, Answer(s, addrOk, dataOk))
    ensures addrOk && s.pipe.bus.Some? ==> s.pipe.pending != []
    ensures var now := Accepted(s.pipe, Answer(s, addrOk, dataOk));
            |Front(s, addrOk)| == |now| && forall i :: 0 <= i < |now| ==> Front(s, addrOk)[i] == Issued(now[i])
  {}

  // ---------------------------------------------------------------- refinement

  /** Tasks that completed in one event. */
  ghost function Done(s: System, e: Event): seq<Task>
    requires Sound(s) && Can(s, e)
  {
    match e
    case Submission(_) => []
    case Clock(addrOk, dataOk) =>
      FrontIsAccepted(s, addrOk, dataOk);
      if dataOk then [Accepted(s.pipe, Answer(s, addrOk, dataOk))[0]] else []
  }

  function Asked(e: Event): seq<Task> {
    if e.Submission? then [e.task] else []
  }

  function Visible(s: System): Machine { Machine(s.mem, s.pipe.host, s.pipe.ok) }

  /** What one event must do: it keeps the system sound, completes `d`, and moves all other requests on. */
  ghost predicate Advances(s: System, e: Event, n: System, d: seq<Task>) {
    && Sound(n) && |n.mem| == |s.mem| && |n.pipe.host| == |s.pipe.host|
    && AllFit(|s.mem|, |s.pipe.host|, d)
    && Visible(n) == ExecuteAll(Visible(s), d)
    && d + n.pipe.ongoing + n.pipe.pending == s.pipe.ongoing + s.pipe.pending + Asked(e)
  }

  lemma StepRefines(s: System, e: Event)
    requires Sound(s) && Can(s, e)
    ensures Advances(s, e, Step(s, e), Done(s, e))
  {
    match e
    case Submission(t) =>
      SubmitKeepsInv(s.pipe, t);
    case Clock(addrOk, dataOk) =>
      ClockIsSound(s, addrOk, dataOk);
      ClockMovesOn(s, addrOk, dataOk);
      if dataOk { ClockExecutes(s, addrOk); }
  }

  lemma ClockIsSound(s: System, addrOk: bool, dataOk: bool)
    requires Sound(s) && Can(s, Clock(addrOk, dataOk))
    ensures var n := Step(s, Clock(addrOk, dataOk));
            Sound(n) && |n.mem| == |s.mem| && |n.pipe.host| == |s.pipe.host|
  {
    hide Delivered, Expected, Serve, Inv, Answer;
    FrontIsAccepted(s, addrOk, dataOk);
    TickKeepsInv(s.pipe, Answer(s, addrOk, dataOk));
    TickQueues(s.pipe, Answer(s, addrOk, dataOk));
    AnswerSignals(s, addrOk, dataOk);
  }

  lemma AnswerSignals(s: System, addrOk: bool, dataOk: bool)
    ensures Answer(s, addrOk, dataOk).addrOk == addrOk && Answer(s, addrOk, dataOk).dataOk == dataOk
  {}

  /** A cycle moves at most one task from `pending` to `ongoing` and at most one out of `ongoing`. */
  lemma TickQueues(p: Pipe, s: Signals)
    requires Inv(p) && Possible(p, s)
    ensures Accepting(p, s) ==> p.pending != []
    ensures Accepted(p, s) == p.ongoing + (if Accepting(p, s) then [p.pending[0]] else [])
    ensures Tick(p, s).pending == if Accepting(p, s) then p.pending[1..] else p.pending
    ensures s.dataOk ==> Accepted(p, s) != [] && Tick(p, s).ongoing == Accepted(p, s)[1..]
    ensures !s.dataOk ==> Tick(p, s).ongoing == Accepted(p, s)
  {}

  lemma TickMovesOn(p: Pipe, s: Signals)
    requires Inv(p) && Possible(p, s)
    ensures Accepting(p, s) ==> p.pending != []
    ensures s.dataOk ==> Accepted(p, s) != []
    ensures (if s.dataOk then [Accepted(p, s)[0]] else []) + Tick(p, s).ongoing + Tick(p, s).pending == p.ongoing + p.pending
  {
    hide Inv, Tick, Accepted, Possible;
    TickQueues(p, s);
    var now := Accepted(p, s);
    var head := if Accepting(p, s) then [p.pending[0]] else [];
    assert p.pending == head + Tick(p, s).pending;
    assert now == (if s.dataOk then [now[0]] else []) + Tick(p, s).ongoing;
    assert p.ongoing + (head + Tick(p, s).pending) == now + Tick(p, s).pending;
  }

  lemma ClockMovesOn(s: System, addrOk: bool, dataOk: bool)
    requires Sound(s) && Can(s, Clock(addrOk, dataOk))
    ensures var n, d := Step(s, Clock(addrOk, dataOk)), Done(s, Clock(addrOk, dataOk));
            d + n.pipe.ongoing + n.pipe.pending == s.pipe.ongoing + s.pipe.pending
  {
    hide Sound, Inv, Tick, Accepted, Answer, Serve, Front, Possible;
    FrontIsAccepted(s, addrOk, dataOk);
    AnswerSignals(s, addrOk, dataOk);
    SoundPipe(s);
    TickMovesOn(s.pipe, Answer(s, addrOk, dataOk));
  }

  lemma SoundPipe(s: System)
    requires Sound(s)
    ensures Inv(s.pipe)
  {}

  /** The answered task is executed on the memory of this moment. */
  lemma ClockExecutes(s: System, addrOk: bool)
    requires Sound(s) && Can(s, Clock(addrOk, true))
    ensures var n, d := Step(s, Clock(addrOk, true)), Done(s, Clock(addrOk, true));
            && AllFit(|s.mem|, |s.pipe.host|, d)
            && Visible(n) == ExecuteAll(Visible(s), d)
  {
    hide Delivered, Expected, Merge, Mask;
    FrontIsAccepted(s, addrOk, true);
    var signals := Answer(s, addrOk, true);
    var u := Accepted(s.pipe, signals)[0];
    assert TaskOk(u, |s.pipe.host|) && u.addr < 4 * |s.mem|;
    assert Front(s, addrOk)[0] == Issued(u);
    ExecuteOne(Visible(s), u);
    if !u.IsLoad() { StoreCompletes(s.pipe.host, u, signals.data); }
  }

  lemma ExecuteOne(m: Machine, u: Task)
    requires Fits(|m.mem|, |m.host|, u)
    ensures ExecuteAll(m, [u]) == Execute(m, u)
  {
    assert [u][..0] == [];
  }

  /** A store's answer delivers nothing and fails no expectation. */
  lemma StoreCompletes(host: seq<bv8>, u: Task, data: Word)
    requires TaskOk(u, |host|) && !u.IsLoad()
    ensures Delivered(host, u, data) == host && Expected(u, data)
  {}

  lemma {:induction false} ExecuteAllConcat(m: Machine, x: seq<Task>, y: seq<Task>)
    requires AllFit(|m.mem|, |m.host|, x) && AllFit(|m.mem|, |m.host|, y)
    ensures ExecuteAll(m, x + y) == ExecuteAll(ExecuteAll(m, x), y)
  {
    hide Execute, Fits;
    if y == [] {
      assert x + y == x;
    } else {
      var last := |y| - 1;
      ExecuteAllConcat(m, x, y[..last]);
      assert (x + y)[..|x| + last] == x + y[..last];
    }
  }

  // ---------------------------------------------------------------- every run

  ghost predicate Possibly(s: System, events: seq<Event>)
    requires Sound(s)
    decreases |events|
  {
    events == [] || (Can(s, events[0]) && (StepRefines(s, events[0]); Possibly(Step(s, events[0]), events[1..])))
  }

  ghost function Run(s: System, events: seq<Event>): System
    requires Sound(s) && Possibly(s, events)
    decreases |events|
  {
    if events == [] then s else StepRefines(s, events[0]); Run(Step(s, events[0]), events[1..])
  }

  ghost function Completed(s: System, events: seq<Event>): seq<Task>
    requires Sound(s) && Possibly(s, events)
    decreases |events|
  {
    if events == [] then []
    else StepRefines(s, events[0]); Done(s, events[0]) + Completed(Step(s, events[0]), events[1..])
  }

  function Submitted(events: seq<Event>): seq<Task> {
    if events == [] then [] else Asked(events[0]) + Submitted(events[1..])
  }

  /** For every interleaving: completed, ongoing and pending tasks together are the submitted ones, in order,
      and memory, host memory and expectations are what executing the completed tasks one by one gives. */
  lemma {:induction false} RunIsSequential(s: System, events: seq<Event>)
    requires Sound(s) && Possibly(s, events)
    ensures Sound(Run(s, events))
    ensures Completed(s, events) + Run(s, events).pipe.ongoing + Run(s, events).pipe.pending
         == s.pipe.ongoing + s.pipe.pending + Submitted(events)
    ensures AllFit(|s.mem|, |s.pipe.host|, Completed(s, events))
    ensures Visible(Run(s, events)) == ExecuteAll(Visible(s), Completed(s, events))
    decreases |events|
  {
    hide Sound, Can, Step, Done, ExecuteAll, AllFit;
    if events == [] {
      NothingExecuted(Visible(s));
    } else {
      var e, next := events[0], Step(s, events[0]);
      StepRefines(s, e);
      RunIsSequential(next, events[1..]);
      var d, rest := Done(s, e), Completed(next, events[1..]);
      FitConcat(|s.mem|, |s.pipe.host|, d, rest);
      ExecuteAllConcat(Visible(s), d, rest);
      MoveOn(d, rest, Run(s, events).pipe.ongoing, Run(s, events).pipe.pending,
             next.pipe.ongoing, next.pipe.pending, s.pipe.ongoing + s.pipe.pending, Asked(e), Submitted(events[1..]));
    }
  }

  lemma MoveOn(d: seq<Task>, rest: seq<Task>, o2: seq<Task>, p2: seq<Task>, o1: seq<Task>, p1: seq<Task>,
               start: seq<Task>, asked: seq<Task>, later: seq<Task>)
    requires rest + o2 + p2 == o1 + p1 + later
    requires d + o1 + p1 == start + asked
    ensures (d + rest) + o2 + p2 == start + (asked + later)
  {
    assert (d + rest) + o2 + p2 == d + (rest + o2 + p2);
    assert d + (o1 + p1 + later) == (d + o1 + p1) + later;
  }

  lemma FitConcat(words: nat, bytes: nat, x: seq<Task>, y: seq<Task>)
    requires AllFit(words, bytes, x) && AllFit(words, bytes, y)
    ensures AllFit(words, bytes, x + y)
  {}

  lemma NothingExecuted(m: Machine)
    ensures AllFit(|m.mem|, |m.host|, []) && ExecuteAll(m, []) == m
  {}

  /** After a run that began and ends with empty queues, for instance at a fence, the whole program of
      submitted tasks has been executed in order. */
  lemma FencedRunIsSequential(s: System, events: seq<Event>)
    requires Sound(s) && Possibly(s, events) && Empty(s.pipe) && Empty(Run(s, events).pipe)
    ensures AllFit(|s.mem|, |s.pipe.host|, Submitted(events))
    ensures Visible(Run(s, events)) == ExecuteAll(Visible(s), Submitted(events))
  {
    hide Sound, Step, Done, ExecuteAll, AllFit;
    RunIsSequential(s, events);
    assert Completed(s, events) + [] + [] == Completed(s, events);
    assert [] + [] + Submitted(events) == Submitted(events);
  }

  /** What task `t` does to state `m`, in bytes: a load with a destination puts its selected lanes there, one without
      clears `ok` unless the word agrees in every selected byte, a store changes the strobed bytes of its word; nothing
      else changes. */
  ghost predicate Effect(m: Machine, t: Task, r: Machine)
    requires t.addr < 4 * |m.mem| && t.strobe < 16
  {
    && |r.mem| == |m.mem| && |r.host| == |m.host|
    && (forall x :: 0 <= x < |m.host| ==>
          r.host[x] == if t.strobe == 0 && t.dest.Some? && t.dest.value <= x < t.dest.value + t.op.Width()
                       then ByteOf(m.mem[t.addr / 4], t.op.Lane() + (x - t.dest.value)) else m.host[x])
    && (r.ok <==>
          (m.ok && (t.strobe == 0 && t.dest.None? ==>
            forall k :: t.op.Lane() <= k < t.op.Lane() + t.op.Width() ==>
              ByteOf(t.data, k) == ByteOf(m.mem[t.addr / 4], k))))
    && (forall w, k: nat :: 0 <= w < |m.mem| && k < 4 ==>
          ByteOf(r.mem[w], k) == if t.strobe != 0 && w == t.addr / 4 && Enables(t.strobe, k) then ByteOf(t.data, k)
                                 else ByteOf(m.mem[w], k))
  }

  lemma ExecuteHasEffect(m: Machine, t: Task)
    requires Fits(|m.mem|, |m.host|, t)
    ensures Effect(m, t, Execute(m, t))
  {
    hide Execute, ByteOf, Enables, LoadOp.Lane, LoadOp.Width;
    ExecuteBytes(m, t);
  }

  /** The same, task by task: between what the first `i` and the first `i + 1` submitted tasks make of the state at
      the start lies exactly the effect of task `i`; all of them together make the state at the end. */
  lemma FencedRunBytes(s: System, events: seq<Event>, i: nat)
    requires Sound(s) && Possibly(s, events) && Empty(s.pipe) && Empty(Run(s, events).pipe)
    requires i < |Submitted(events)|
    ensures var tasks, m := Submitted(events), Visible(s);
            && AllFit(|m.mem|, |m.host|, tasks) && AllFit(|m.mem|, |m.host|, tasks[..i])
            && AllFit(|m.mem|, |m.host|, tasks[..i + 1])
            && Fits(|m.mem|, |m.host|, tasks[i])
            && ExecuteAll(m, tasks[..0]) == m
            && ExecuteAll(m, tasks[..|tasks|]) == Visible(Run(s, events))
            && ExecuteAll(m, tasks[..i + 1]) == Execute(ExecuteAll(m, tasks[..i]), tasks[i])
            && Effect(ExecuteAll(m, tasks[..i]), tasks[i], ExecuteAll(m, tasks[..i + 1]))
  {
    hide Sound, Possibly, Run, Execute, Effect;
    FencedRunIsSequential(s, events);
    var tasks, m := Submitted(events), Visible(s);
    assert tasks[..|tasks|] == tasks;
    assert tasks[..i + 1][..i] == tasks[..i];
    ExecuteHasEffect(ExecuteAll(m, tasks[..i]), tasks[i]);
  }
}
