/** Every run of the pipeline against every bus: whatever data the bus returns and however it interleaves its
    handshakes with submissions, no task is lost, doubled or overtaken. */
module PipelineRuns {
  import opened Words
  import opened LoadOps
  import opened PipelineSpec
  import PipelineOrder

  datatype Event = Submission(task: Task) | Cycle(signals: Signals)

  /** A completed task with the data the bus answered it with. */
  datatype Answer = Answer(task: Task, data: Word)

  ghost predicate Can(p: Pipe, e: Event) {
    match e
    case Submission(t) => TaskOk(t, |p.host|)
    case Cycle(s) => Possible(p, s)
  }

  ghost function Step(p: Pipe, e: Event): Pipe
    requires Inv(p) && Can(p, e)
  {
    match e
    case Submission(t) => Submit(p, t)
    case Cycle(s) => Tick(p, s)
  }

  ghost function Answered(p: Pipe, e: Event): seq<Answer>
    requires Inv(p) && Can(p, e)
  {
    match e
    case Submission(_) => []
    case Cycle(s) => if s.dataOk then [Answer(Accepted(p, s)[0], s.data)] else []
  }

  function Asked(e: Event): seq<Task> {
    if e.Submission? then [e.task] else []
  }

  function Tasks(answers: seq<Answer>): (tasks: seq<Task>)
    ensures |tasks| == |answers| && forall i :: 0 <= i < |tasks| ==> tasks[i] == answers[i].task
  {
    seq(|answers|, i requires 0 <= i < |answers| => answers[i].task)
  }

  // ---------------------------------------------------------------- what the answers do to the host

  /** Host memory, and whether all expectations have been met. */
  datatype Host = Host(bytes: seq<bv8>, ok: bool)

  ghost predicate AllOk(answers: seq<Answer>, bytes: nat) {
    forall i :: 0 <= i < |answers| ==> TaskOk(answers[i].task, bytes)
  }

  ghost function Receive(h: Host, answers: seq<Answer>): (r: Host)
    requires AllOk(answers, |h.bytes|)
    ensures |r.bytes| == |h.bytes|
    decreases |answers|
  {
    if answers == [] then h
    else
      var a := answers[0];
      Receive(Host(Delivered(h.bytes, a.task, a.data), h.ok && Expected(a.task, a.data)), answers[1..])
  }

  function HostOf(p: Pipe): Host { Host(p.host, p.ok) }

  // ---------------------------------------------------------------- one event

  ghost predicate Advances(p: Pipe, e: Event, n: Pipe, d: seq<Answer>) {
    && Inv(n) && |n.host| == |p.host|
    && AllOk(d, |p.host|) && HostOf(n) == Receive(HostOf(p), d)
    && Tasks(d) + n.ongoing + n.pending == p.ongoing + p.pending + Asked(e)
  }

  lemma StepAdvances(p: Pipe, e: Event)
    requires Inv(p) && Can(p, e)
    ensures Advances(p, e, Step(p, e), Answered(p, e))
  {
    match e
    case Submission(t) =>
      SubmitKeepsInv(p, t);
    case Cycle(s) =>
      TickKeepsInv(p, s);
      PipelineOrder.TickMovesOn(p, s);
      var d := Answered(p, e);
      assert Tasks(d) == if s.dataOk then [Accepted(p, s)[0]] else [];
      if s.dataOk {
        assert TaskOk(d[0].task, |p.host|);
        assert d[1..] == [];
      }
  }

  // ---------------------------------------------------------------- every run

  ghost predicate Possibly(p: Pipe, events: seq<Event>)
    requires Inv(p)
    decreases |events|
  {
    events == [] || (Can(p, events[0]) && (StepAdvances(p, events[0]); Possibly(Step(p, events[0]), events[1..])))
  }

  ghost function Run(p: Pipe, events: seq<Event>): Pipe
    requires Inv(p) && Possibly(p, events)
    decreases |events|
  {
    if events == [] then p else StepAdvances(p, events[0]); Run(Step(p, events[0]), events[1..])
  }

  ghost function Answers(p: Pipe, events: seq<Event>): seq<Answer>
    requires Inv(p) && Possibly(p, events)
    decreases |events|
  {
    if events == [] then []
    else StepAdvances(p, events[0]); Answered(p, events[0]) + Answers(Step(p, events[0]), events[1..])
  }

  function Submitted(events: seq<Event>): seq<Task> {
    if events == [] then [] else Asked(events[0]) + Submitted(events[1..])
  }

  lemma {:induction false} ReceiveConcat(h: Host, x: seq<Answer>, y: seq<Answer>)
    requires AllOk(x, |h.bytes|) && AllOk(y, |h.bytes|)
    ensures AllOk(x + y, |h.bytes|) && Receive(h, x + y) == Receive(Receive(h, x), y)
    decreases |x|
  {
    if x == [] {
      assert x + y == y;
    } else {
      var a := x[0];
      assert TaskOk(a.task, |h.bytes|);
      ReceiveConcat(Host(Delivered(h.bytes, a.task, a.data), h.ok && Expected(a.task, a.data)), x[1..], y);
      assert (x + y)[1..] == x[1..] + y;
    }
  }

  /** The tasks of the answers, then the ongoing and the pending ones, are the submitted tasks in order; host
      memory and expectations are what the answers, in order, make of them. */
  lemma {:induction false} EveryBusKeepsOrder(p: Pipe, events: seq<Event>)
    requires Inv(p) && Possibly(p, events)
    ensures Inv(Run(p, events))
    ensures Tasks(Answers(p, events)) + Run(p, events).ongoing + Run(p, events).pending
         == p.ongoing + p.pending + Submitted(events)
    ensures AllOk(Answers(p, events), |p.host|)
    ensures HostOf(Run(p, events)) == Receive(HostOf(p), Answers(p, events))
    decreases |events|
  {
    hide Inv, Can, Step, Answered, AllOk, Receive;
    if events == [] {
      NothingReceived(HostOf(p));
    } else {
      var e, next := events[0], Step(p, events[0]);
      StepAdvances(p, e);
      EveryBusKeepsOrder(next, events[1..]);
      var d, rest := Answered(p, e), Answers(next, events[1..]);
      ReceiveConcat(HostOf(p), d, rest);
      assert Tasks(d + rest) == Tasks(d) + Tasks(rest);
      PipelineOrder.MoveOn(Tasks(d), Tasks(rest), Run(p, events).ongoing, Run(p, events).pending,
                           next.ongoing, next.pending, p.ongoing + p.pending, Asked(e), Submitted(events[1..]));
    }
  }

  lemma NothingReceived(h: Host)
    ensures AllOk([], |h.bytes|) && Receive(h, []) == h
  {}

  // ---------------------------------------------------------------- what the host ends up with, byte by byte

  lemma {:induction false} ReceiveSnoc(h: Host, init: seq<Answer>, a: Answer)
    requires AllOk(init + [a], |h.bytes|)
    ensures AllOk(init, |h.bytes|) && TaskOk(a.task, |h.bytes|)
    ensures Receive(h, init + [a]) == Host(Delivered(Receive(h, init).bytes, a.task, a.data),
                                           Receive(h, init).ok && Expected(a.task, a.data))
  {
    hide Expected, Delivered;
    assert (init + [a])[|init|] == a;
    forall i | 0 <= i < |init| ensures TaskOk(init[i].task, |h.bytes|) { assert (init + [a])[i] == init[i]; }
    assert AllOk([a], |h.bytes|);
    ReceiveConcat(h, init, [a]);
    assert [a][1..] == [];
  }

  /** The answer to `t` goes into host byte `x`. */
  predicate DeliversTo(t: Task, x: nat) {
    t.dest.Some? && t.dest.value <= x < t.dest.value + t.op.Width()
  }

  /** `t` is an expectation, and byte `k` of the answer one of those it is about. */
  predicate Expects(t: Task, k: nat): (b: bool)
    ensures b ==> k < 4
  {
    t.dest.None? && t.strobe == 0 && t.op.Lane() <= k < t.op.Lane() + t.op.Width()
  }

  lemma ExpectedExact(a: Answer)
    ensures Expected(a.task, a.data) <==> forall k: nat :: Expects(a.task, k) ==> ByteOf(a.task.data, k) == ByteOf(a.data, k)
  {
    hide ByteOf, LoadOp.Lane, LoadOp.Width, LanesMatch;
    LanesMatchExact(a.task, a.data);
  }

  ghost predicate AllMet(answers: seq<Answer>) {
    forall i, k: nat :: 0 <= i < |answers| && Expects(answers[i].task, k) ==>
      ByteOf(answers[i].task.data, k) == ByteOf(answers[i].data, k)
  }

  lemma MetSnoc(init: seq<Answer>, a: Answer)
    ensures AllMet(init + [a]) <==> AllMet(init) && Expected(a.task, a.data)
  {
    hide ByteOf, Expects, Expected;
    ExpectedExact(a);
    var all := init + [a];
    assert all[|init|] == a;
    if AllMet(all) {
      forall i, k: nat | 0 <= i < |init| && Expects(init[i].task, k)
        ensures ByteOf(init[i].task.data, k) == ByteOf(init[i].data, k)
      {
        assert all[i] == init[i];
      }
    }
    if AllMet(init) && Expected(a.task, a.data) {
      forall i, k: nat | 0 <= i < |all| && Expects(all[i].task, k)
        ensures ByteOf(all[i].task.data, k) == ByteOf(all[i].data, k)
      {
        if i < |init| { assert all[i] == init[i]; }
      }
    }
  }

  /** All expectations have been met exactly if every answer to one agrees with it in every selected byte. */
  lemma {:induction false} ReceivedOk(h: Host, answers: seq<Answer>)
    requires AllOk(answers, |h.bytes|)
    ensures Receive(h, answers).ok <==> h.ok && AllMet(answers)
    decreases |answers|
  {
    hide Expects, Expected, Delivered, AllOk, Receive;
    if answers == [] {
      NothingReceived(h);
    } else {
      hide AllMet;
      var last := |answers| - 1;
      var init, a := answers[..last], answers[last];
      assert answers == init + [a];
      ReceiveSnoc(h, init, a);
      MetSnoc(init, a);
      ReceivedOk(h, init);
    }
  }

  /** A byte that no answer delivers to keeps its old value. */
  lemma {:induction false} ReceivedKept(h: Host, answers: seq<Answer>, x: nat)
    requires AllOk(answers, |h.bytes|) && x < |h.bytes|
    requires forall i :: 0 <= i < |answers| ==> !DeliversTo(answers[i].task, x)
    ensures Receive(h, answers).bytes[x] == h.bytes[x]
    decreases |answers|
  {
    hide ByteOf, LoadOp.Lane, LoadOp.Width, Expected, Delivered, AllOk, Receive;
    if answers == [] {
      NothingReceived(h);
    } else {
      var last := |answers| - 1;
      var init, a := answers[..last], answers[last];
      assert answers == init + [a];
      ReceiveSnoc(h, init, a);
      ReceivedKept(h, init, x);
      DeliveredBytes(Receive(h, init).bytes, a.task, a.data);
    }
  }

  /** A byte holds what the last answer to deliver to it put there: the byte of its data in the selected lane. */
  lemma {:induction false} ReceivedLast(h: Host, answers: seq<Answer>, j: nat, x: nat)
    requires AllOk(answers, |h.bytes|) && x < |h.bytes| && j < |answers| && DeliversTo(answers[j].task, x)
    requires forall i :: j < i < |answers| ==> !DeliversTo(answers[i].task, x)
    ensures Receive(h, answers).bytes[x]
         == ByteOf(answers[j].data, answers[j].task.op.Lane() + (x - answers[j].task.dest.value))
    decreases |answers|
  {
    hide ByteOf, LoadOp.Lane, LoadOp.Width, Expected, Delivered, AllOk, Receive;
    var last := |answers| - 1;
    var init, a := answers[..last], answers[last];
    assert answers == init + [a];
    ReceiveSnoc(h, init, a);
    DeliveredBytes(Receive(h, init).bytes, a.task, a.data);
    if j < last { ReceivedLast(h, init, j, x); }
  }

  /** Over every run on every bus `ok` stays set exactly if each expectation that has been answered is met in every
      byte it is about. */
  lemma EveryBusChecks(p: Pipe, events: seq<Event>)
    requires Inv(p) && Possibly(p, events)
    ensures var answers := Answers(p, events);
            Run(p, events).ok <==>
            (p.ok && forall i, k: nat :: 0 <= i < |answers| && Expects(answers[i].task, k) ==>
              ByteOf(answers[i].task.data, k) == ByteOf(answers[i].data, k))
  {
    hide Inv, Expects, AllOk, Receive, Run, Answers, Possibly;
    EveryBusKeepsOrder(p, events);
    ReceivedOk(HostOf(p), Answers(p, events));
  }

  /** Over every run on every bus byte `x` of host memory holds the byte that the last load to be answered into it
      selects. */
  lemma EveryBusDelivers(p: Pipe, events: seq<Event>, j: nat, x: nat)
    requires Inv(p) && Possibly(p, events) && x < |p.host|
    requires j < |Answers(p, events)| && DeliversTo(Answers(p, events)[j].task, x)
    requires forall i :: j < i < |Answers(p, events)| ==> !DeliversTo(Answers(p, events)[i].task, x)
    ensures |Run(p, events).host| == |p.host|
    ensures var a := Answers(p, events)[j];
            Run(p, events).host[x] == ByteOf(a.data, a.task.op.Lane() + (x - a.task.dest.value))
  {
    hide ByteOf, LoadOp.Lane, LoadOp.Width, Inv, AllOk, Receive, Run, Answers, Possibly;
    EveryBusKeepsOrder(p, events);
    ReceivedLast(HostOf(p), Answers(p, events), j, x);
  }

  /** And the old byte, if no load has been answered into it. */
  lemma EveryBusKeepsByte(p: Pipe, events: seq<Event>, x: nat)
    requires Inv(p) && Possibly(p, events) && x < |p.host|
    requires forall i :: 0 <= i < |Answers(p, events)| ==> !DeliversTo(Answers(p, events)[i].task, x)
    ensures |Run(p, events).host| == |p.host| && Run(p, events).host[x] == p.host[x]
  {
    hide DeliversTo, Inv, AllOk, Receive, Run, Answers, Possibly;
    EveryBusKeepsOrder(p, events);
    ReceivedKept(HostOf(p), Answers(p, events), x);
  }
}
