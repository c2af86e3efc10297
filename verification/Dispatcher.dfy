/** The parallel test runner: one master and n workers exchanging requests and commands over FIFO pipes,
    with every interleaving of their steps. */
module Dispatcher {
  import opened Options

  /** What a worker is doing: about to ask, waiting for a command, running a test, finished, dead in a test, or
      killed by the master with the test it had, if any. */
  datatype Mode = Asking | Waiting | Running(test: nat) | Gone | Dead(test: nat) | Killed(had: Option<nat>)

  /** A worker with its two pipes: request characters on their way to the master, commands on their way back. */
  datatype Worker = Worker(mode: Mode, requests: nat, commands: seq<int>)

  /** The master's variables; `open[j]` is false once worker `j` has been told to exit. */
  datatype Master = Master(dispatched: nat, exited: nat, passed: nat, first: seq<bool>, open: seq<bool>, failed: bool)

  /** `log` lists the workers the tests were sent to, in order of sending; `ran` the tests that have finished. */
  datatype System = System(total: nat, master: Master, workers: seq<Worker>, log: seq<nat>, ran: seq<nat>)

  function Repeat<T>(x: T, n: nat): (s: seq<T>)
    ensures |s| == n && forall i :: 0 <= i < n ==> s[i] == x
  {
    seq(n, _ => x)
  }

  function Start(total: nat, n: nat): System {
    System(total, Master(0, 0, 0, Repeat(true, n), Repeat(true, n), false), Repeat(Worker(Asking, 0, []), n), [], [])
  }

  /** The test a worker was sent and has not finished. */
  function Held(w: Worker): Option<nat> {
    match w.mode
    case Running(i) => Some(i)
    case Dead(i) => Some(i)
    case Killed(had) => had
    case Waiting => if w.commands != [] && w.commands[0] >= 0 then Some(w.commands[0]) else None
    case _ => None
  }

  // ---------------------------------------------------------------- steps

  /** The master answers a request of worker `j`: the next test, or -1 when none is left. */
  function Command(m: Master, total: nat): int {
    if m.dispatched < total then m.dispatched else -1
  }

  function Answered(m: Master, j: nat, total: nat): Master
    requires j < |m.first| && j < |m.open|
  {
    var counted := if m.first[j] then m.(first := m.first[j := false]) else m.(passed := m.passed + 1);
    if m.dispatched < total then counted.(dispatched := m.dispatched + 1)
    else counted.(open := m.open[j := false], exited := m.exited + 1)
  }

  /** A worker asks, takes a command, finishes its test or crashes in it; the master serves a request or sees
      the end of a dead worker's pipe; once the master has left its loop and closed its pipes, a worker that
      waits in vain hangs up, and after a failure the master kills the workers still alive. */
  datatype Step = Ask(j: nat) | Serve(j: nat) | Take(j: nat) | Finish(j: nat) | Crash(j: nat) | Eof(j: nat) | Hangup(j: nat) | Kill(j: nat)

  predicate Looping(s: System) {
    !s.master.failed && s.master.exited < |s.workers|
  }

  predicate Stopped(w: Worker) {
    w.mode.Gone? || w.mode.Dead? || w.mode.Killed?
  }

  predicate Enabled(s: System, a: Step) {
    && a.j < |s.workers| && a.j < |s.master.open| && a.j < |s.master.first|
    && var w := s.workers[a.j];
       match a
       case Ask(_) => w.mode == Asking
       case Serve(_) => Looping(s) && s.master.open[a.j] && 0 < w.requests
       case Take(_) => w.mode == Waiting && w.commands != []
       case Finish(_) => w.mode.Running?
       case Crash(_) => w.mode.Running?
       case Eof(_) => Looping(s) && s.master.open[a.j] && w.requests == 0 && w.mode.Dead?
       case Hangup(_) => !Looping(s) && w.mode == Waiting && w.commands == []
       case Kill(_) => s.master.failed && !Stopped(w)
  }

  function After(s: System, a: Step): System
    requires Enabled(s, a)
  {
    var j, w := a.j, s.workers[a.j];
    match a
    case Ask(_) => s.(workers := s.workers[j := w.(mode := Waiting, requests := w.requests + 1)])
    case Serve(_) =>
      s.(master := Answered(s.master, j, s.total),
         workers := s.workers[j := w.(requests := w.requests - 1, commands := w.commands + [Command(s.master, s.total)])],
         log := if s.master.dispatched < s.total then s.log + [j] else s.log)
    case Take(_) =>
      var mode := if w.commands[0] < 0 then Gone else Running(w.commands[0]);
      s.(workers := s.workers[j := w.(mode := mode, commands := w.commands[1..])])
    case Finish(_) => s.(workers := s.workers[j := w.(mode := Asking)], ran := s.ran + [w.mode.test])
    case Crash(_) => s.(workers := s.workers[j := w.(mode := Dead(w.mode.test))])
    case Eof(_) => s.(master := s.master.(failed := true))
    case Hangup(_) => s.(workers := s.workers[j := w.(mode := Gone)])
    case Kill(_) => s.(workers := s.workers[j := w.(mode := Killed(Held(w)), commands := [])])
  }

  // ---------------------------------------------------------------- invariant

  /** One worker's pipes and, until a failure, the master's two flags about it fit its mode. */
  ghost predicate WorkerOk(w: Worker, first: bool, open: bool, failed: bool) {
    && (w.mode.Waiting? ==> (w.requests == 1 && w.commands == []) || (w.requests == 0 && |w.commands| == 1))
    && (!w.mode.Waiting? ==> w.commands == [] && (w.requests == 0 || w.mode.Gone? || w.mode.Killed?))
    && (!failed ==>
          && !w.mode.Killed?
          && (open <==> !(w.mode.Gone? || (w.mode.Waiting? && w.commands != [] && w.commands[0] < 0)))
          && (first ==> w.mode.Asking? || (w.mode.Waiting? && w.commands == [])))
  }

  /** Workers that have been sent a test the master has not yet counted as passed. */
  function InFlight(first: seq<bool>, open: seq<bool>): nat
    requires |first| == |open|
  {
    if first == [] then 0
    else (if open[0] && !first[0] then 1 else 0) + InFlight(first[1..], open[1..])
  }

  function Closed(open: seq<bool>): nat {
    if open == [] then 0 else (if open[0] then 0 else 1) + Closed(open[1..])
  }

  ghost predicate WorkersOk(s: System) {
    && |s.master.first| == |s.master.open| == |s.workers|
    && forall j :: 0 <= j < |s.workers| ==> WorkerOk(s.workers[j], s.master.first[j], s.master.open[j], s.master.failed)
  }

  ghost predicate CountsOk(s: System)
    requires |s.master.first| == |s.master.open|
  {
    && s.master.dispatched <= s.total
    && s.master.dispatched == s.master.passed + InFlight(s.master.first, s.master.open)
    && s.master.exited == Closed(s.master.open)
    && (0 < s.master.exited ==> s.master.dispatched == s.total)
    && |s.log| == s.master.dispatched
  }

  ghost predicate Holds(s: System, j: nat, i: nat) {
    j < |s.workers| && Held(s.workers[j]) == Some(i)
  }

  /** Every dispatched test has either finished, once, or is held by the worker it was sent to. */
  ghost predicate TestsOk(s: System)
    requires |s.log| == s.master.dispatched
  {
    && (forall x, y :: 0 <= x < y < |s.ran| ==> s.ran[x] != s.ran[y])
    && (forall x :: 0 <= x < |s.ran| ==> s.ran[x] < s.master.dispatched)
    && (forall j: nat, i: nat :: Holds(s, j, i) ==> i < s.master.dispatched && s.log[i] == j && i !in s.ran)
    && (forall i: nat :: i < s.master.dispatched ==> i in s.ran || Holds(s, s.log[i], i))
  }

  /** The master only reports a failure after a crash. */
  ghost predicate FailureOk(s: System) {
    s.master.failed ==> exists j: nat :: j < |s.workers| && s.workers[j].mode.Dead?
  }

  ghost predicate Inv(s: System) {
    WorkersOk(s) && CountsOk(s) && TestsOk(s) && FailureOk(s)
  }

  // ---------------------------------------------------------------- every step keeps it

  lemma {:induction false} InFlightUpdate(first: seq<bool>, open: seq<bool>, j: nat, f: bool, o: bool)
    requires |first| == |open| && j < |first|
    ensures InFlight(first[j := f], open[j := o]) + (if open[j] && !first[j] then 1 else 0)
         == InFlight(first, open) + (if o && !f then 1 else 0)
  {
    if j > 0 {
      InFlightUpdate(first[1..], open[1..], j - 1, f, o);
      assert first[j := f][1..] == first[1..][j - 1 := f] && open[j := o][1..] == open[1..][j - 1 := o];
    }
  }

  lemma {:induction false} ClosedUpdate(open: seq<bool>, j: nat)
    requires j < |open| && open[j]
    ensures Closed(open[j := false]) == Closed(open) + 1
  {
    if j > 0 {
      ClosedUpdate(open[1..], j - 1);
      assert open[j := false][1..] == open[1..][j - 1 := false];
    }
  }

  /** A step leaves the sizes and all workers and flags but those of `a.j` alone; it may set `failed`. */
  lemma StepTouches(s: System, a: Step)
    requires Enabled(s, a) && |s.master.first| == |s.master.open| == |s.workers|
    ensures var n := After(s, a);
            && |n.master.first| == |n.master.open| == |n.workers| == |s.workers|
            && (s.master.failed ==> n.master.failed)
            && forall k :: 0 <= k < |s.workers| && k != a.j ==>
                 n.workers[k] == s.workers[k] && n.master.first[k] == s.master.first[k] && n.master.open[k] == s.master.open[k]
  {}

  lemma StepKeepsWorker(s: System, a: Step)
    requires WorkersOk(s) && CountsOk(s) && Enabled(s, a)
    ensures |After(s, a).master.first| == |After(s, a).master.open| == |After(s, a).workers| == |s.workers|
    ensures var n := After(s, a); WorkerOk(n.workers[a.j], n.master.first[a.j], n.master.open[a.j], n.master.failed)
  {
    assert WorkerOk(s.workers[a.j], s.master.first[a.j], s.master.open[a.j], s.master.failed);
    ClosedBound(s.master.open);
  }

  lemma StepKeepsWorkers(s: System, a: Step)
    requires WorkersOk(s) && CountsOk(s) && Enabled(s, a)
    ensures WorkersOk(After(s, a))
  {
    hide After, Enabled, CountsOk;
    StepTouches(s, a);
    StepKeepsWorker(s, a);
    forall k | 0 <= k < |s.workers|
      ensures var n := After(s, a); WorkerOk(n.workers[k], n.master.first[k], n.master.open[k], n.master.failed)
    {
      assert WorkerOk(s.workers[k], s.master.first[k], s.master.open[k], s.master.failed);
    }
  }

  lemma StepKeepsCounts(s: System, a: Step)
    requires WorkersOk(s) && CountsOk(s) && Enabled(s, a)
    ensures |After(s, a).master.first| == |After(s, a).master.open| && CountsOk(After(s, a))
  {
    var m, j := s.master, a.j;
    if a.Serve? {
      if m.dispatched < s.total {
        InFlightUpdate(m.first, m.open, j, false, true);
        assert m.first[j := false][j := false] == m.first[j := false];
        assert m.open[j := true] == m.open;
        assert !m.first[j] ==> m.first[j := false] == m.first;
      } else {
        InFlightUpdate(m.first, m.open, j, false, false);
        ClosedUpdate(m.open, j);
        assert !m.first[j] ==> m.first[j := false] == m.first;
      }
    }
  }

  /** Worker `j` alone changes what it holds. */
  lemma OthersHold(s: System, a: Step, k: nat, i: nat)
    requires Enabled(s, a) && k != a.j
    ensures Holds(After(s, a), k, i) <==> Holds(s, k, i)
  {}

  lemma ServeKeepsTests(s: System, j: nat)
    requires Inv(s) && Enabled(s, Serve(j))
    ensures |After(s, Serve(j)).log| == After(s, Serve(j)).master.dispatched && TestsOk(After(s, Serve(j)))
  {
    var n, d := After(s, Serve(j)), s.master.dispatched;
    assert WorkerOk(s.workers[j], s.master.first[j], s.master.open[j], s.master.failed);
    assert Held(s.workers[j]) == None;
    forall k: nat, i: nat | Holds(n, k, i) ensures i < n.master.dispatched && n.log[i] == k && i !in n.ran {
      if k != j { OthersHold(s, Serve(j), k, i); }
    }
    forall i: nat | i < n.master.dispatched ensures i in n.ran || Holds(n, n.log[i], i) {
      if i < d {
        assert i in s.ran || Holds(s, s.log[i], i);
        if Holds(s, s.log[i], i) { OthersHold(s, Serve(j), s.log[i], i); }
      }
    }
  }

  /** Taking a command, running and crashing move a held test within its worker; finishing records it. */
  lemma WorkerKeepsTests(s: System, a: Step)
    requires Inv(s) && Enabled(s, a) && !a.Serve?
    ensures |After(s, a).log| == After(s, a).master.dispatched && TestsOk(After(s, a))
  {
    var n, j := After(s, a), a.j;
    var w := s.workers[j];
    assert WorkerOk(w, s.master.first[j], s.master.open[j], s.master.failed);
    assert a.Finish? ==> Holds(s, j, w.mode.test) && !Holds(n, j, w.mode.test);
    forall k: nat, i: nat | Holds(n, k, i) ensures i < n.master.dispatched && n.log[i] == k && i !in n.ran {
      if k != j { OthersHold(s, a, k, i); }
      assert Holds(s, k, i);
    }
    forall i: nat | i < n.master.dispatched ensures i in n.ran || Holds(n, n.log[i], i) {
      assert i in s.ran || Holds(s, s.log[i], i);
      if i in s.ran {
        var x :| 0 <= x < |s.ran| && s.ran[x] == i;
        assert n.ran[x] == i;
      } else if s.log[i] != j {
        OthersHold(s, a, s.log[i], i);
      } else if a.Finish? {
        assert n.ran[|s.ran|] == i;
      }
    }
  }

  lemma StepKeepsFailure(s: System, a: Step)
    requires FailureOk(s) && Enabled(s, a)
    ensures FailureOk(After(s, a))
  {
    if a.Eof? {
      assert After(s, a).workers[a.j].mode.Dead?;
    } else if s.master.failed {
      var k: nat :| k < |s.workers| && s.workers[k].mode.Dead?;
      assert After(s, a).workers[k].mode.Dead?;
    }
  }

  lemma StepKeepsInv(s: System, a: Step)
    requires Inv(s) && Enabled(s, a)
    ensures Inv(After(s, a))
  {
    StepKeepsFailure(s, a);
    StepKeepsWorkers(s, a);
    StepKeepsCounts(s, a);
    if a.Serve? { ServeKeepsTests(s, a.j); } else { WorkerKeepsTests(s, a); }
  }

  lemma {:induction false} NothingInFlight(first: seq<bool>, open: seq<bool>)
    requires |first| == |open|
    requires (forall j :: 0 <= j < |first| ==> first[j]) || (forall j :: 0 <= j < |open| ==> !open[j])
    ensures InFlight(first, open) == 0
  {
    if first != [] {
      NothingInFlight(first[1..], open[1..]);
    }
  }

  lemma {:induction false} ClosedBound(open: seq<bool>)
    ensures Closed(open) <= |open|
    ensures Closed(open) == 0 <==> forall j :: 0 <= j < |open| ==> open[j]
    ensures Closed(open) == |open| <==> forall j :: 0 <= j < |open| ==> !open[j]
  {
    if open != [] {
      ClosedBound(open[1..]);
      assert open == [open[0]] + open[1..];
    }
  }

  lemma StartInv(total: nat, n: nat)
    ensures Inv(Start(total, n))
  {
    var s := Start(total, n);
    NothingInFlight(s.master.first, s.master.open);
    ClosedBound(s.master.open);
  }

  // ---------------------------------------------------------------- runs

  ghost predicate CanRun(s: System, steps: seq<Step>)
    decreases |steps|
  {
    steps == [] || (Enabled(s, steps[0]) && CanRun(After(s, steps[0]), steps[1..]))
  }

  ghost function Run(s: System, steps: seq<Step>): System
    requires CanRun(s, steps)
    decreases |steps|
  {
    if steps == [] then s else Run(After(s, steps[0]), steps[1..])
  }

  /** How many requests the master answers in a run. */
  function Served(steps: seq<Step>): nat {
    if steps == [] then 0 else (if steps[0].Serve? then 1 else 0) + Served(steps[1..])
  }

  predicate Healthy(steps: seq<Step>) {
    forall i :: 0 <= i < |steps| ==> !steps[i].Crash? && !steps[i].Eof? && !steps[i].Hangup? && !steps[i].Kill?
  }

  lemma StepKeepsSums(s: System, a: Step)
    requires Enabled(s, a)
    ensures var n := After(s, a);
            && n.total == s.total && |n.workers| == |s.workers| && s.log <= n.log && s.ran <= n.ran
            && n.master.dispatched + n.master.exited == s.master.dispatched + s.master.exited + if a.Serve? then 1 else 0
  {}

  lemma {:induction false} RunKeepsInv(s: System, steps: seq<Step>)
    requires Inv(s) && CanRun(s, steps)
    ensures var e := Run(s, steps);
            && Inv(e) && e.total == s.total && |e.workers| == |s.workers|
            && e.master.dispatched + e.master.exited == s.master.dispatched + s.master.exited + Served(steps)
            && s.log <= e.log && s.ran <= e.ran
    decreases |steps|
  {
    hide Inv, Enabled;
    if steps != [] {
      StepKeepsInv(s, steps[0]);
      StepKeepsSums(s, steps[0]);
      RunKeepsInv(After(s, steps[0]), steps[1..]);
    }
  }

  /** All of the tests, each exactly once. */
  ghost predicate EachOnce(ran: seq<nat>, total: nat) {
    && (forall x, y :: 0 <= x < y < |ran| ==> ran[x] != ran[y])
    && (forall i: nat :: i in ran <==> i < total)
  }

  /** When the master's loop ends without a failure, every test has been sent once, has run exactly once and
      has been counted, and every worker has been told to exit. */
  lemma LoopEnds(s: System)
    requires Inv(s) && 0 < |s.workers| && !s.master.failed && !Looping(s)
    ensures s.master.passed == s.master.dispatched == |s.log| == s.total
    ensures EachOnce(s.ran, s.total)
    ensures forall j :: 0 <= j < |s.workers| ==>
              s.workers[j].mode.Gone? || (s.workers[j].mode.Waiting? && s.workers[j].commands != [] && s.workers[j].commands[0] < 0)
  {
    ClosedBound(s.master.open);
    NothingInFlight(s.master.first, s.master.open);
    forall j | 0 <= j < |s.workers|
      ensures s.workers[j].mode.Gone? || (s.workers[j].mode.Waiting? && s.workers[j].commands != [] && s.workers[j].commands[0] < 0)
      ensures Held(s.workers[j]) == None
    {
      assert WorkerOk(s.workers[j], s.master.first[j], s.master.open[j], s.master.failed);
    }
    forall i: nat ensures i in s.ran <==> i < s.total {
      if i < s.total { assert !Holds(s, s.log[i], i); }
    }
  }

  /** In every interleaving: tests are sent in increasing order, each to one worker; the master has answered
      as many requests as it sent tests and exits; at the end that is `total + n`, and all tests have passed. */
  lemma EveryRun(total: nat, n: nat, steps: seq<Step>)
    requires 0 < n && CanRun(Start(total, n), steps)
    ensures var e := Run(Start(total, n), steps);
            && Inv(e)
            && Served(steps) == e.master.dispatched + e.master.exited
            && (!e.master.failed && !Looping(e) ==>
                  Served(steps) == total + n && e.master.passed == total && EachOnce(e.ran, total))
  {
    StartInv(total, n);
    RunKeepsInv(Start(total, n), steps);
    var e := Run(Start(total, n), steps);
    if !e.master.failed && !Looping(e) {
      LoopEnds(e);
      ClosedBound(e.master.open);
    }
  }

  /** A worker that died in a test keeps the loop from ending normally. */
  lemma CrashIsNoticed(s: System, j: nat)
    requires Inv(s) && j < |s.workers| && s.workers[j].mode.Dead? && !s.master.failed
    ensures Looping(s) && Enabled(s, Eof(j))
  {
    ClosedBound(s.master.open);
    assert WorkerOk(s.workers[j], s.master.first[j], s.master.open[j], s.master.failed);
  }

  // ---------------------------------------------------------------- progress

  /** As long as the master loops, some process other than a crashing one can take a step. */
  lemma NoDeadlock(s: System)
    requires Inv(s) && Looping(s)
    ensures exists a: Step :: Enabled(s, a) && !a.Crash?
  {
    ClosedBound(s.master.open);
    var j: nat :| j < |s.workers| && s.master.open[j];
    var w := s.workers[j];
    assert WorkerOk(w, s.master.first[j], s.master.open[j], s.master.failed);
    var a := if w.mode.Asking? then Ask(j)
             else if w.mode.Waiting? then if w.commands == [] then Serve(j) else Take(j)
             else if w.mode.Running? then Finish(j)
             else Eof(j);
    assert Enabled(s, a);
  }

  /** No process can take a step any more, except perhaps by crashing. */
  ghost predicate Over(s: System) {
    forall a: Step :: Enabled(s, a) ==> a.Crash?
  }

  /** Where a run cannot go on, the master has left its loop and every worker has exited, died or been killed; the
      master reports a failure exactly if one has died.  Otherwise every worker has exited by itself, and every
      test has run once and been counted. */
  lemma AllWorkersExit(s: System)
    requires Inv(s) && 0 < |s.workers| && Over(s)
    ensures !Looping(s)
    ensures forall j :: 0 <= j < |s.workers| ==> Stopped(s.workers[j])
    ensures s.master.failed <==> exists j: nat :: j < |s.workers| && s.workers[j].mode.Dead?
    ensures !s.master.failed ==>
              && s.master.passed == s.total && EachOnce(s.ran, s.total)
              && forall j :: 0 <= j < |s.workers| ==> s.workers[j].mode.Gone?
  {
    if Looping(s) { NoDeadlock(s); }
    forall j: nat | j < |s.workers|
      ensures Stopped(s.workers[j]) && (!s.master.failed ==> !s.workers[j].mode.Killed?)
    {
      assert WorkerOk(s.workers[j], s.master.first[j], s.master.open[j], s.master.failed);
      assert !Enabled(s, Ask(j)) && !Enabled(s, Take(j)) && !Enabled(s, Finish(j)) && !Enabled(s, Hangup(j));
    }
    if !s.master.failed {
      LoopEnds(s);
      forall j: nat | j < |s.workers| ensures !s.workers[j].mode.Dead? {
        if s.workers[j].mode.Dead? { CrashIsNoticed(s, j); }
      }
    }
  }

  /** Steps worker `w` and the master still owe each other. */
  function Owed(w: Worker): nat {
    match w.mode
    case Asking => 3
    case Waiting => if w.commands == [] then 2 else if w.commands[0] < 0 then 1 else 5
    case Running(_) => 4
    case _ => 0
  }

  function TotalOwed(workers: seq<Worker>): nat {
    if workers == [] then 0 else Owed(workers[0]) + TotalOwed(workers[1..])
  }

  function Budget(s: System): nat
    requires s.master.dispatched <= s.total
  {
    4 * (s.total - s.master.dispatched) + TotalOwed(s.workers) + if s.master.failed then 0 else 1
  }

  lemma {:induction false} OwedUpdate(workers: seq<Worker>, j: nat, w: Worker)
    requires j < |workers|
    ensures TotalOwed(workers[j := w]) + Owed(workers[j]) == TotalOwed(workers) + Owed(w)
  {
    if j > 0 {
      OwedUpdate(workers[1..], j - 1, w);
      assert workers[j := w][1..] == workers[1..][j - 1 := w];
    }
  }

  /** Every step spends at least one unit of the budget, every healthy one exactly one. */
  lemma StepSpends(s: System, a: Step)
    requires Inv(s) && Enabled(s, a)
    ensures After(s, a).master.dispatched <= s.total == After(s, a).total
    ensures Budget(After(s, a)) < Budget(s)
    ensures !a.Crash? && !a.Eof? && !a.Hangup? && !a.Kill? ==> Budget(After(s, a)) + 1 == Budget(s)
  {
    StepKeepsCounts(s, a);
    var j := a.j;
    assert WorkerOk(s.workers[j], s.master.first[j], s.master.open[j], s.master.failed);
    OwedUpdate(s.workers, j, After(s, a).workers[j]);
    assert a.Eof? ==> After(s, a).workers == s.workers;
  }

  lemma {:induction false} RunSpends(s: System, steps: seq<Step>)
    requires Inv(s) && CanRun(s, steps)
    ensures Run(s, steps).master.dispatched <= Run(s, steps).total
    ensures |steps| + Budget(Run(s, steps)) <= Budget(s)
    ensures Healthy(steps) ==> |steps| + Budget(Run(s, steps)) == Budget(s)
    decreases |steps|
  {
    if steps != [] {
      StepSpends(s, steps[0]);
      StepKeepsInv(s, steps[0]);
      hide Inv, Budget, After, Enabled;
      RunSpends(After(s, steps[0]), steps[1..]);
      assert Healthy(steps) ==> Healthy(steps[1..]);
    }
  }

  lemma {:induction false} AllAsking(n: nat)
    ensures TotalOwed(Repeat(Worker(Asking, 0, []), n)) == 3 * n
  {
    if n > 0 {
      AllAsking(n - 1);
      assert Repeat(Worker(Asking, 0, []), n)[1..] == Repeat(Worker(Asking, 0, []), n - 1);
    }
  }

  /** No run is longer than four steps a test and three a worker, and one more for a failure. */
  lemma RunsAreBounded(total: nat, n: nat, steps: seq<Step>)
    requires CanRun(Start(total, n), steps)
    ensures |steps| <= 4 * total + 3 * n + 1
  {
    StartInv(total, n);
    AllAsking(n);
    RunSpends(Start(total, n), steps);
  }

  /** Every run from the start that goes on as long as it can, and so, by the bound, ends: all workers leave,
      and unless one of them has crashed the master has passed all tests, each run once. */
  lemma MaximalRun(total: nat, n: nat, steps: seq<Step>)
    requires 0 < n && CanRun(Start(total, n), steps) && Over(Run(Start(total, n), steps))
    ensures var e := Run(Start(total, n), steps);
            && |e.workers| == n
            && (forall j :: 0 <= j < n ==> Stopped(e.workers[j]))
            && (e.master.failed <==> exists j: nat :: j < n && e.workers[j].mode.Dead?)
            && (!e.master.failed ==>
                  && e.master.passed == total && EachOnce(e.ran, total)
                  && forall j :: 0 <= j < n ==> e.workers[j].mode.Gone?)
  {
    hide Inv, Over, After, Enabled;
    StartInv(total, n);
    RunKeepsInv(Start(total, n), steps);
    AllWorkersExit(Run(Start(total, n), steps));
  }
}
