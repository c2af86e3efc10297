/** The master's side of the dispatcher as the program writes it: counters and flag arrays updated in place. */
module DispatchMaster {
  import opened Dispatcher

  /** One entry of the ready set of `select`: nothing to read, a request character, or end of file. */
  datatype Ready = Quiet | Request | EndOfFile

  /** A command written to the pipe of worker `j`. */
  datatype Sent = Sent(j: nat, command: int)

  datatype Round = Round(master: Master, sent: seq<Sent>)

  /** The loop over one ready set from worker `j` on; it stops at the first end of file. */
  function Handled(m: Master, total: nat, ready: seq<Ready>, j: nat): Round
    requires |ready| == |m.first| == |m.open| && j <= |ready|
    decreases |ready| - j
  {
    if j == |ready| then Round(m, [])
    else if !m.open[j] || ready[j].Quiet? then Handled(m, total, ready, j + 1)
    else if ready[j].EndOfFile? then Round(m.(failed := true), [])
    else
      var rest := Handled(Answered(m, j, total), total, ready, j + 1);
      rest.(sent := [Sent(j, Command(m, total))] + rest.sent)
  }

  /** The commands of one round are consecutive test numbers, then only -1. */
  lemma {:induction false} RoundCommands(m: Master, total: nat, ready: seq<Ready>, j: nat)
    requires |ready| == |m.first| == |m.open| && j <= |ready| && m.dispatched <= total
    ensures var r := Handled(m, total, ready, j);
            && m.dispatched <= r.master.dispatched <= total
            && m.dispatched + |r.sent| == r.master.dispatched + (r.master.exited - m.exited)
            && forall i :: 0 <= i < |r.sent| ==>
                 r.sent[i].command == if m.dispatched + i < total then m.dispatched + i else -1
    decreases |ready| - j
  {
    if j < |ready| {
      if !m.open[j] || ready[j].Quiet? {
        RoundCommands(m, total, ready, j + 1);
      } else if ready[j].Request? {
        RoundCommands(Answered(m, j, total), total, ready, j + 1);
      }
    }
  }

  /** Answering worker `j` changes no other worker's flags. */
  lemma AnsweredOthers(m: Master, j: nat, total: nat, k: nat)
    requires j < |m.first| && j < |m.open| && k < |m.open| && k != j
    ensures var a := Answered(m, j, total);
            && |a.first| == |m.first| && |a.open| == |m.open| && a.open[k] == m.open[k] && a.failed == m.failed
  {}

  /** Some open worker from `j` up to but not including `k` has closed its pipe. */
  ghost predicate EofBefore(m: Master, ready: seq<Ready>, j: nat, k: nat)
    requires |ready| == |m.open|
  {
    exists e: nat :: j <= e < k && e < |ready| && m.open[e] && ready[e].EndOfFile?
  }

  ghost predicate Increasing(sent: seq<Sent>) {
    forall x, y :: 0 <= x < y < |sent| ==> sent[x].j < sent[y].j
  }

  ghost predicate MayAnswer(m: Master, ready: seq<Ready>, j: nat, k: nat)
    requires |ready| == |m.open|
  {
    j <= k < |ready| && m.open[k] && ready[k].Request? && !EofBefore(m, ready, j, k)
  }

  ghost predicate AllMayAnswer(m: Master, ready: seq<Ready>, j: nat, sent: seq<Sent>)
    requires |ready| == |m.open|
  {
    forall x :: 0 <= x < |sent| ==> MayAnswer(m, ready, j, sent[x].j)
  }

  ghost predicate GetsAnswer(sent: seq<Sent>, k: nat) {
    exists x :: 0 <= x < |sent| && sent[x].j == k
  }

  ghost predicate AllAnswered(m: Master, ready: seq<Ready>, j: nat, sent: seq<Sent>)
    requires |ready| == |m.open|
  {
    forall k: nat :: MayAnswer(m, ready, j, k) ==> GetsAnswer(sent, k)
  }

  ghost predicate AnswersExactly(m: Master, ready: seq<Ready>, j: nat, sent: seq<Sent>)
    requires |ready| == |m.open|
  {
    Increasing(sent) && AllMayAnswer(m, ready, j, sent) && AllAnswered(m, ready, j, sent)
  }

  lemma EofLater(m: Master, a: Master, ready: seq<Ready>, j: nat, k: nat)
    requires |ready| == |m.open| == |a.open| && j < |ready| && !ready[j].EndOfFile?
    requires forall e :: j < e < |ready| ==> a.open[e] == m.open[e]
    ensures EofBefore(m, ready, j, k) <==> EofBefore(a, ready, j + 1, k)
  {
    if EofBefore(m, ready, j, k) {
      var e: nat :| j <= e < k && e < |ready| && m.open[e] && ready[e].EndOfFile?;
      assert j + 1 <= e && a.open[e];
    }
  }

  lemma MayAnswerLater(m: Master, a: Master, ready: seq<Ready>, j: nat, k: nat)
    requires |ready| == |m.open| == |a.open| && j < |ready| && m.open[j] && ready[j].Request?
    requires forall e :: j < e < |ready| ==> a.open[e] == m.open[e]
    ensures MayAnswer(m, ready, j, k) <==> k == j || MayAnswer(a, ready, j + 1, k)
  {
    hide EofBefore;
    EofLater(m, a, ready, j, k);
    NoEofYet(m, ready, j);
  }

  /** One more answer in front. */
  lemma AnswersCons(m: Master, a: Master, ready: seq<Ready>, first: Sent, rest: seq<Sent>)
    requires |ready| == |m.open| == |a.open| && first.j < |ready| && m.open[first.j] && ready[first.j].Request?
    requires forall e :: first.j < e < |ready| ==> a.open[e] == m.open[e]
    requires AnswersExactly(a, ready, first.j + 1, rest)
    ensures AnswersExactly(m, ready, first.j, [first] + rest)
  {
    hide EofBefore, MayAnswer, GetsAnswer, Increasing;
    var j, sent := first.j, [first] + rest;
    forall k: nat ensures MayAnswer(m, ready, j, k) <==> k == j || MayAnswer(a, ready, j + 1, k) {
      MayAnswerLater(m, a, ready, j, k);
    }
    forall x | 0 <= x < |rest| ensures j < rest[x].j { AnswerIsLater(a, ready, j + 1, rest, x); }
    IncreasingCons(first, rest);
    forall x | 0 <= x < |sent| ensures MayAnswer(m, ready, j, sent[x].j) {
      if 0 < x { assert sent[x] == rest[x - 1]; }
    }
    forall k: nat | MayAnswer(m, ready, j, k) ensures GetsAnswer(sent, k) { GetsCons(first, rest, k); }
  }

  lemma AnswerIsLater(a: Master, ready: seq<Ready>, j: nat, rest: seq<Sent>, x: nat)
    requires |ready| == |a.open| && AllMayAnswer(a, ready, j, rest) && x < |rest|
    ensures j <= rest[x].j
  {}

  lemma IncreasingCons(first: Sent, rest: seq<Sent>)
    requires Increasing(rest) && forall x :: 0 <= x < |rest| ==> first.j < rest[x].j
    ensures Increasing([first] + rest)
  {}

  lemma GetsCons(first: Sent, rest: seq<Sent>, k: nat)
    ensures GetsAnswer([first] + rest, k) <==> first.j == k || GetsAnswer(rest, k)
  {
    var sent := [first] + rest;
    assert sent[0] == first;
    if GetsAnswer(rest, k) {
      var x :| 0 <= x < |rest| && rest[x].j == k;
      assert sent[x + 1].j == k;
    }
    if GetsAnswer(sent, k) && first.j != k {
      var x :| 0 <= x < |sent| && sent[x].j == k;
      assert rest[x - 1].j == k;
    }
  }

  lemma NoEofYet(m: Master, ready: seq<Ready>, j: nat)
    requires |ready| == |m.open|
    ensures !EofBefore(m, ready, j, j)
  {}

  /** A worker with nothing to answer. */
  lemma AnswersSkip(m: Master, ready: seq<Ready>, j: nat, sent: seq<Sent>)
    requires |ready| == |m.open| && j < |ready| && (!m.open[j] || ready[j].Quiet?)
    requires AnswersExactly(m, ready, j + 1, sent)
    ensures AnswersExactly(m, ready, j, sent)
    ensures EofBefore(m, ready, j, |ready|) <==> EofBefore(m, ready, j + 1, |ready|)
  {
    forall k: nat ensures EofBefore(m, ready, j, k) <==> EofBefore(m, ready, j + 1, k) {}
  }

  lemma AnswersStop(m: Master, ready: seq<Ready>, j: nat)
    requires |ready| == |m.open| && j <= |ready|
    requires j < |ready| ==> m.open[j] && ready[j].EndOfFile?
    ensures AnswersExactly(m, ready, j, [])
    ensures EofBefore(m, ready, j, |ready|) <==> j < |ready|
  {
    forall k: nat | j < k && j < |ready| ensures EofBefore(m, ready, j, k) {}
  }

  lemma {:induction false} HandledAnswers(m: Master, total: nat, ready: seq<Ready>, j: nat)
    requires |ready| == |m.first| == |m.open| && j <= |ready| && !m.failed
    ensures AnswersExactly(m, ready, j, Handled(m, total, ready, j).sent)
    ensures Handled(m, total, ready, j).master.failed <==> EofBefore(m, ready, j, |ready|)
    decreases |ready| - j
  {
    hide AnswersExactly, EofBefore, Answered, Command;
    if j == |ready| {
      AnswersStop(m, ready, j);
    } else if !m.open[j] || ready[j].Quiet? {
      HandledAnswers(m, total, ready, j + 1);
      AnswersSkip(m, ready, j, Handled(m, total, ready, j + 1).sent);
    } else if ready[j].EndOfFile? {
      AnswersStop(m, ready, j);
    } else {
      var n := Answered(m, j, total);
      AnsweredSizes(m, j, total);
      forall k | 0 <= k < |ready| && k != j ensures n.open[k] == m.open[k] { AnsweredOthers(m, j, total, k); }
      HandledAnswers(n, total, ready, j + 1);
      AnswersCons(m, n, ready, Sent(j, Command(m, total)), Handled(n, total, ready, j + 1).sent);
      EofLater(m, n, ready, j, |ready|);
    }
  }

  lemma AnsweredSizes(m: Master, j: nat, total: nat)
    requires j < |m.first| && j < |m.open|
    ensures var a := Answered(m, j, total);
            |a.first| == |m.first| && |a.open| == |m.open| && a.failed == m.failed
  {}

  /** One round answers every open worker that has a request before the first end of file, exactly once and in order,
      and nobody else; it fails exactly if some open worker's pipe has ended. */
  lemma RoundAnswers(m: Master, total: nat, ready: seq<Ready>, j: nat)
    requires |ready| == |m.first| == |m.open| && j <= |ready| && !m.failed
    ensures var sent := Handled(m, total, ready, j).sent;
            && (forall x, y :: 0 <= x < y < |sent| ==> sent[x].j < sent[y].j)
            && (forall x :: 0 <= x < |sent| ==>
                  && j <= sent[x].j < |ready| && m.open[sent[x].j] && ready[sent[x].j].Request?
                  && !EofBefore(m, ready, j, sent[x].j))
            && (forall k: nat :: j <= k < |ready| && m.open[k] && ready[k].Request? && !EofBefore(m, ready, j, k) ==>
                  exists x :: 0 <= x < |sent| && sent[x].j == k)
    ensures Handled(m, total, ready, j).master.failed <==> EofBefore(m, ready, j, |ready|)
  {
    hide EofBefore, Handled;
    HandledAnswers(m, total, ready, j);
    var sent := Handled(m, total, ready, j).sent;
    forall k: nat | j <= k < |ready| && m.open[k] && ready[k].Request? && !EofBefore(m, ready, j, k)
      ensures exists x :: 0 <= x < |sent| && sent[x].j == k
    {
      assert MayAnswer(m, ready, j, k) && GetsAnswer(sent, k);
    }
    forall x | 0 <= x < |sent|
      ensures && j <= sent[x].j < |ready| && m.open[sent[x].j] && ready[sent[x].j].Request?
              && !EofBefore(m, ready, j, sent[x].j)
    {
      assert MayAnswer(m, ready, j, sent[x].j);
    }
  }

  /** The ready set tells the truth about the workers from `j` on. */
  ghost predicate Reported(s: System, ready: seq<Ready>, j: nat) {
    && |ready| == |s.workers|
    && forall k :: j <= k < |ready| ==>
         && (ready[k].Request? ==> 0 < s.workers[k].requests)
         && (ready[k].EndOfFile? ==> s.workers[k].mode.Dead? && s.workers[k].requests == 0)
  }

  /** The system steps one round performs. */
  function RoundSteps(m: Master, total: nat, ready: seq<Ready>, j: nat): seq<Step>
    requires |ready| == |m.first| == |m.open| && j <= |ready|
    decreases |ready| - j
  {
    if j == |ready| then []
    else if !m.open[j] || ready[j].Quiet? then RoundSteps(m, total, ready, j + 1)
    else if ready[j].EndOfFile? then [Eof(j)]
    else [Serve(j)] + RoundSteps(Answered(m, j, total), total, ready, j + 1)
  }

  /** The workers a list of commands gives a test to. */
  function Receivers(sent: seq<Sent>): seq<nat> {
    if sent == [] then [] else (if sent[0].command >= 0 then [sent[0].j] else []) + Receivers(sent[1..])
  }

  /** A round of the master loop is a run of the system: the same answers to the same workers, given in one go. */
  lemma {:induction false} RoundIsRun(s: System, ready: seq<Ready>, j: nat)
    requires Inv(s) && !s.master.failed && Reported(s, ready, j) && j <= |ready|
    ensures |s.master.first| == |s.master.open| == |ready|
    ensures var steps := RoundSteps(s.master, s.total, ready, j);
            && CanRun(s, steps)
            && Run(s, steps).master == Handled(s.master, s.total, ready, j).master
            && Run(s, steps).log == s.log + Receivers(Handled(s.master, s.total, ready, j).sent)
    decreases |ready| - j
  {
    hide Inv, After, Enabled, Answered, Reported, Command, Receivers;
    NoReceivers();
    ReadySizes(s, ready, j);
    if j < |ready| {
      if !s.master.open[j] || ready[j].Quiet? {
        ReportedLater(s, ready, j);
        RoundIsRun(s, ready, j + 1);
      } else if ready[j].EndOfFile? {
        EofStep(s, ready, j);
        assert [Eof(j)][1..] == [];
      } else {
        ServeStep(s, ready, j);
        RoundIsRun(After(s, Serve(j)), ready, j + 1);
        var rest := RoundSteps(Answered(s.master, j, s.total), s.total, ready, j + 1);
        assert ([Serve(j)] + rest)[1..] == rest;
        var told := Handled(Answered(s.master, j, s.total), s.total, ready, j + 1).sent;
        ReceiversCons(Sent(j, Command(s.master, s.total)), told);
        assert s.log + (if Command(s.master, s.total) >= 0 then [j] else []) + Receivers(told)
            == s.log + Receivers([Sent(j, Command(s.master, s.total))] + told);
      }
    }
  }

  lemma NoReceivers()
    ensures Receivers([]) == []
  {}

  lemma ReceiversCons(c: Sent, rest: seq<Sent>)
    ensures Receivers([c] + rest) == (if c.command >= 0 then [c.j] else []) + Receivers(rest)
  {
    assert ([c] + rest)[1..] == rest;
  }

  lemma ReadySizes(s: System, ready: seq<Ready>, j: nat)
    requires Inv(s) && Reported(s, ready, j)
    ensures |s.master.first| == |s.master.open| == |ready| == |s.workers|
  {}

  lemma ReportedLater(s: System, ready: seq<Ready>, j: nat)
    requires Reported(s, ready, j)
    ensures Reported(s, ready, j + 1)
  {}

  lemma EofStep(s: System, ready: seq<Ready>, j: nat)
    requires Inv(s) && !s.master.failed && Reported(s, ready, j) && j < |ready|
    requires |s.master.open| == |ready| && s.master.open[j] && ready[j].EndOfFile?
    ensures Enabled(s, Eof(j)) && After(s, Eof(j)).master == s.master.(failed := true) && After(s, Eof(j)).log == s.log
  {
    ClosedBound(s.master.open);
  }

  lemma ServeStep(s: System, ready: seq<Ready>, j: nat)
    requires Inv(s) && !s.master.failed && Reported(s, ready, j) && j < |ready|
    requires |s.master.first| == |s.master.open| == |ready| && s.master.open[j] && ready[j].Request?
    ensures Enabled(s, Serve(j)) && Inv(After(s, Serve(j)))
    ensures After(s, Serve(j)).master == Answered(s.master, j, s.total) && After(s, Serve(j)).total == s.total
    ensures After(s, Serve(j)).log == s.log + (if Command(s.master, s.total) >= 0 then [j] else [])
    ensures !After(s, Serve(j)).master.failed && Reported(After(s, Serve(j)), ready, j + 1)
  {
    ClosedBound(s.master.open);
    StepKeepsInv(s, Serve(j));
  }

  class MasterLoop {
    const total: nat
    const first: array<bool>
    const open: array<bool>
    var dispatched: nat
    var exited: nat
    var passed: nat
    var failed: bool

    function State(): Master
      reads this, first, open
    {
      Master(dispatched, exited, passed, first[..], open[..], failed)
    }

    ghost predicate Valid() {
      first.Length == open.Length && first != open
    }

    constructor (tests: nat, workers: nat)
      ensures Valid() && total == tests && fresh(first) && fresh(open)
      ensures State() == Start(tests, workers).master
    {
      total := tests;
      first := new bool[workers](_ => true);
      open := new bool[workers](_ => true);
      dispatched, exited, passed, failed := 0, 0, 0, false;
    }

    /** The answer to one request character. */
    method HandleRequest(j: nat) returns (command: int)
      requires Valid() && j < first.Length
      modifies this`dispatched, this`exited, this`passed, first, open
      ensures State() == old(Answered(State(), j, total))
      ensures command == old(Command(State(), total))
    {
      if first[j] {
        first[j] := false;
      } else {
        passed := passed + 1;
      }
      if dispatched < total {
        command := dispatched;
        dispatched := dispatched + 1;
      } else {
        command := -1;
        open[j] := false;
        exited := exited + 1;
      }
    }

    /** One turn of the master loop over the ready set that `select` returned. */
    method HandleReady(ready: seq<Ready>) returns (sent: seq<Sent>)
      requires Valid() && |ready| == first.Length
      modifies this`dispatched, this`exited, this`passed, this`failed, first, open
      ensures Round(State(), sent) == old(Handled(State(), total, ready, 0))
    {
      sent := [];
      var j := 0;
      while j < |ready|
        invariant j <= |ready|
        invariant old(Handled(State(), total, ready, 0)) ==
                  var rest := Handled(State(), total, ready, j); rest.(sent := sent + rest.sent)
      {
        if open[j] && !ready[j].Quiet? {
          if ready[j].EndOfFile? {
            failed := true;
            break;
          }
          var command := HandleRequest(j);
          sent := sent + [Sent(j, command)];
        }
        j := j + 1;
      }
    }
  }
}
