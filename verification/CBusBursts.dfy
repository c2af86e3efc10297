/** What a burst does, whatever the pauses. */
module CBusBursts {
  import opened Words
  import opened Memory
  import opened Axi
  import Numerals
  import opened CBusSpec

  /** The requests of consecutive enabled cycles, as inputs without pauses. */
  function Unpaused(reqs: seq<Req>): (inputs: seq<Input>)
    ensures |inputs| == |reqs| && forall i :: 0 <= i < |reqs| ==> inputs[i] == Input(reqs[i], true)
  {
    seq(|reqs|, i requires 0 <= i < |reqs| => Input(reqs[i], true))
  }

  /** A master that holds one request for beats of `2 ^ size` bytes; only the data and strobe may change from cycle
      to cycle. */
  ghost predicate Holds(req: Req, b: Burst, isWrite: bool) {
    && req.valid && req.isWrite == isWrite
    && req.size < 4 && req.len < 256 && req.addr < TWO_32
    && b == Burst(req.addr, Numerals.Pow2(req.size), req.len + 1)
  }

  ghost predicate Master(reqs: seq<Req>, b: Burst, isWrite: bool) {
    && |reqs| == b.length + 1
    && forall i :: 0 <= i < |reqs| ==> Holds(reqs[i], b, isWrite) && reqs[i].strobe < 16
  }

  /** The response to beat `k`: ready, last on the final beat, and for a read the word at the wrap address. */
  ghost predicate Answers(resp: Resp, b: Burst, isWrite: bool, k: nat, mem: seq<Word>)
    requires b.Ok()
  {
    && b.Address(k) < 4 * |mem|
    && resp == Resp(true, k + 1 == b.length, if isWrite then 0 else mem[b.Address(k) / 4])
  }

  /** The window lies inside the memory and below the end of the address space. */
  ghost predicate WindowOk(b: Burst, mem: seq<Word>) {
    b.Ok() && b.start < TWO_32 && b.length < TWO_32 && b.Lower() + b.Size() < TWO_32 && b.Lower() + b.Size() <= 4 * |mem|
  }

  /** The beats of a write burst, in order: beat `k` carries the data and strobe of the cycle it is on the bus. */
  ghost function Written(mem: seq<Word>, reqs: seq<Req>, b: Burst, n: nat): (r: seq<Word>)
    requires WindowOk(b, mem) && n < |reqs| && forall i :: 0 <= i < |reqs| ==> reqs[i].strobe < 16
    ensures |r| == |mem|
  {
    if n == 0 then mem else
    AddressInWindow(b, n - 1);
    StoreWord(Written(mem, reqs, b, n - 1), b.Address(n - 1) / 4, reqs[n].data, Mask(reqs[n].strobe))
  }

  ghost function After(mem: seq<Word>, reqs: seq<Req>, b: Burst, isWrite: bool, n: nat): (r: seq<Word>)
    requires WindowOk(b, mem) && n < |reqs| && forall i :: 0 <= i < |reqs| ==> reqs[i].strobe < 16
    ensures |r| == |mem|
  {
    if isWrite then Written(mem, reqs, b, n) else mem
  }

  // ---------------------------------------------------------------- the device during a burst

  /** The device when beat `k` is on the bus, `k` beats done. */
  ghost predicate InBurst(d: Device, t: Tx, b: Burst, isWrite: bool, k: nat, mem: seq<Word>) {
    && d.enable && d.tx == d.ntx && d.mem == mem
    && Starts(t, b) && t.busy && t.isWrite == isWrite
    && AtBeat(d.tx, t, b, k)
  }

  lemma KickOff(d: Device, req: Req, b: Burst, isWrite: bool)
    requires d.enable && !d.tx.busy && d.tx == d.ntx && Holds(req, b, isWrite) && req.strobe < 16
    ensures Accepts(d, req) && !EvalResp(d).ready && !EvalResp(d).last
    ensures b.Ok() && InBurst(Cycle(d, req, true), Cycle(d, req, true).tx, b, isWrite, 0, d.mem)
  {
    InitStarts(d.ntx, req.addr, req.size, req.len);
  }

  lemma BeatHolds(t: Tx, b: Burst, k: nat)
    requires Starts(t, b) && b.Lower() + b.Size() < TWO_32 && k + 2 < TWO_32
    requires AtBeat(Beat(t, k), t, b, k)
    ensures AtBeat(Next(Beat(t, k)), t, b, k + 1)
  {
    BeatAddress(t, b, k + 1);
  }

  lemma MidCycle(d: Device, req: Req, t: Tx, b: Burst, isWrite: bool, k: nat, mem: seq<Word>)
    requires WindowOk(b, mem) && InBurst(d, t, b, isWrite, k, mem) && k < b.length && Holds(req, b, isWrite)
    requires req.strobe < 16
    ensures Accepts(d, req) && b.Address(k) < 4 * |mem|
    ensures Answers(EvalResp(d), b, isWrite, k, mem)
    ensures var mem' := if isWrite then StoreWord(mem, b.Address(k) / 4, req.data, Mask(req.strobe)) else mem;
            var d' := Cycle(d, req, true);
            if k + 1 == b.length then d'.enable && !d'.tx.busy && d'.tx == d'.ntx && d'.mem == mem'
            else InBurst(d', t, b, isWrite, k + 1, mem')
  {
    AddressInWindow(b, k);
    BeatAddress(t, b, k);
    assert d.tx == Beat(t, k);
    if k + 1 < b.length { BeatHolds(t, b, k); }
  }

  /** The responses to beats `k`, `k + 1`, and so on. */
  ghost predicate AnswersFrom(responses: seq<Resp>, b: Burst, isWrite: bool, k: nat, mem: seq<Word>)
    requires b.Ok()
  {
    forall i: nat :: i < |responses| ==> Answers(responses[i], b, isWrite, k + i, mem)
  }

  lemma AnswersCons(first: Resp, rest: seq<Resp>, b: Burst, isWrite: bool, k: nat, mem: seq<Word>)
    requires b.Ok() && Answers(first, b, isWrite, k, mem) && AnswersFrom(rest, b, isWrite, k + 1, mem)
    ensures AnswersFrom([first] + rest, b, isWrite, k, mem)
  {
    hide Answers;
    var all := [first] + rest;
    forall i: nat | i < |all| ensures Answers(all[i], b, isWrite, k + i, mem) {
      if 0 < i { assert all[i] == rest[i - 1] && Answers(rest[i - 1], b, isWrite, k + 1 + (i - 1), mem); }
    }
  }

  /** A write burst answers no data, so its answers do not depend on what it has written. */
  lemma AnswersAfter(resp: Resp, b: Burst, isWrite: bool, k: nat, now: seq<Word>, mem: seq<Word>)
    requires b.Ok() && Answers(resp, b, isWrite, k, now) && |now| == |mem| && (isWrite || now == mem)
    ensures Answers(resp, b, isWrite, k, mem)
  {}

  lemma RunCons(d: Device, inputs: seq<Input>)
    requires inputs != [] && Accepts(d, inputs[0].req)
    requires Accepted(Cycle(d, inputs[0].req, inputs[0].enableNext), inputs[1..])
    ensures var n := Cycle(d, inputs[0].req, inputs[0].enableNext);
            Accepted(d, inputs) && Run(d, inputs) == Run(n, inputs[1..])
    ensures var n := Cycle(d, inputs[0].req, inputs[0].enableNext);
            |Responses(d, inputs)| == |inputs| && Responses(d, inputs)[0] == EvalResp(d)
            && Responses(d, inputs) == [EvalResp(d)] + Responses(n, inputs[1..])
  {
    hide Cycle, EvalResp;
  }

  lemma RunNil(d: Device)
    ensures Accepted(d, []) && Run(d, []) == d && Responses(d, []) == []
  {}

  lemma MasterHolds(reqs: seq<Req>, b: Burst, isWrite: bool, i: nat)
    requires Master(reqs, b, isWrite) && i < |reqs|
    ensures Holds(reqs[i], b, isWrite) && reqs[i].strobe < 16
    ensures forall x :: 0 <= x < |reqs| ==> reqs[x].strobe < 16
  {}

  lemma AfterNext(mem: seq<Word>, reqs: seq<Req>, b: Burst, isWrite: bool, k: nat)
    requires WindowOk(b, mem) && k + 1 < |reqs| && forall i :: 0 <= i < |reqs| ==> reqs[i].strobe < 16
    ensures b.Address(k) / 4 < |mem|
    ensures After(mem, reqs, b, isWrite, k + 1) ==
            var now, req := After(mem, reqs, b, isWrite, k), reqs[k + 1];
            if isWrite then StoreWord(now, b.Address(k) / 4, req.data, Mask(req.strobe)) else now
    ensures isWrite || After(mem, reqs, b, isWrite, k) == mem
  {
    hide Mask, Merge, Burst.Address;
    AddressInWindow(b, k);
  }

  /** The device after a burst. */
  ghost predicate Done(d: Device, mem: seq<Word>) {
    d.enable && !d.tx.busy && d.tx == d.ntx && d.mem == mem
  }

  /** The rest of a burst from beat `k` on. */
  lemma {:induction false} BurstTail(d: Device, reqs: seq<Req>, t: Tx, b: Burst, isWrite: bool, k: nat, mem: seq<Word>)
    requires WindowOk(b, mem) && Master(reqs, b, isWrite) && k < b.length
    requires InBurst(d, t, b, isWrite, k, After(mem, reqs, b, isWrite, k))
    ensures var inputs := Unpaused(reqs[k + 1..]);
            && Accepted(d, inputs)
            && Done(Run(d, inputs), After(mem, reqs, b, isWrite, b.length))
            && AnswersFrom(Responses(d, inputs), b, isWrite, k, mem)
    decreases b.length - k
  {
    hide Cycle, EvalResp, InBurst, Holds, Accepts, Mask, Merge, StoreWord, After, Answers, AnswersFrom, Burst.Address;
    hide Run, Accepted, Responses, Done;
    var inputs := Unpaused(reqs[k + 1..]);
    var now := After(mem, reqs, b, isWrite, k);
    var req := reqs[k + 1];
    MasterHolds(reqs, b, isWrite, k + 1);
    AfterNext(mem, reqs, b, isWrite, k);
    MidCycle(d, req, t, b, isWrite, k, now);
    AnswersAfter(EvalResp(d), b, isWrite, k, now, mem);
    var d' := Cycle(d, req, true);
    assert inputs[0] == Input(req, true);
    RestOfInputs(reqs, k);
    if k + 1 == b.length {
      RunNil(d');
      RunCons(d, inputs);
      IsDone(d', After(mem, reqs, b, isWrite, b.length));
      NoAnswers(b, isWrite, k + 1, mem);
      AnswersCons(EvalResp(d), [], b, isWrite, k, mem);
    } else {
      BurstTail(d', reqs, t, b, isWrite, k + 1, mem);
      RunCons(d, inputs);
      AnswersCons(EvalResp(d), Responses(d', inputs[1..]), b, isWrite, k, mem);
    }
  }

  lemma RestOfInputs(reqs: seq<Req>, k: nat)
    requires k + 1 < |reqs|
    ensures Unpaused(reqs[k + 1..])[1..] == Unpaused(reqs[k + 2..])
    ensures k + 2 == |reqs| ==> Unpaused(reqs[k + 1..])[1..] == []
  {}

  lemma IsDone(d: Device, mem: seq<Word>)
    requires d.enable && !d.tx.busy && d.tx == d.ntx && d.mem == mem
    ensures Done(d, mem)
  {}

  lemma NoAnswers(b: Burst, isWrite: bool, k: nat, mem: seq<Word>)
    requires b.Ok()
    ensures AnswersFrom([], b, isWrite, k, mem)
  {}

  /** A burst takes one cycle to start and one for each beat.  `ready` is set in exactly the beat cycles,
      `last` in exactly the final one; a read returns the words at the wrap addresses and leaves the memory
      alone, a write applies its masked beats in order; afterwards the device is idle again. */
  lemma BurstRuns(d: Device, reqs: seq<Req>, b: Burst, isWrite: bool)
    requires d.enable && !d.tx.busy && d.tx == d.ntx
    requires WindowOk(b, d.mem) && Master(reqs, b, isWrite)
    ensures var inputs := Unpaused(reqs);
            && Accepted(d, inputs)
            && !Run(d, inputs).tx.busy && Run(d, inputs).tx == Run(d, inputs).ntx
            && Run(d, inputs).mem == After(d.mem, reqs, b, isWrite, b.length)
            && !Responses(d, inputs)[0].ready && !Responses(d, inputs)[0].last
            && forall i :: 1 <= i <= b.length ==> Answers(Responses(d, inputs)[i], b, isWrite, i - 1, d.mem)
  {
    hide Cycle, EvalResp, InBurst, Holds, Accepts, IdleTx, Answers;
    var inputs := Unpaused(reqs);
    KickOff(d, reqs[0], b, isWrite);
    var d' := Cycle(d, reqs[0], true);
    BurstTail(d', reqs, d'.tx, b, isWrite, 0, d.mem);
    assert inputs[0] == Input(reqs[0], true);
    assert inputs[1..] == Unpaused(reqs[1..]);
    forall i | 1 <= i <= b.length
      ensures Answers(Responses(d, inputs)[i], b, isWrite, i - 1, d.mem)
    {
      assert Responses(d, inputs)[i] == Responses(d', inputs[1..])[i - 1];
      assert Answers(Responses(d', inputs[1..])[i - 1], b, isWrite, 0 + (i - 1), d.mem);
    }
  }

  /** The same for any pattern of pauses: only the enabled cycles matter.  No assertion of the device fails, and
      the paused cycles are answered with nothing. */
  lemma PausedBurstRuns(d: Device, inputs: seq<Input>, reqs: seq<Req>, b: Burst, isWrite: bool)
    requires !d.tx.busy && d.tx == d.ntx
    requires WindowOk(b, d.mem) && Master(reqs, b, isWrite)
    requires Awake(d.enable, inputs) == Unpaused(reqs)
    ensures Accepted(d, inputs)
    ensures !Run(d, inputs).tx.busy && Run(d, inputs).tx == Run(d, inputs).ntx
    ensures Run(d, inputs).mem == After(d.mem, reqs, b, isWrite, b.length)
    ensures var awake := AwakeResponses(d.enable, inputs, Responses(d, inputs));
            && |awake| == b.length + 1 && !awake[0].ready && !awake[0].last
            && forall i :: 1 <= i <= b.length ==> Answers(awake[i], b, isWrite, i - 1, d.mem)
    ensures ReadyCycles(Responses(d, inputs)) == b.length
    ensures forall i: nat :: i < |inputs| && !(if i == 0 then d.enable else inputs[i - 1].enableNext) ==>
              !Responses(d, inputs)[i].ready && !Responses(d, inputs)[i].last
  {
    hide Cycle, EvalResp, Holds, Accepts, IdleTx, Accepted, Responses, Run, AwakeResponses;
    BurstRuns(d.(enable := true), reqs, b, isWrite);
    PausesAreAccepted(d, inputs);
    PausesStretch(d, inputs);
    var awake := AwakeResponses(d.enable, inputs, Responses(d, inputs));
    PausesAreNotReady(d, inputs);
    forall i | 0 <= i < |awake[1..]| ensures awake[1..][i].ready {
      assert Answers(awake[i + 1], b, isWrite, i + 1 - 1, d.mem);
    }
    AllReady(awake[1..]);
    forall i: nat | i < |inputs| && !(if i == 0 then d.enable else inputs[i - 1].enableNext)
      ensures !Responses(d, inputs)[i].ready && !Responses(d, inputs)[i].last
    {
      PausesAnswerNothing(d, inputs, i);
    }
  }

  // ---------------------------------------------------------------- what a write burst leaves

  /** A write burst touches no word outside its window. */
  lemma {:induction false} WrittenOutside(mem: seq<Word>, reqs: seq<Req>, b: Burst, n: nat, w: nat)
    requires WindowOk(b, mem) && n < |reqs| && (forall i :: 0 <= i < |reqs| ==> reqs[i].strobe < 16) && w < |mem|
    requires 4 * w + 4 <= b.Lower() || b.Lower() + b.Size() <= 4 * w
    ensures Written(mem, reqs, b, n)[w] == mem[w]
  {
    hide Merge, Mask;
    if n > 0 {
      WrittenOutside(mem, reqs, b, n - 1, w);
      AddressInWindow(b, n - 1);
    }
  }

  /** A byte that no beat strobes keeps its old value. */
  lemma {:induction false} WrittenByteKept(mem: seq<Word>, reqs: seq<Req>, b: Burst, n: nat, w: nat, j: nat)
    requires WindowOk(b, mem) && n < |reqs| && forall i :: 0 <= i < |reqs| ==> reqs[i].strobe < 16
    requires w < |mem| && j < 4
    requires forall i: nat :: i < n && b.Address(i) / 4 == w ==> !Enables(reqs[i + 1].strobe, j)
    ensures ByteOf(Written(mem, reqs, b, n)[w], j) == ByteOf(mem[w], j)
  {
    hide Merge, Mask, ByteOf, Enables;
    if n > 0 {
      WrittenByteKept(mem, reqs, b, n - 1, w, j);
      AddressInWindow(b, n - 1);
      StoreByte(Written(mem, reqs, b, n - 1)[b.Address(n - 1) / 4], reqs[n].data, reqs[n].strobe, j);
    }
  }

  /** A byte that some beat strobes holds, after the burst, the data of the last beat that does. */
  lemma {:induction false} WrittenByteLast(mem: seq<Word>, reqs: seq<Req>, b: Burst, n: nat, k: nat, j: nat)
    requires WindowOk(b, mem) && k < n < |reqs| && forall i :: 0 <= i < |reqs| ==> reqs[i].strobe < 16
    requires j < 4 && Enables(reqs[k + 1].strobe, j)
    requires forall i: nat :: k < i < n && b.Address(i) / 4 == b.Address(k) / 4 ==> !Enables(reqs[i + 1].strobe, j)
    ensures b.Address(k) / 4 < |mem|
    ensures ByteOf(Written(mem, reqs, b, n)[b.Address(k) / 4], j) == ByteOf(reqs[k + 1].data, j)
  {
    hide Merge, Mask, ByteOf, Enables;
    AddressInWindow(b, k);
    AddressInWindow(b, n - 1);
    StoreByte(Written(mem, reqs, b, n - 1)[b.Address(n - 1) / 4], reqs[n].data, reqs[n].strobe, j);
    if k < n - 1 { WrittenByteLast(mem, reqs, b, n - 1, k, j); }
  }

  lemma WordOfBeat(b: Burst, k: nat)
    requires b.Ok() && b.bytes == 4 && k < b.length
    ensures b.Address(k) / 4 == b.Lower() / 4 + b.Slot(k)
  {
    AlignedInWindow(b);
    FirstSlot(b);
    assert b.Size() == 4 * b.length;
    var w := b.start / b.Size();
    assert b.Lower() == 4 * (w * b.length) by { MulAssoc(4, b.length, w); assert w * (4 * b.length) == (4 * b.length) * w; }
    assert AlignDown(b.start, 4) == 4 * (b.start / 4);
  }

  /** After a write burst of whole words, each beat's word reads back as that beat's data. */
  lemma {:induction false} WrittenReadsBack(mem: seq<Word>, reqs: seq<Req>, b: Burst, n: nat, k: nat)
    requires WindowOk(b, mem) && b.bytes == 4 && |reqs| == b.length + 1 && k < n <= b.length
    requires forall i :: 0 <= i < |reqs| ==> reqs[i].strobe == 15
    ensures b.Address(k) / 4 < |mem|
    ensures Written(mem, reqs, b, n)[b.Address(k) / 4] == reqs[k + 1].data
  {
    AddressInWindow(b, k);
    AddressInWindow(b, n - 1);
    var was := Written(mem, reqs, b, n - 1);
    FullMask(was[b.Address(n - 1) / 4], reqs[n].data);
    hide Merge;
    if k < n - 1 {
      WrittenReadsBack(mem, reqs, b, n - 1, k);
      WordOfBeat(b, k);
      WordOfBeat(b, n - 1);
      SlotOf(b, k);
      SlotOf(b, n - 1);
    }
  }
}
