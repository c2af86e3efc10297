/** The memory device on the cache bus, one clock cycle at a time, and the bursts it serves. */
module CBusSpec {
  import opened Words
  import opened Memory
  import opened Axi

  datatype Req = Req(valid: bool, isWrite: bool, size: nat, addr: nat, strobe: nat, data: Word, len: nat)

  datatype Resp = Resp(ready: bool, last: bool, data: Word)

  const NO_RESP := Resp(false, false, 0)

  /** `tx` is the transaction, `ntx` its state after the next clock edge. */
  datatype Device = Device(enable: bool, tx: Tx, ntx: Tx, strobe: nat, data: Word, mem: seq<Word>)

  // ---------------------------------------------------------------- one cycle

  /** What the program asserts about the master when the device is enabled: it holds its request during a
      transaction, and stays inside the memory. */
  ghost predicate Accepts(d: Device, req: Req) {
    d.enable ==>
      && req.strobe < 16
      && (req.valid ==> req.size < 4 && req.len < 256 && req.addr < TWO_32)
      && (d.tx.busy ==>
            && req.valid && req.isWrite == d.tx.isWrite && SizeBytes(req.size) == d.tx.bytes
            && req.addr == d.tx.start && req.len + 1 == d.tx.length
            && d.tx.addr < 4 * |d.mem|)
  }

  function EvalResp(d: Device): Resp
    requires d.enable && d.tx.busy ==> d.tx.addr < 4 * |d.mem|
  {
    if d.enable && d.tx.busy then
      Resp(true, Last(d.tx), if d.tx.isWrite then 0 else d.mem[d.tx.addr / 4])
    else NO_RESP
  }

  ghost function EvalReq(d: Device, req: Req): Device
    requires Accepts(d, req)
  {
    if !d.enable then d
    else if d.tx.busy then
      d.(strobe := req.strobe, data := req.data, ntx := if Last(d.tx) then IdleTx() else Next(d.ntx))
    else if req.valid then
      d.(ntx := Init(d.ntx, req.addr, req.size, req.len).(busy := true, isWrite := req.isWrite))
    else d
  }

  function Sync(d: Device, enableNext: bool): Device
    requires d.enable && d.tx.busy ==> d.tx.addr < 4 * |d.mem| && d.strobe < 16
  {
    if !d.enable then d.(enable := enableNext)
    else if d.tx.busy && d.tx.isWrite then
      d.(mem := StoreWord(d.mem, d.tx.addr / 4, d.data, Mask(d.strobe)), strobe := 0, data := 0,
         tx := d.ntx, enable := enableNext)
    else d.(tx := d.ntx, enable := enableNext)
  }

  ghost function Cycle(d: Device, req: Req, enableNext: bool): Device
    requires Accepts(d, req)
  {
    Sync(EvalReq(d, req), enableNext)
  }

  /** The clock edge leaves the two copies of the transaction equal. */
  lemma CycleSettles(d: Device, req: Req, enableNext: bool)
    requires Accepts(d, req) && d.tx == d.ntx
    ensures Cycle(d, req, enableNext).tx == Cycle(d, req, enableNext).ntx
    ensures Cycle(d, req, enableNext).enable == enableNext
    ensures !d.enable ==> Cycle(d, req, enableNext) == d.(enable := enableNext)
    ensures !d.enable || !d.tx.busy ==> !EvalResp(d).ready && !EvalResp(d).last && EvalResp(d).data == 0
  {}

  /** An idle device that is asked for nothing stays as it is. */
  lemma IdleStays(d: Device, req: Req, enableNext: bool)
    requires Accepts(d, req) && d.tx == d.ntx && !d.tx.busy && !req.valid
    ensures Cycle(d, req, enableNext) == d.(enable := enableNext)
  {}

  // ---------------------------------------------------------------- runs with pauses

  /** The request of one cycle, and whether the device is enabled in the next one. */
  datatype Input = Input(req: Req, enableNext: bool)

  ghost predicate Accepted(d: Device, inputs: seq<Input>)
    decreases |inputs|
  {
    inputs == [] ||
    (Accepts(d, inputs[0].req) && Accepted(Cycle(d, inputs[0].req, inputs[0].enableNext), inputs[1..]))
  }

  ghost function Run(d: Device, inputs: seq<Input>): Device
    requires Accepted(d, inputs)
    decreases |inputs|
  {
    if inputs == [] then d else Run(Cycle(d, inputs[0].req, inputs[0].enableNext), inputs[1..])
  }

  ghost function Responses(d: Device, inputs: seq<Input>): (r: seq<Resp>)
    requires Accepted(d, inputs)
    ensures |r| == |inputs|
    decreases |inputs|
  {
    if inputs == [] then [] else
    [EvalResp(d)] + Responses(Cycle(d, inputs[0].req, inputs[0].enableNext), inputs[1..])
  }

  /** The inputs of the cycles in which the device is enabled, with no pause between them. */
  function Awake(enable: bool, inputs: seq<Input>): (r: seq<Input>)
    ensures forall i :: 0 <= i < |r| ==> r[i].enableNext
    decreases |inputs|
  {
    if inputs == [] then []
    else (if enable then [Input(inputs[0].req, true)] else []) + Awake(inputs[0].enableNext, inputs[1..])
  }

  /** The responses of the enabled cycles. */
  function AwakeResponses(enable: bool, inputs: seq<Input>, responses: seq<Resp>): seq<Resp>
    requires |responses| == |inputs|
    decreases |inputs|
  {
    if inputs == [] then []
    else (if enable then [responses[0]] else []) + AwakeResponses(inputs[0].enableNext, inputs[1..], responses[1..])
  }

  /** No assertion about the master fails in a run with pauses exactly when none fails in the run without them. */
  lemma {:induction false} PausesAreAccepted(d: Device, inputs: seq<Input>)
    requires d.tx == d.ntx
    ensures Accepted(d, inputs) <==> Accepted(d.(enable := true), Awake(d.enable, inputs))
    decreases |inputs|
  {
    hide EvalReq, Sync, EvalResp;
    if inputs != [] {
      var req, on := inputs[0].req, inputs[0].enableNext;
      if d.enable {
        var awake := Awake(true, inputs);
        assert awake[0] == Input(req, true) && awake[1..] == Awake(on, inputs[1..]);
        assert d.(enable := true) == d;
        if Accepts(d, req) {
          CycleSettles(d, req, on);
          EnabledCycle(d, req, on);
          PausesAreAccepted(Cycle(d, req, on), inputs[1..]);
        }
      } else {
        CycleSettles(d, req, on);
        PausesAreAccepted(Cycle(d, req, on), inputs[1..]);
        assert Awake(false, inputs) == Awake(on, inputs[1..]);
        assert Cycle(d, req, on).(enable := true) == d.(enable := true);
      }
    }
  }

  /** A paused cycle is answered with nothing: neither ready nor last. */
  lemma {:induction false} PausesAnswerNothing(d: Device, inputs: seq<Input>, i: nat)
    requires d.tx == d.ntx && Accepted(d, inputs) && i < |inputs|
    requires !(if i == 0 then d.enable else inputs[i - 1].enableNext)
    ensures !Responses(d, inputs)[i].ready && !Responses(d, inputs)[i].last
    decreases |inputs|
  {
    hide Accepts, EvalReq, Sync, EvalResp;
    CycleSettles(d, inputs[0].req, inputs[0].enableNext);
    if i > 0 {
      var req, on := inputs[0].req, inputs[0].enableNext;
      var next := Cycle(d, req, on);
      PausesAnswerNothing(next, inputs[1..], i - 1);
      assert Responses(d, inputs)[i] == Responses(next, inputs[1..])[i - 1];
    }
  }

  function ReadyCycles(responses: seq<Resp>): nat {
    if responses == [] then 0 else (if responses[0].ready then 1 else 0) + ReadyCycles(responses[1..])
  }

  /** No paused cycle counts as ready. */
  lemma {:induction false} PausesAreNotReady(d: Device, inputs: seq<Input>)
    requires d.tx == d.ntx && Accepted(d, inputs)
    ensures ReadyCycles(Responses(d, inputs)) == ReadyCycles(AwakeResponses(d.enable, inputs, Responses(d, inputs)))
    decreases |inputs|
  {
    hide EvalReq, Sync, EvalResp;
    if inputs != [] {
      var req, on := inputs[0].req, inputs[0].enableNext;
      var next := Cycle(d, req, on);
      CycleSettles(d, req, on);
      PausesAreNotReady(next, inputs[1..]);
      var rest := AwakeResponses(on, inputs[1..], Responses(next, inputs[1..]));
      assert Responses(d, inputs) == [EvalResp(d)] + Responses(next, inputs[1..]);
      assert Responses(d, inputs)[1..] == Responses(next, inputs[1..]);
      assert ([EvalResp(d)] + rest)[1..] == rest;
      assert [] + rest == rest;
    }
  }

  lemma {:induction false} AllReady(responses: seq<Resp>)
    requires forall i :: 0 <= i < |responses| ==> responses[i].ready
    ensures ReadyCycles(responses) == |responses|
  {
    if responses != [] { AllReady(responses[1..]); }
  }

  /** Deleting the paused cycles changes neither the responses nor the state: a run with pauses is the run
      without them, stretched. */
  lemma {:induction false} PausesStretch(d: Device, inputs: seq<Input>)
    requires d.tx == d.ntx && Accepted(d, inputs)
    ensures var e := d.(enable := true);
            && Accepted(e, Awake(d.enable, inputs))
            && Run(e, Awake(d.enable, inputs)) == Run(d, inputs).(enable := true)
            && Responses(e, Awake(d.enable, inputs)) == AwakeResponses(d.enable, inputs, Responses(d, inputs))
    ensures Run(d, inputs).tx == Run(d, inputs).ntx
    decreases |inputs|
  {
    hide Accepts, EvalReq, Sync, EvalResp;
    if inputs != [] {
      var req, on := inputs[0].req, inputs[0].enableNext;
      var next := Cycle(d, req, on);
      CycleSettles(d, req, on);
      PausesStretch(next, inputs[1..]);
      var e := d.(enable := true);
      if d.enable {
        var awake := Awake(true, inputs);
        assert awake == [Input(req, true)] + Awake(on, inputs[1..]);
        assert awake[1..] == Awake(on, inputs[1..]);
        assert e == d;
        EnabledCycle(d, req, on);
        assert awake[0] == Input(req, true);
        assert Responses(d, inputs)[1..] == Responses(next, inputs[1..]);
      } else {
        assert Awake(false, inputs) == Awake(on, inputs[1..]);
        assert next.(enable := true) == e;
        assert Responses(d, inputs)[1..] == Responses(next, inputs[1..]);
      }
    }
  }

  lemma EnabledCycle(d: Device, req: Req, on: bool)
    requires Accepts(d, req) && d.enable
    ensures Cycle(d, req, true) == Cycle(d, req, on).(enable := true)
  {}
}
