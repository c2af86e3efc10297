/** The transaction and the device as the program keeps them: objects updated in place every cycle. */
module CBusDevice {
  import opened Words
  import opened Memory
  import opened Axi
  import opened CBusSpec

  class AXITransaction {
    var busy: bool
    var isWrite: bool
    var aligned: bool
    var n: nat
    var addr: nat
    var start: nat
    var bytes: nat
    var length: nat
    var alignedAddr: nat
    var lower: nat
    var upper: nat

    function State(): Tx
      reads this
    {
      Tx(busy, isWrite, aligned, n, addr, start, bytes, length, alignedAddr, lower, upper)
    }

    constructor ()
      ensures State() == IdleTx() && !busy
    {
      busy, isWrite, aligned := false, false, false;
      n, addr, start, bytes, length, alignedAddr, lower, upper := 0, 0, 0, 0, 0, 0, 0, 0;
    }

    /** Every field zero. */
    method Reset()
      modifies this
      ensures State() == IdleTx() && !busy
    {
      busy, isWrite, aligned := false, false, false;
      n, addr, start, bytes, length, alignedAddr, lower, upper := 0, 0, 0, 0, 0, 0, 0, 0;
    }

    /** Structure assignment. */
    method CopyFrom(other: AXITransaction)
      modifies this
      ensures State() == old(other.State())
    {
      busy, isWrite, aligned := other.busy, other.isWrite, other.aligned;
      n, addr, start, bytes := other.n, other.addr, other.start, other.bytes;
      length, alignedAddr, lower, upper := other.length, other.alignedAddr, other.lower, other.upper;
    }

    method Start(address: nat, size: nat, len: nat)
      requires size < 4 && len < 256
      modifies this
      ensures State() == Init(old(State()), address, size, len)
    {
      start := address;
      bytes := SizeBytes(size);
      length := len + 1;
      MulPositive(bytes, length);
      var dtsize := bytes * length;
      alignedAddr := AlignDown(start, bytes);
      lower := AlignDown(start, dtsize);
      upper := Wrap32(lower + dtsize);
      aligned := false;
      n := 1;
      addr := start;
    }

    /** The handshake at the clock edge. */
    method Step()
      modifies this
      ensures State() == Next(old(State()))
    {
      n := Wrap32(n + 1);
      if aligned {
        addr := Wrap32(addr + bytes);
      } else {
        addr := Wrap32(alignedAddr + bytes);
        aligned := true;
      }
      if addr >= upper {
        addr := lower;
      }
    }

    method IsLast() returns (last: bool)
      ensures last == Last(State())
    {
      last := n == length;
    }
  }

  class CBusDevice {
    const mem: BlockMemory
    const tx: AXITransaction
    const ntx: AXITransaction
    var enable: bool
    var strobe: nat
    var data: Word

    ghost predicate Valid()
      reads mem
    {
      mem.Valid() && mem.offset == 0 && tx != ntx
    }

    function State(): Device
      reads this, mem, tx, ntx
    {
      Device(enable, tx.State(), ntx.State(), strobe, data, mem.mem)
    }

    constructor (memory: BlockMemory)
      requires memory.Valid() && memory.offset == 0
      ensures Valid() && mem == memory && fresh(tx) && fresh(ntx)
      ensures State() == Device(true, IdleTx(), IdleTx(), 0, 0, memory.mem)
    {
      mem := memory;
      tx := new AXITransaction();
      ntx := new AXITransaction();
      enable, strobe, data := true, 0, 0;
    }

    /** `enable` keeps the value the last clock edge gave it. */
    method Reset()
      requires Valid()
      modifies this, mem`mem, tx, ntx
      ensures Valid() && State() == Device(old(enable), IdleTx(), IdleTx(), 0, 0, mem.saved) && !tx.busy && !ntx.busy
    {
      mem.Reset();
      tx.Reset();
      ntx.Reset();
      strobe, data := 0, 0;
    }

    method ReadResponse() returns (resp: Resp)
      requires Valid()
      requires enable && tx.busy ==> tx.addr < 4 * |mem.mem|
      ensures resp == EvalResp(State())
      ensures resp.ready == (enable && tx.busy)
      ensures resp.last == (enable && tx.busy && tx.n == tx.length)
      ensures resp.data == if enable && tx.busy && !tx.isWrite then mem.mem[tx.addr / 4] else 0
    {
      if !enable {
        return NO_RESP;
      }
      if tx.busy {
        var word: Word := 0;
        if !tx.isWrite {
          word := mem.Load(tx.addr);
        }
        var last := tx.IsLast();
        return Resp(true, last, word);
      } else {
        return NO_RESP;
      }
    }

    method TakeRequest(req: Req)
      requires Valid() && Accepts(State(), req)
      modifies this`strobe, this`data, ntx
      ensures Valid() && State() == old(EvalReq(State(), req))
    {
      if !enable {
        return;
      }
      if tx.busy {
        strobe, data := req.strobe, req.data;
        var last := tx.IsLast();
        if last {
          ntx.Reset();
        } else {
          ntx.Step();
        }
      } else if req.valid {
        ntx.Start(req.addr, req.size, req.len);
        ntx.busy := true;
        ntx.isWrite := req.isWrite;
      }
    }

    /** The clock edge; `enableNext` is the coin flip that decides about a pause. */
    method ClockEdge(enableNext: bool)
      requires Valid()
      requires enable && tx.busy ==> tx.addr < 4 * |mem.mem| && strobe < 16
      modifies this, mem`mem, tx
      ensures Valid() && State() == old(Sync(State(), enableNext))
    {
      hide StoreWord;
      if enable {
        if tx.busy && tx.isWrite {
          mem.Store(tx.addr, data, STROBE_TO_MASK[strobe]);
          strobe, data := 0, 0;
        }
        tx.CopyFrom(ntx);
      }
      enable := enableNext;
    }

    /** One clock cycle as the test bench drives it: response first, so that it cannot depend on the request. */
    method Tick(req: Req, enableNext: bool) returns (resp: Resp)
      requires Valid() && Accepts(State(), req)
      modifies this, mem`mem, tx, ntx
      ensures Valid() && resp == old(EvalResp(State()))
      ensures State() == old(Cycle(State(), req, enableNext))
    {
      resp := ReadResponse();
      TakeRequest(req);
      ClockEdge(enableNext);
    }
  }
}
