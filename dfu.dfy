/** The minimal DFU request layer (pyfu/dfu.py): DFU_GETSTATUS read back as a
    state, DFU_CLRSTATUS, and DFU_DNLOAD followed by polling until the device
    is idle again (USB DFU 1.1, sections 6.1.1 to 6.1.3). Every operation is
    a function from the link state before to its outcome and the link state
    after, and a method on `Usb.Device` that is proved to follow it. */
module Dfu {
  import opened Base
  import opened Usb

  /** The default `timeout_ms` of every request. */
  const DefaultTimeout: nat := 5000

  const StateIdle: Byte := 0x02           // dfuIDLE
  const StateDownloadIdle: Byte := 0x05   // dfuDNLOAD-IDLE
  const StateError: Byte := 0x0A          // dfuERROR

  const DeviceError: string := "Device error"

  // ---------------------------------------------------------------------------
  // The three requests

  /** DFU_GETSTATUS: class request 3, device-to-host, reading 6 bytes. */
  function GetStatusRequest(intf: int, timeout: nat): Transfer
  {
    Transfer(0xA1, 3, 0, intf, ReadLength(6), timeout)
  }

  /** DFU_CLRSTATUS: class request 4, host-to-device, no data. */
  function ClearStatusRequest(intf: int, timeout: nat): Transfer
  {
    Transfer(0x21, 4, 0, intf, NoData, timeout)
  }

  /** DFU_DNLOAD: class request 1 with the transaction counter in wValue; a
      missing block is the zero-length download that ends a transfer. */
  function DownloadRequest(intf: int, transaction: int, data: Option<seq<Byte>>, timeout: nat): Transfer
  {
    Transfer(0x21, 1, transaction, intf, if data.Some? then Data(data.value) else NoData, timeout)
  }

  // ---------------------------------------------------------------------------
  // get_state, clear_status, download

  /** `get_state`: the state is byte 4 of the GETSTATUS reply; dfuERROR
      raises. A reply too short to have a byte 4 raises IndexError. */
  function GetStateSpec(l: Link, intf: int, timeout: nat): (r: (Result<Byte>, Link))
    ensures r.1.trace == l.trace + [Control(GetStatusRequest(intf, timeout))]
    ensures Extends(l, r.1)
    ensures r.0.Ok? ==> |r.1.script| < |l.script| && r.0.value != StateError
    ensures l.script == [] ==> r.0 == Err(UsbFailure(TimedOut))
    ensures l.script != [] ==> r.1.script == l.script[1..]
    ensures l.script != [] && l.script[0].Failure? ==> r.0 == Err(UsbFailure(l.script[0].text))
    ensures r.0.Ok? <==> l.script != [] && l.script[0].Answer? && |l.script[0].bytes| >= 5 && l.script[0].bytes[4] != StateError
    ensures r.0.Ok? ==> r.0.value == l.script[0].bytes[4]
    ensures r.0 == Err(IndexError) <==> l.script != [] && l.script[0].Answer? && |l.script[0].bytes| < 5
    ensures r.0 == Err(RuntimeError(DeviceError)) <==>
      l.script != [] && l.script[0].Answer? && |l.script[0].bytes| >= 5 && l.script[0].bytes[4] == StateError
  {
    var x := Transact(l, GetStatusRequest(intf, timeout));
    if x.0.Err? then (Err(x.0.error), x.1)
    else if |x.0.value| < 5 then (Err(IndexError), x.1)
    else if x.0.value[4] == StateError then (Err(RuntimeError(DeviceError)), x.1)
    else (Ok(x.0.value[4]), x.1)
  }

  /** The `while get_state(...) not in [dfuIDLE, dfuDNLOAD-IDLE]` loop. */
  function PollSpec(l: Link, intf: int, timeout: nat): (r: (Outcome, Link))
    ensures Extends(l, r.1)
    decreases |l.script|
  {
    var x := GetStateSpec(l, intf, timeout);
    if x.0.Err? then (Fail(x.0.error), x.1)
    else if x.0.value == StateIdle || x.0.value == StateDownloadIdle then (Pass, x.1)
    else PollSpec(x.1, intf, timeout)
  }

  /** `download`: one DNLOAD, then poll until idle. */
  function DownloadSpec(l: Link, intf: int, transaction: int, data: Option<seq<Byte>>, timeout: nat): (r: (Outcome, Link))
    ensures Extends(l, r.1)
    ensures r.0.Pass? ==> |r.1.script| < |l.script|
  {
    var x := Transact(l, DownloadRequest(intf, transaction, data, timeout));
    if x.0.Err? then (Fail(x.0.error), x.1)
    else PollSpec(x.1, intf, timeout)
  }

  /** `clear_status`: a single CLRSTATUS request; it does not wait for the
      device to become idle. */
  function ClearStatusSpec(l: Link, intf: int, timeout: nat): (r: (Outcome, Link))
    ensures Extends(l, r.1)
  {
    var x := Transact(l, ClearStatusRequest(intf, timeout));
    (if x.0.Err? then Fail(x.0.error) else Pass, x.1)
  }

  // ---------------------------------------------------------------------------
  // Polling in closed form

  /** A reply that keeps the poll loop going: a state other than dfuIDLE,
      dfuDNLOAD-IDLE and dfuERROR. */
  predicate Busy(reply: Reply)
  {
    reply.Answer? && |reply.bytes| >= 5 && reply.bytes[4] != StateIdle
    && reply.bytes[4] != StateDownloadIdle && reply.bytes[4] != StateError
  }

  /** How many replies at the head of `script` are busy. */
  function BusyRun(script: seq<Reply>): nat
  {
    if script != [] && Busy(script[0]) then 1 + BusyRun(script[1..]) else 0
  }

  lemma {:induction false} BusyRunSpec(script: seq<Reply>)
    ensures BusyRun(script) <= |script|
    ensures forall i :: 0 <= i < BusyRun(script) ==> Busy(script[i])
    ensures BusyRun(script) < |script| ==> !Busy(script[BusyRun(script)])
  {
    if script != [] && Busy(script[0]) {
      BusyRunSpec(script[1..]);
      forall i | 0 < i < BusyRun(script)
        ensures Busy(script[i])
      {
        assert script[i] == script[1..][i - 1];
      }
    }
  }

  /** `n` GETSTATUS requests. */
  function Polls(intf: int, timeout: nat, n: nat): seq<Event>
  {
    if n == 0 then [] else [Control(GetStatusRequest(intf, timeout))] + Polls(intf, timeout, n - 1)
  }

  /** How the poll loop ends on a reply that is not busy. */
  function StateOutcome(reply: Reply): Outcome
  {
    match reply
    case Failure(text) => Fail(UsbFailure(text))
    case Answer(bytes) =>
      if |bytes| < 5 then Fail(IndexError)
      else if bytes[4] == StateError then Fail(RuntimeError(DeviceError))
      else Pass
  }

  /** The poll loop reads every busy reply and the first one after them: it
      ends on that reply (or times out when the script runs out), having
      issued one GETSTATUS per reply read and nothing else. */
  function PollEnd(l: Link, intf: int, timeout: nat, k: nat): (Outcome, Link)
    requires k <= |l.script|
  {
    if k == |l.script| then (Fail(UsbFailure(TimedOut)), Link([], l.trace + Polls(intf, timeout, k + 1)))
    else (StateOutcome(l.script[k]), Link(l.script[k + 1..], l.trace + Polls(intf, timeout, k + 1)))
  }

  lemma {:induction false} PollClosedForm(l: Link, intf: int, timeout: nat)
    ensures BusyRun(l.script) <= |l.script|
    ensures PollSpec(l, intf, timeout) == PollEnd(l, intf, timeout, BusyRun(l.script))
    decreases |l.script|, 1
  {
    BusyRunSpec(l.script);
    var get := Control(GetStatusRequest(intf, timeout));
    assert Polls(intf, timeout, 1) == [get];
    var x := GetStateSpec(l, intf, timeout);
    if l.script == [] {
      assert x.1 == Link([], l.trace + [get]) && x.0.Err?;
    } else if Busy(l.script[0]) {
      PollClosedFormBusy(l, intf, timeout);
    } else {
      assert BusyRun(l.script) == 0;
      assert x.1 == Link(l.script[1..], l.trace + [get]);
      assert PollSpec(l, intf, timeout).0 == StateOutcome(l.script[0]);
    }
  }

  /** The same, when the first reply is busy: poll once more. */
  lemma {:induction false} PollClosedFormBusy(l: Link, intf: int, timeout: nat)
    requires l.script != [] && Busy(l.script[0])
    ensures BusyRun(l.script) <= |l.script|
    ensures PollSpec(l, intf, timeout) == PollEnd(l, intf, timeout, BusyRun(l.script))
    decreases |l.script|, 0
  {
    var l1 := PollBusyStep(l, intf, timeout);
    PollClosedForm(l1, intf, timeout);
    assert BusyRun(l.script) == BusyRun(l1.script) + 1;
    PollEndShift(l, l1, intf, timeout, BusyRun(l.script));
  }

  /** A busy first reply: one GETSTATUS, and the loop starts again on the rest. */
  lemma PollBusyStep(l: Link, intf: int, timeout: nat) returns (l1: Link)
    requires l.script != [] && Busy(l.script[0])
    ensures l1 == Link(l.script[1..], l.trace + [Control(GetStatusRequest(intf, timeout))])
    ensures PollSpec(l, intf, timeout) == PollSpec(l1, intf, timeout)
  {
    l1 := GetStateSpec(l, intf, timeout).1;
  }

  /** Ending `k` replies into `l` is ending `k - 1` replies after its first. */
  lemma PollEndShift(l: Link, l1: Link, intf: int, timeout: nat, k: nat)
    requires 0 < k <= |l.script| && l1 == Link(l.script[1..], l.trace + [Control(GetStatusRequest(intf, timeout))])
    ensures PollEnd(l1, intf, timeout, k - 1) == PollEnd(l, intf, timeout, k)
  {
    var get := Control(GetStatusRequest(intf, timeout));
    assert l1.trace + Polls(intf, timeout, k) == l.trace + Polls(intf, timeout, k + 1) by {
      assert Polls(intf, timeout, k + 1) == [get] + Polls(intf, timeout, k);
    }
    if k < |l.script| {
      assert l1.script[k - 1] == l.script[k];
      assert l1.script[k..] == l.script[k + 1..];
    }
  }

  /** `download` returns exactly when, after a run of busy states, the device
      reports dfuIDLE or dfuDNLOAD-IDLE; dfuERROR raises "Device error" and
      stops the polling at that reply. */
  lemma PollPass(l: Link, intf: int, timeout: nat)
    ensures var k := BusyRun(l.script);
      PollSpec(l, intf, timeout).0 == Pass <==>
        (k < |l.script| && l.script[k].Answer? && |l.script[k].bytes| >= 5
         && (l.script[k].bytes[4] == StateIdle || l.script[k].bytes[4] == StateDownloadIdle))
    ensures var k := BusyRun(l.script);
      k < |l.script| && l.script[k].Answer? && |l.script[k].bytes| >= 5 && l.script[k].bytes[4] == StateError ==>
        PollSpec(l, intf, timeout) == (Fail(RuntimeError(DeviceError)), Link(l.script[k + 1..], l.trace + Polls(intf, timeout, k + 1)))
  {
    PollClosedForm(l, intf, timeout);
    BusyRunSpec(l.script);
  }

  /** `download` issues exactly one DNLOAD, before anything else, and after it
      only GETSTATUS requests. */
  lemma DownloadTrace(l: Link, intf: int, transaction: int, data: Option<seq<Byte>>, timeout: nat)
    ensures var t := DownloadSpec(l, intf, transaction, data, timeout).1.trace;
      |t| > |l.trace|
      && t[..|l.trace| + 1] == l.trace + [Control(DownloadRequest(intf, transaction, data, timeout))]
      && forall i :: |l.trace| < i < |t| ==> t[i] == Control(GetStatusRequest(intf, timeout))
  {
    var x := Transact(l, DownloadRequest(intf, transaction, data, timeout));
    if x.0.Ok? {
      PollClosedForm(x.1, intf, timeout);
      var n := BusyRun(x.1.script) + 1;
      PollsAll(intf, timeout, n);
      var t := DownloadSpec(l, intf, transaction, data, timeout).1.trace;
      assert t == x.1.trace + Polls(intf, timeout, n);
      forall i | |l.trace| < i < |t|
        ensures t[i] == Control(GetStatusRequest(intf, timeout))
      {
        assert t[i] == Polls(intf, timeout, n)[i - |x.1.trace|];
      }
    }
  }

  lemma {:induction false} PollsAll(intf: int, timeout: nat, n: nat)
    ensures |Polls(intf, timeout, n)| == n
    ensures forall i :: 0 <= i < n ==> Polls(intf, timeout, n)[i] == Control(GetStatusRequest(intf, timeout))
  {
    if n > 0 {
      PollsAll(intf, timeout, n - 1);
    }
  }

  /** The DNLOAD requests among `events`, in order. */
  function Dnloads(events: seq<Event>): seq<Transfer>
  {
    if events == [] then [] else DnloadOf(events[0]) + Dnloads(events[1..])
  }

  function DnloadOf(e: Event): seq<Transfer>
  {
    if e.Control? && e.transfer.request == 1 then [e.transfer] else []
  }

  lemma {:induction false} DnloadsAppend(a: seq<Event>, b: seq<Event>)
    ensures Dnloads(a + b) == Dnloads(a) + Dnloads(b)
  {
    if a == [] {
      assert a + b == b;
    } else {
      var ab := a + b;
      assert ab[0] == a[0] && ab[1..] == a[1..] + b;
      DnloadsAppend(a[1..], b);
      calc {
        Dnloads(ab);
        DnloadOf(a[0]) + Dnloads(a[1..] + b);
        DnloadOf(a[0]) + (Dnloads(a[1..]) + Dnloads(b));
        Dnloads(a) + Dnloads(b);
      }
    }
  }

  lemma {:induction false} DnloadsPolls(intf: int, timeout: nat, n: nat)
    ensures Dnloads(Polls(intf, timeout, n)) == []
  {
    if n > 0 {
      DnloadsPolls(intf, timeout, n - 1);
    }
  }

  /** Whatever its outcome, `download` adds exactly one DNLOAD request, the
      one carrying its block and transaction number. */
  lemma DownloadDnloads(l: Link, intf: int, transaction: int, data: Option<seq<Byte>>, timeout: nat)
    ensures Dnloads(DownloadSpec(l, intf, transaction, data, timeout).1.trace)
      == Dnloads(l.trace) + [DownloadRequest(intf, transaction, data, timeout)]
  {
    var rq := DownloadRequest(intf, transaction, data, timeout);
    var x := Transact(l, rq);
    var r := DownloadSpec(l, intf, transaction, data, timeout);
    assert x.1.trace == l.trace + [Control(rq)];
    assert Dnloads(x.1.trace) == Dnloads(l.trace) + [rq] by {
      DnloadsAppend(l.trace, [Control(rq)]);
      assert Dnloads([Control(rq)]) == [rq] + Dnloads([]);
    }
    if x.0.Ok? {
      var n := BusyRun(x.1.script) + 1;
      assert r.1.trace == x.1.trace + Polls(intf, timeout, n) by {
        PollClosedForm(x.1, intf, timeout);
      }
      DnloadsAppend(x.1.trace, Polls(intf, timeout, n));
      DnloadsPolls(intf, timeout, n);
    } else {
      assert r.1 == x.1;
    }
  }

  // ---------------------------------------------------------------------------
  // The code, on a device

  /** `get_state`. */
  method GetState(dev: Device, intf: int, timeout: nat) returns (r: Result<Byte>)
    modifies dev
    ensures (r, dev.State()) == GetStateSpec(old(dev.State()), intf, timeout)
  {
    var status := dev.ControlTransfer(GetStatusRequest(intf, timeout));
    if status.Err? {
      return Err(status.error);
    }
    if |status.value| < 5 {
      return Err(IndexError);
    }
    var state := status.value[4];
    if state == StateError {
      return Err(RuntimeError(DeviceError));
    }
    return Ok(state);
  }

  /** `clear_status`. */
  method ClearStatus(dev: Device, intf: int, timeout: nat) returns (o: Outcome)
    modifies dev
    ensures (o, dev.State()) == ClearStatusSpec(old(dev.State()), intf, timeout)
  {
    var r := dev.ControlTransfer(ClearStatusRequest(intf, timeout));
    o := if r.Err? then Fail(r.error) else Pass;
  }

  /** `download`: send the block, then spin on `get_state` until the device
      is idle; an error from either propagates. */
  method Download(dev: Device, intf: int, transaction: int, data: Option<seq<Byte>>, timeout: nat) returns (o: Outcome)
    modifies dev
    ensures (o, dev.State()) == DownloadSpec(old(dev.State()), intf, transaction, data, timeout)
  {
    var sent := dev.ControlTransfer(DownloadRequest(intf, transaction, data, timeout));
    if sent.Err? {
      return Fail(sent.error);
    }
    while true
      invariant PollSpec(dev.State(), intf, timeout) == DownloadSpec(old(dev.State()), intf, transaction, data, timeout)
      decreases |dev.script|
    {
      var state := GetState(dev, intf, timeout);
      if state.Err? {
        return Fail(state.error);
      }
      if state.value == StateIdle || state.value == StateDownloadIdle {
        return Pass;
      }
    }
  }
}
