/** The low-level DFU commands of pfu_util (pfu_util/protocol.py). Every
    request goes to interface 0; status reads wait up to 20 s, everything else
    5 s. `_set_address` and `mass_erase` check that the device goes through
    dfuDNLOAD-BUSY to dfuDNLOAD-IDLE; `clear_status` repeats CLRSTATUS until
    the device is idle; `exit_dfu` ignores how the last status read ends. */
module Protocol {
  import opened Base
  import opened Usb
  import Dfu
  import Dfuse

  const Interface: int := 0
  const Timeout: nat := 5000
  const StatusTimeout: nat := 20000

  const StateIdle: Byte := 0x02
  const StateDownloadBusy: Byte := 0x04
  const StateDownloadIdle: Byte := 0x05
  const StateManifest: Byte := 0x07
  const StateError: Byte := 0x0A

  const SetAddressFailed: string := "Set address failed"
  const MassEraseFailed: string := "Mass erase failed"

  function GetStatusRequest(): Transfer { Dfu.GetStatusRequest(Interface, StatusTimeout) }
  function ClearStatusRequest(): Transfer { Dfu.ClearStatusRequest(Interface, Timeout) }
  function DownloadRequest(data: Option<seq<Byte>>): Transfer { Dfu.DownloadRequest(Interface, 0, data, Timeout) }

  /** `_get_status`: byte 4 of the GETSTATUS reply. Looking its name up in the
      table of the eleven DFU states raises IndexError beyond dfuERROR (the
      lookup happens for the debug log whether or not it is printed). */
  function GetStatusSpec(l: Link): (r: (Result<Byte>, Link))
    ensures r.1.trace == l.trace + [Control(GetStatusRequest())]
    ensures |r.1.script| <= |l.script|
    ensures r.0.Ok? ==> |r.1.script| < |l.script| && r.0.value <= StateError
    ensures l.script == [] ==> r.0 == Err(UsbFailure(TimedOut))
    ensures l.script != [] ==> r.1.script == l.script[1..]
    ensures l.script != [] && l.script[0].Failure? ==> r.0 == Err(UsbFailure(l.script[0].text))
    ensures r.0.Ok? <==> l.script != [] && l.script[0].Answer? && |l.script[0].bytes| >= 5 && l.script[0].bytes[4] <= StateError
    ensures r.0.Ok? ==> r.0.value == l.script[0].bytes[4]
    ensures r.0 == Err(IndexError) <==>
      l.script != [] && l.script[0].Answer? && (|l.script[0].bytes| < 5 || l.script[0].bytes[4] > StateError)
  {
    var x := Transact(l, GetStatusRequest());
    if x.0.Err? then (Err(x.0.error), x.1)
    else if |x.0.value| < 5 || x.0.value[4] > StateError then (Err(IndexError), x.1)
    else (Ok(x.0.value[4]), x.1)
  }

  /** A reply `_get_status` reads as `state`. */
  predicate Reads(reply: Reply, state: Byte)
  {
    reply.Answer? && |reply.bytes| >= 5 && reply.bytes[4] == state
  }

  /** The shared shape of `_set_address` and `mass_erase`: one DNLOAD, then
      the next status must be dfuDNLOAD-BUSY and the one after it
      dfuDNLOAD-IDLE, else RuntimeError(`failure`). */
  function CheckedDownloadSpec(l: Link, data: seq<Byte>, failure: string): (Outcome, Link)
  {
    var d := Transact(l, DownloadRequest(Some(data)));
    if d.0.Err? then (Fail(d.0.error), d.1)
    else
      var s1 := GetStatusSpec(d.1);
      if s1.0.Err? then (Fail(s1.0.error), s1.1)
      else if s1.0.value != StateDownloadBusy then (Fail(RuntimeError(failure)), s1.1)
      else
        var s2 := GetStatusSpec(s1.1);
        if s2.0.Err? then (Fail(s2.0.error), s2.1)
        else if s2.0.value != StateDownloadIdle then (Fail(RuntimeError(failure)), s2.1)
        else (Pass, s2.1)
  }

  /** The command succeeds exactly when the DNLOAD is accepted and the two
      status reads give dfuDNLOAD-BUSY then dfuDNLOAD-IDLE; it then has used
      three replies and issued DNLOAD, GETSTATUS, GETSTATUS. */
  lemma CheckedDownloadPasses(l: Link, data: seq<Byte>, failure: string)
    ensures CheckedDownloadSpec(l, data, failure).0 == Pass <==>
      |l.script| >= 3 && l.script[0].Answer? && Reads(l.script[1], StateDownloadBusy) && Reads(l.script[2], StateDownloadIdle)
    ensures CheckedDownloadSpec(l, data, failure).0 == Pass ==>
      CheckedDownloadSpec(l, data, failure).1 ==
        Link(l.script[3..], l.trace + [Control(DownloadRequest(Some(data))), Control(GetStatusRequest()), Control(GetStatusRequest())])
  {
    if |l.script| >= 3 {
      assert l.script[1..][0] == l.script[1];
      assert l.script[1..][1..] == l.script[2..];
      assert l.script[2..][0] == l.script[2];
      assert l.script[2..][1..] == l.script[3..];
    }
  }

  /** `_set_address`: the DfuSe Set Address Pointer payload, checked as
      above. A packing error raises before any request. */
  function SetAddressSpec(l: Link, address: int): (Outcome, Link)
  {
    match Dfuse.CommandPayload(Dfuse.CmdSetAddress, address)
    case Err(e) => (Fail(e), l)
    case Ok(p) => CheckedDownloadSpec(l, p, SetAddressFailed)
  }

  /** `mass_erase`: the one-byte DfuSe erase command with no address. */
  function MassEraseSpec(l: Link): (Outcome, Link)
  {
    CheckedDownloadSpec(l, [Dfuse.CmdErase], MassEraseFailed)
  }

  /** `_set_address` sends [0x21, a0, a1, a2, a3] first, or nothing at all
      when the address does not fit 32 bits. */
  lemma SetAddressSends(l: Link, address: int)
    ensures !(0 <= address < 0x1_0000_0000) ==> SetAddressSpec(l, address) == (Fail(StructError), l)
    ensures 0 <= address < 0x1_0000_0000 ==>
      var t := SetAddressSpec(l, address).1.trace;
      |t| > |l.trace| && t[|l.trace|] == Control(DownloadRequest(Some([Dfuse.CmdSetAddress] + LeBytes(address, 4))))
  {
    if 0 <= address < 0x1_0000_0000 {
      Dfuse.PayloadBytes(Dfuse.CmdSetAddress, address);
    }
  }

  // ---------------------------------------------------------------------------
  // clear_status

  /** The loop of `clear_status`, entered with the status just read: while it
      is neither dfuIDLE nor dfuDNLOAD-IDLE, send CLRSTATUS and read again. */
  function ClearLoopSpec(l: Link, status: Byte): (r: (Outcome, Link))
    decreases |l.script|
  {
    if status == StateIdle || status == StateDownloadIdle then (Pass, l)
    else
      var c := Transact(l, ClearStatusRequest());
      if c.0.Err? then (Fail(c.0.error), c.1)
      else
        var g := GetStatusSpec(c.1);
        if g.0.Err? then (Fail(g.0.error), g.1)
        else ClearLoopSpec(g.1, g.0.value)
  }

  function ClearStatusSpec(l: Link): (Outcome, Link)
  {
    var g := GetStatusSpec(l);
    if g.0.Err? then (Fail(g.0.error), g.1)
    else ClearLoopSpec(g.1, g.0.value)
  }

  /** Requests that go CLRSTATUS, GETSTATUS, CLRSTATUS, GETSTATUS, ... */
  predicate Alternates(events: seq<Event>)
  {
    forall i :: 0 <= i < |events| ==>
      events[i] == if i % 2 == 0 then Control(ClearStatusRequest()) else Control(GetStatusRequest())
  }

  /** What the loop adds to the trace alternates CLRSTATUS and GETSTATUS,
      starting with CLRSTATUS; when it returns normally it has done whole
      rounds. */
  lemma {:induction false} ClearLoopTrace(l: Link, status: Byte)
    ensures var r := ClearLoopSpec(l, status);
      |r.1.trace| >= |l.trace| && r.1.trace[..|l.trace|] == l.trace
      && Alternates(r.1.trace[|l.trace|..])
      && (r.0 == Pass ==> (|r.1.trace| - |l.trace|) % 2 == 0)
    decreases |l.script|
  {
    var r := ClearLoopSpec(l, status);
    var clr, get := Control(ClearStatusRequest()), Control(GetStatusRequest());
    if status != StateIdle && status != StateDownloadIdle {
      var c := Transact(l, ClearStatusRequest());
      assert c.1.trace == l.trace + [clr];
      if c.0.Ok? {
        var g := GetStatusSpec(c.1);
        assert g.1.trace == l.trace + [clr, get];
        if g.0.Ok? {
          var r2 := ClearLoopSpec(g.1, g.0.value);
          assert r == r2;
          ClearLoopTrace(g.1, g.0.value);
          RoundAlternates(l.trace, g.1.trace, r2.1.trace);
          if r2.0 == Pass {
            var n := |r2.1.trace| - |g.1.trace|;
            assert n % 2 == 0 && |r2.1.trace| - |l.trace| == n + 2;
            assert (n + 2) % 2 == 0;
          }
        } else {
          assert r.1 == g.1;
          assert r.1.trace[|l.trace|..] == [clr, get];
        }
      } else {
        assert r.1 == c.1;
        assert r.1.trace[|l.trace|..] == [clr];
      }
    }
  }

  /** A status reply on which the loop goes round again: a state
      `_get_status` can name that is neither dfuIDLE nor dfuDNLOAD-IDLE. */
  predicate KeepsClearing(reply: Reply)
  {
    reply.Answer? && |reply.bytes| >= 5 && reply.bytes[4] <= StateError
    && reply.bytes[4] != StateIdle && reply.bytes[4] != StateDownloadIdle
  }

  /** When the loop returns normally it has used up `n` replies, two per
      round. With no round, the status it was entered with was already
      dfuIDLE or dfuDNLOAD-IDLE. Otherwise it stopped on the first status
      read that is idle: every CLRSTATUS was accepted, every earlier status
      read sent it round again, and the last one reads dfuIDLE or
      dfuDNLOAD-IDLE. */
  lemma {:induction false} ClearLoopPass(l: Link, status: Byte)
    ensures var r := ClearLoopSpec(l, status);
      var n := |l.script| - |r.1.script|;
      r.0 == Pass ==>
        && n % 2 == 0 && 0 <= n <= |l.script| && r.1.script == l.script[n..]
        && |r.1.trace| == |l.trace| + n
        && (n == 0 <==> status == StateIdle || status == StateDownloadIdle)
        && (n > 0 ==> Reads(l.script[n - 1], StateIdle) || Reads(l.script[n - 1], StateDownloadIdle))
        && (forall k :: 0 <= k < n && k % 2 == 0 ==> l.script[k].Answer?)
        && (forall k :: 0 <= k < n - 1 && k % 2 == 1 ==> KeepsClearing(l.script[k]))
    decreases |l.script|, 1
  {
    if status != StateIdle && status != StateDownloadIdle {
      ClearLoopRound(l, status);
    }
  }

  /** The same, when the loop goes round at least once. */
  lemma {:induction false} ClearLoopRound(l: Link, status: Byte)
    requires status != StateIdle && status != StateDownloadIdle
    ensures var r := ClearLoopSpec(l, status);
      var n := |l.script| - |r.1.script|;
      r.0 == Pass ==>
        && n % 2 == 0 && 0 <= n <= |l.script| && r.1.script == l.script[n..]
        && |r.1.trace| == |l.trace| + n
        && (n == 0 <==> status == StateIdle || status == StateDownloadIdle)
        && (n > 0 ==> Reads(l.script[n - 1], StateIdle) || Reads(l.script[n - 1], StateDownloadIdle))
        && (forall k :: 0 <= k < n && k % 2 == 0 ==> l.script[k].Answer?)
        && (forall k :: 0 <= k < n - 1 && k % 2 == 1 ==> KeepsClearing(l.script[k]))
    decreases |l.script|, 0
  {
    if ClearLoopSpec(l, status).0 == Pass {
      var later, v := ClearLoopUnfold(l, status);
      ClearLoopPass(later, v);
      var r := ClearLoopSpec(later, v);
      ClearLoopShift(l.script, later.script, |l.script| - |r.1.script|, v);
    }
  }

  /** One round that the loop survives: an accepted CLRSTATUS, a status
      `v` read from the next reply, and the loop entered again with it. */
  lemma ClearLoopUnfold(l: Link, status: Byte) returns (later: Link, v: Byte)
    requires status != StateIdle && status != StateDownloadIdle && ClearLoopSpec(l, status).0 == Pass
    ensures |l.script| >= 2 && later.script == l.script[2..] && |later.trace| == |l.trace| + 2
    ensures l.script[0].Answer? && l.script[1].Answer? && |l.script[1].bytes| >= 5 && l.script[1].bytes[4] == v
    ensures v <= StateError && ClearLoopSpec(later, v) == ClearLoopSpec(l, status)
  {
    var c := Transact(l, ClearStatusRequest());
    var g := GetStatusSpec(c.1);
    later, v := g.1, g.0.value;
  }

  /** The facts of the rounds after the first, read back on the whole script. */
  lemma ClearLoopShift(script: seq<Reply>, later: seq<Reply>, n: nat, v: Byte)
    requires |script| >= 2 && later == script[2..] && 2 <= n <= |script|
    requires script[0].Answer? && script[1].Answer? && |script[1].bytes| >= 5 && script[1].bytes[4] == v
    requires n == 2 <==> v == StateIdle || v == StateDownloadIdle
    requires n > 2 ==> KeepsClearing(script[1])
    requires n > 2 ==> Reads(later[n - 3], StateIdle) || Reads(later[n - 3], StateDownloadIdle)
    requires forall k :: 0 <= k < n - 2 && k % 2 == 0 ==> later[k].Answer?
    requires forall k :: 0 <= k < n - 3 && k % 2 == 1 ==> KeepsClearing(later[k])
    ensures Reads(script[n - 1], StateIdle) || Reads(script[n - 1], StateDownloadIdle)
    ensures forall k :: 0 <= k < n && k % 2 == 0 ==> script[k].Answer?
    ensures forall k :: 0 <= k < n - 1 && k % 2 == 1 ==> KeepsClearing(script[k])
  {
    forall k | 2 <= k < n
      ensures script[k] == later[k - 2]
    {
    }
  }

  /** One more CLRSTATUS/GETSTATUS round in front of an alternating run. */
  lemma RoundAlternates(before: seq<Event>, mid: seq<Event>, after: seq<Event>)
    requires mid == before + [Control(ClearStatusRequest()), Control(GetStatusRequest())]
    requires |after| >= |mid| && after[..|mid|] == mid && Alternates(after[|mid|..])
    ensures |after| >= |before| && after[..|before|] == before && Alternates(after[|before|..])
  {
    var added := after[|before|..];
    var later := after[|mid|..];
    forall i | 0 <= i < |added|
      ensures added[i] == if i % 2 == 0 then Control(ClearStatusRequest()) else Control(GetStatusRequest())
    {
      if i >= 2 {
        assert added[i] == later[i - 2];
      } else {
        assert added[i] == mid[|before| + i];
      }
    }
  }

  /** `clear_status` sends no CLRSTATUS when the first status read is idle. */
  lemma ClearStatusIdle(l: Link)
    requires l.script != [] && (Reads(l.script[0], StateIdle) || Reads(l.script[0], StateDownloadIdle))
    ensures ClearStatusSpec(l) == (Pass, Link(l.script[1..], l.trace + [Control(GetStatusRequest())]))
  {
  }

  // ---------------------------------------------------------------------------
  // exit_dfu

  /** `exit_dfu`: set the jump address (its errors propagate), send the
      zero-length DNLOAD, then read the status once; whatever that read
      gives, including an exception, is ignored. */
  function ExitDfuSpec(l: Link, address: int): (Outcome, Link)
  {
    var a := SetAddressSpec(l, address);
    if a.0.Fail? then a
    else
      var d := Transact(a.1, DownloadRequest(None));
      if d.0.Err? then (Fail(d.0.error), d.1)
      else (Pass, GetStatusSpec(d.1).1)
  }

  /** Once the address is set and the zero-length DNLOAD accepted, leaving
      DFU succeeds however the final status read ends (a reply other than
      dfuMANIFEST, a short reply, a USB error), and the last request is that
      status read. */
  lemma ExitDfuIgnoresStatus(l: Link, address: int)
    ensures var a := SetAddressSpec(l, address);
      a.0.Fail? ==> ExitDfuSpec(l, address) == a
    ensures var a := SetAddressSpec(l, address);
      a.0.Pass? && a.1.script != [] && a.1.script[0].Answer? ==>
        var e := ExitDfuSpec(l, address);
        e.0 == Pass
        && e.1.trace == a.1.trace + [Control(DownloadRequest(None)), Control(GetStatusRequest())]
  {
  }

  // ---------------------------------------------------------------------------
  // The code, on a device

  /** `_get_status`. */
  method GetStatus(dev: Device) returns (r: Result<Byte>)
    modifies dev
    ensures (r, dev.State()) == GetStatusSpec(old(dev.State()))
  {
    var stat := dev.ControlTransfer(GetStatusRequest());
    if stat.Err? {
      return Err(stat.error);
    }
    if |stat.value| < 5 || stat.value[4] > StateError {
      return Err(IndexError);
    }
    return Ok(stat.value[4]);
  }

  method CheckedDownload(dev: Device, data: seq<Byte>, failure: string) returns (o: Outcome)
    modifies dev
    ensures (o, dev.State()) == CheckedDownloadSpec(old(dev.State()), data, failure)
  {
    var sent := dev.ControlTransfer(DownloadRequest(Some(data)));
    if sent.Err? {
      return Fail(sent.error);
    }
    var status := GetStatus(dev);
    if status.Err? {
      return Fail(status.error);
    }
    if status.value != StateDownloadBusy {
      return Fail(RuntimeError(failure));
    }
    status := GetStatus(dev);
    if status.Err? {
      return Fail(status.error);
    }
    if status.value != StateDownloadIdle {
      return Fail(RuntimeError(failure));
    }
    return Pass;
  }

  /** `_set_address`. */
  method SetAddress(dev: Device, address: int) returns (o: Outcome)
    modifies dev
    ensures (o, dev.State()) == SetAddressSpec(old(dev.State()), address)
  {
    var buf := Dfuse.CommandPayload(Dfuse.CmdSetAddress, address);
    if buf.Err? {
      return Fail(buf.error);
    }
    o := CheckedDownload(dev, buf.value, SetAddressFailed);
  }

  /** `mass_erase`. */
  method MassErase(dev: Device) returns (o: Outcome)
    modifies dev
    ensures (o, dev.State()) == MassEraseSpec(old(dev.State()))
  {
    o := CheckedDownload(dev, [Dfuse.CmdErase], MassEraseFailed);
  }

  /** `clear_status`. */
  method ClearStatus(dev: Device) returns (o: Outcome)
    modifies dev
    ensures (o, dev.State()) == ClearStatusSpec(old(dev.State()))
  {
    var first := GetStatus(dev);
    if first.Err? {
      return Fail(first.error);
    }
    var status := first.value;
    while status != StateIdle && status != StateDownloadIdle
      invariant ClearLoopSpec(dev.State(), status) == ClearStatusSpec(old(dev.State()))
      decreases |dev.script|
    {
      var cleared := dev.ControlTransfer(ClearStatusRequest());
      if cleared.Err? {
        return Fail(cleared.error);
      }
      var next := GetStatus(dev);
      if next.Err? {
        return Fail(next.error);
      }
      status := next.value;
    }
    return Pass;
  }

  /** `exit_dfu`. */
  method ExitDfu(dev: Device, address: int) returns (o: Outcome)
    modifies dev
    ensures (o, dev.State()) == ExitDfuSpec(old(dev.State()), address)
  {
    o := SetAddress(dev, address);
    if o.Fail? {
      return;
    }
    var sent := dev.ControlTransfer(DownloadRequest(None));
    if sent.Err? {
      return Fail(sent.error);
    }
    var ignored := GetStatus(dev);
    return Pass;
  }

  /** `claim_interface`. */
  method ClaimInterface(dev: Device) returns (o: Outcome)
    modifies dev
    ensures (o, dev.State()) == ClaimSpec(old(dev.State()), Interface)
  {
    o := dev.ClaimInterface(Interface);
  }

  /** `release_interface`. */
  method ReleaseInterface(dev: Device)
    modifies dev
    ensures dev.State() == DisposeSpec(old(dev.State()))
  {
    dev.DisposeResources();
  }
}
