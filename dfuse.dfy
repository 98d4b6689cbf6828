/** ST's DfuSe extension (pyfu_usb/dfuse.py): the Set Address Pointer and
    Erase commands of application note AN3156, each a command byte followed by
    a little-endian 32-bit address (`struct.pack("<BI", cmd, address)`), sent
    as the data of one DFU download with transaction 0. */
module Dfuse {
  import opened Base
  import opened Struct
  import opened Usb
  import Dfu

  const CmdSetAddress: Byte := 0x21
  const CmdErase: Byte := 0x41

  /** The bcdDFUVersion of a device that speaks DfuSe. */
  const DfuseVersion: nat := 0x11A

  /** `struct.pack("<BI", cmd, address)`: StructError when the address does
      not fit an unsigned 32-bit field. */
  function CommandPayload(cmd: Byte, address: int): (r: Result<seq<Byte>>)
    ensures r.Ok? <==> 0 <= address < 0x1_0000_0000
    ensures r.Ok? ==> |r.value| == 5
  {
    if 0 <= address < 0x1_0000_0000 then
      Pow256Values();
      Ok(Pack([U8, U32], [Int(cmd), Int(address)]))
    else Err(StructError)
  }

  /** The payload is the command byte, then the address least significant
      byte first. */
  lemma PayloadBytes(cmd: Byte, address: int)
    requires 0 <= address < 0x1_0000_0000
    ensures CommandPayload(cmd, address) == Ok([cmd] + LeBytes(address, 4))
  {
    Pow256Values();
    var fields, values := [U8, U32], [Int(cmd), Int(address)];
    assert fields[1..] == [U32] && values[1..] == [Int(address)];
    assert PackField(U32, Int(address)) == LeBytes(address, 4);
    assert [U32][1..] == [] && [Int(address)][1..] == [];
    assert Pack([U32], [Int(address)]) == LeBytes(address, 4) + Pack([], []);
    assert LeBytes(cmd, 1) == [cmd % 256] + LeBytes(cmd / 256, 0);
    assert PackField(U8, Int(cmd)) == LeBytes(cmd, 1) == [cmd];
    assert Pack(fields, values) == PackField(U8, Int(cmd)) + Pack(fields[1..], values[1..]);
    assert Pack(fields, values) == [cmd] + LeBytes(address, 4);
    assert CommandPayload(cmd, address) == Ok(Pack(fields, values));
  }

  /** Bytes 1 to 4 decode back to the address, and the device's own
      `struct.unpack("<BI", ...)` gives back both fields. */
  lemma PayloadRoundTrip(cmd: Byte, address: int)
    requires 0 <= address < 0x1_0000_0000
    ensures var p := CommandPayload(cmd, address).value;
      p[0] == cmd && LeUint(p[1..]) == address && Unpack([U8, U32], p) == Ok([Int(cmd), Int(address)])
  {
    PayloadBytes(cmd, address);
    Pow256Values();
    var p := CommandPayload(cmd, address).value;
    assert p[1..] == LeBytes(address, 4);
    LeUintOfLeBytes(address, 4);
    UnpackPack([U8, U32], [Int(cmd), Int(address)]);
  }

  /** One DfuSe command: pack, then a single `download` with transaction 0
      and the default timeout. A packing error raises before any request.
      The payload is written out as PayloadBytes shows `CommandPayload`
      produces it. */
  function CommandSpec(l: Link, intf: int, cmd: Byte, address: int): (r: (Outcome, Link))
    ensures Extends(l, r.1)
  {
    if 0 <= address < 0x1_0000_0000 then Dfu.DownloadSpec(l, intf, 0, Some([cmd] + LeBytes(address, 4)), Dfu.DefaultTimeout)
    else (Fail(StructError), l)
  }

  /** An address that does not fit 32 bits fails with StructError and leaves
      the device untouched; any other sends exactly one DNLOAD, with
      transaction 0 and the payload [cmd, a0, a1, a2, a3], before anything
      else, followed only by status polls. */
  lemma CommandTrace(l: Link, intf: int, cmd: Byte, address: int)
    ensures !(0 <= address < 0x1_0000_0000) ==> CommandSpec(l, intf, cmd, address) == (Fail(StructError), l)
    ensures 0 <= address < 0x1_0000_0000 ==>
      var t := CommandSpec(l, intf, cmd, address).1.trace;
      var dnload := Dfu.DownloadRequest(intf, 0, Some([cmd] + LeBytes(address, 4)), Dfu.DefaultTimeout);
      |t| > |l.trace| && t[..|l.trace| + 1] == l.trace + [Control(dnload)]
      && forall i :: |l.trace| < i < |t| ==> t[i] == Control(Dfu.GetStatusRequest(intf, Dfu.DefaultTimeout))
  {
    if 0 <= address < 0x1_0000_0000 {
      PayloadBytes(cmd, address);
      Dfu.DownloadTrace(l, intf, 0, Some([cmd] + LeBytes(address, 4)), Dfu.DefaultTimeout);
    }
  }

  /** The DNLOAD a command sends for an address that fits. */
  function CommandRequest(intf: int, cmd: Byte, address: int): Transfer
  {
    Dfu.DownloadRequest(intf, 0, Some([cmd] + LeBytes(if address < 0 then 0 else address, 4)), Dfu.DefaultTimeout)
  }

  /** A command that completes had an address that fits, and added exactly
      its own DNLOAD to the requests sent. */
  lemma CommandDnloads(l: Link, intf: int, cmd: Byte, address: int)
    requires CommandSpec(l, intf, cmd, address).0 == Pass
    ensures 0 <= address < 0x1_0000_0000
    ensures Dfu.Dnloads(CommandSpec(l, intf, cmd, address).1.trace) == Dfu.Dnloads(l.trace) + [CommandRequest(intf, cmd, address)]
  {
    PayloadBytes(cmd, address);
    Dfu.DownloadDnloads(l, intf, 0, Some([cmd] + LeBytes(address, 4)), Dfu.DefaultTimeout);
  }

  /** `set_address`. */
  method SetAddress(dev: Device, intf: int, address: int) returns (o: Outcome)
    modifies dev
    ensures (o, dev.State()) == CommandSpec(old(dev.State()), intf, CmdSetAddress, address)
  {
    var payload := CommandPayload(CmdSetAddress, address);
    if payload.Err? {
      return Fail(payload.error);
    }
    PayloadBytes(CmdSetAddress, address);
    o := Dfu.Download(dev, intf, 0, Some(payload.value), Dfu.DefaultTimeout);
  }

  /** `page_erase`. */
  method PageErase(dev: Device, intf: int, address: int) returns (o: Outcome)
    modifies dev
    ensures (o, dev.State()) == CommandSpec(old(dev.State()), intf, CmdErase, address)
  {
    var payload := CommandPayload(CmdErase, address);
    if payload.Err? {
      return Fail(payload.error);
    }
    PayloadBytes(CmdErase, address);
    o := Dfu.Download(dev, intf, 0, Some(payload.value), Dfu.DefaultTimeout);
  }
}
