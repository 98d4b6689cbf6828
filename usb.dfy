/** The USB device the DFU code talks to, in place of pyusb. A device is
    described by its descriptors (`DeviceInfo`) and driven through a
    `Device` object whose control transfers and interface claims are
    answered, in order, from a finite script of replies; every request the
    code issues is appended to a trace. An exhausted script answers with a
    USB timeout, so every loop that polls the device ends. */
module Usb {
  import opened Base

  // ---------------------------------------------------------------------------
  // Descriptors

  /** One interface (alternate setting) of a configuration, as pyusb exposes it. */
  datatype Interface = Interface(
    number: nat,           // bInterfaceNumber
    alternate: nat,        // bAlternateSetting
    interfaceClass: Byte,  // bInterfaceClass
    subClass: Byte,        // bInterfaceSubClass
    stringIndex: nat,      // iInterface
    extra: seq<Byte>)      // extra_descriptors: the class-specific bytes after it

  /** What the code reads from a device's descriptors: its ids, its
      configurations (each a list of interfaces, in descriptor order) and its
      string descriptors by index. */
  datatype DeviceInfo = DeviceInfo(
    idVendor: nat,
    idProduct: nat,
    configurations: seq<seq<Interface>>,
    strings: map<nat, string>)

  // ---------------------------------------------------------------------------
  // Requests, replies and the trace

  /** The `data_or_wLength` argument of `ctrl_transfer`: bytes to send, None,
      or the length to read. */
  datatype Payload = Data(bytes: seq<Byte>) | NoData | ReadLength(n: nat)

  /** `ctrl_transfer(bmRequestType, bRequest, wValue, wIndex, data_or_wLength, timeout)`. */
  datatype Transfer = Transfer(requestType: Byte, request: Byte, value: int, index: int, payload: Payload, timeout: nat)

  /** What the device does with one request: answer (with the bytes read,
      ignored for an OUT transfer) or fail with a USBError carrying `text`. */
  datatype Reply = Answer(bytes: seq<Byte>) | Failure(text: string)

  datatype Event = Control(transfer: Transfer) | Claim(interface: int) | Dispose

  /** The device as the code sees it: the replies still to come and the
      requests issued so far. */
  datatype Link = Link(script: seq<Reply>, trace: seq<Event>)

  /** The message of the USBTimeoutError a device raises when it does not answer. */
  const TimedOut: string := "Operation timed out"

  /** Issue `e` and take the next reply: the request always joins the trace,
      and exactly one reply is consumed unless none is left. */
  function Exchange(l: Link, e: Event): (r: (Result<seq<Byte>>, Link))
    ensures r.1.trace == l.trace + [e] && Extends(l, r.1)
    ensures l.script == [] ==> r.0 == Err(UsbFailure(TimedOut)) && r.1.script == []
    ensures l.script != [] ==> r.1.script == l.script[1..]
    ensures l.script != [] ==> (r.0.Ok? <==> l.script[0].Answer?)
    ensures l.script != [] && l.script[0].Answer? ==> r.0 == Ok(l.script[0].bytes)
    ensures l.script != [] && l.script[0].Failure? ==> r.0 == Err(UsbFailure(l.script[0].text))
  {
    var trace := l.trace + [e];
    if l.script == [] then (Err(UsbFailure(TimedOut)), Link([], trace))
    else
      match l.script[0]
      case Answer(bytes) => (Ok(bytes), Link(l.script[1..], trace))
      case Failure(text) => (Err(UsbFailure(text)), Link(l.script[1..], trace))
  }

  function Transact(l: Link, t: Transfer): (Result<seq<Byte>>, Link)
  {
    Exchange(l, Control(t))
  }

  /** `usb.util.claim_interface`: may fail like any request. */
  function ClaimSpec(l: Link, interface: int): (Outcome, Link)
  {
    var (r, l1) := Exchange(l, Claim(interface));
    (if r.Err? then Fail(r.error) else Pass, l1)
  }

  /** `usb.util.dispose_resources`: releases the interface; never fails. */
  function DisposeSpec(l: Link): Link
  {
    Link(l.script, l.trace + [Dispose])
  }

  /** An open pyusb device: its descriptors and the link state. */
  class Device {
    const info: DeviceInfo
    var script: seq<Reply>
    var trace: seq<Event>

    function State(): Link
      reads this
    {
      Link(script, trace)
    }

    constructor (info: DeviceInfo, script: seq<Reply>)
      ensures this.info == info && State() == Link(script, [])
    {
      this.info := info;
      this.script := script;
      this.trace := [];
    }

    method ControlTransfer(t: Transfer) returns (r: Result<seq<Byte>>)
      modifies this
      ensures (r, State()) == Transact(old(State()), t)
    {
      var next;
      r, next := Transact(State(), t).0, Transact(State(), t).1;
      script, trace := next.script, next.trace;
    }

    method ClaimInterface(interface: int) returns (o: Outcome)
      modifies this
      ensures (o, State()) == ClaimSpec(old(State()), interface)
    {
      var next;
      o, next := ClaimSpec(State(), interface).0, ClaimSpec(State(), interface).1;
      script, trace := next.script, next.trace;
    }

    method DisposeResources()
      modifies this
      ensures State() == DisposeSpec(old(State()))
    {
      trace := trace + [Dispose];
    }
  }

  /** `after` is a later state of the link than `before`: the trace has
      only grown and the script only shrunk. */
  predicate Extends(before: Link, after: Link)
  {
    before.trace <= after.trace && |after.script| <= |before.script|
  }

  lemma ExtendsTrans(a: Link, b: Link, c: Link)
    requires Extends(a, b) && Extends(b, c)
    ensures Extends(a, c)
  {
  }
}
