/** What pyfu_usb reads from a device's descriptors (pyfu_usb/descriptor.py):
    the DFU functional descriptor of USB DFU 1.1 section 4.1.3, found among
    the interfaces' class-specific bytes, and the DfuSe memory layout held in
    the interface's string descriptor. */
module Descriptor {
  import opened Base
  import opened Usb
  import opened Layout

  const DescriptorLength: nat := 9
  const DescriptorType: Byte := 0x21

  datatype DfuDescriptor = DfuDescriptor(bmAttributes: nat, wDetachTimeOut: nat, wTransferSize: nat, bcdDFUVersion: nat)

  /** The class-specific bytes of an interface hold a DFU functional
      descriptor: exactly nine bytes whose type byte is 0x21. */
  predicate IsDfuFunctional(extra: seq<Byte>)
  {
    |extra| == DescriptorLength && extra[1] == DescriptorType
  }

  /** The four fields, the 16-bit ones written as `hi << 8 | lo`. */
  function Decode(extra: seq<Byte>): DfuDescriptor
    requires |extra| == DescriptorLength
  {
    DfuDescriptor(extra[2], extra[4] as int * 256 + extra[3], extra[6] as int * 256 + extra[5], extra[8] as int * 256 + extra[7])
  }

  /** The 16-bit fields are little-endian and so below 2^16. */
  lemma DecodeLittleEndian(extra: seq<Byte>)
    requires |extra| == DescriptorLength
    ensures var d := Decode(extra);
      d.bmAttributes == extra[2]
      && d.wDetachTimeOut == LeUint(extra[3..5]) && d.wTransferSize == LeUint(extra[5..7])
      && d.bcdDFUVersion == LeUint(extra[7..9])
      && d.wDetachTimeOut < 0x1_0000 && d.wTransferSize < 0x1_0000 && d.bcdDFUVersion < 0x1_0000
  {
    LeUint2(extra[3..5]);
    LeUint2(extra[5..7]);
    LeUint2(extra[7..9]);
  }

  /** The descriptor a device would send for `d`. */
  function Encode(d: DfuDescriptor): (b: seq<Byte>)
    requires d.bmAttributes < 0x100 && d.wDetachTimeOut < 0x1_0000 && d.wTransferSize < 0x1_0000 && d.bcdDFUVersion < 0x1_0000
  {
    [DescriptorLength, DescriptorType, d.bmAttributes] + LeBytes(d.wDetachTimeOut, 2)
    + LeBytes(d.wTransferSize, 2) + LeBytes(d.bcdDFUVersion, 2)
  }

  /** Decoding gives back every descriptor whose fields fit their widths. */
  lemma DecodeEncode(d: DfuDescriptor)
    requires d.bmAttributes < 0x100 && d.wDetachTimeOut < 0x1_0000 && d.wTransferSize < 0x1_0000 && d.bcdDFUVersion < 0x1_0000
    ensures IsDfuFunctional(Encode(d)) && Decode(Encode(d)) == d
  {
    var b := Encode(d);
    Pow256Values();
    LeUintOfLeBytes(d.wDetachTimeOut, 2);
    LeUintOfLeBytes(d.wTransferSize, 2);
    LeUintOfLeBytes(d.bcdDFUVersion, 2);
    assert b[3..5] == LeBytes(d.wDetachTimeOut, 2);
    assert b[5..7] == LeBytes(d.wTransferSize, 2);
    assert b[7..9] == LeBytes(d.bcdDFUVersion, 2);
    DecodeLittleEndian(b);
  }

  // ---------------------------------------------------------------------------
  // get_dfu_descriptor

  /** The interfaces of every configuration, in the order `for cfg in dev:
      for intf in cfg:` visits them. */
  function Flatten(cfgs: seq<seq<Interface>>): seq<Interface>
  {
    if cfgs == [] then [] else cfgs[0] + Flatten(cfgs[1..])
  }

  /** Configuration `c` sits between the configurations before and after it. */
  lemma {:induction false} FlattenSplit(cfgs: seq<seq<Interface>>, c: nat)
    requires c < |cfgs|
    ensures Flatten(cfgs) == Flatten(cfgs[..c]) + cfgs[c] + Flatten(cfgs[c + 1..])
  {
    if c > 0 {
      FlattenSplit(cfgs[1..], c - 1);
      assert cfgs[1..][..c - 1] == cfgs[1..c];
      assert cfgs[1..][c - 1] == cfgs[c] && cfgs[1..][c..] == cfgs[c + 1..];
      assert cfgs[..c][0] == cfgs[0] && cfgs[..c][1..] == cfgs[1..c];
      assert Flatten(cfgs[..c]) == cfgs[0] + Flatten(cfgs[1..c]);
    } else {
      assert cfgs[..0] == [] && cfgs[1..] == cfgs[c + 1..];
    }
  }

  /** The first interface in the list that carries a DFU descriptor, decoded. */
  function FirstDescriptor(ifs: seq<Interface>): Option<DfuDescriptor>
  {
    if ifs == [] then None
    else if IsDfuFunctional(ifs[0].extra) then Some(Decode(ifs[0].extra))
    else FirstDescriptor(ifs[1..])
  }

  /** `get_dfu_descriptor`. */
  function GetDfuDescriptor(info: DeviceInfo): Option<DfuDescriptor>
  {
    FirstDescriptor(Flatten(info.configurations))
  }

  /** None exactly when no interface carries a DFU descriptor. */
  lemma {:induction false} FirstDescriptorNone(ifs: seq<Interface>)
    ensures FirstDescriptor(ifs).None? <==> forall i :: 0 <= i < |ifs| ==> !IsDfuFunctional(ifs[i].extra)
  {
    if ifs != [] {
      FirstDescriptorNone(ifs[1..]);
      assert forall i :: 1 <= i < |ifs| ==> ifs[i] == ifs[1..][i - 1];
    }
  }

  /** The first interface that carries one decides the result. */
  lemma {:induction false} FirstDescriptorWins(ifs: seq<Interface>, k: nat)
    requires k < |ifs| && IsDfuFunctional(ifs[k].extra)
    requires forall i :: 0 <= i < k ==> !IsDfuFunctional(ifs[i].extra)
    ensures FirstDescriptor(ifs) == Some(Decode(ifs[k].extra))
  {
    if k > 0 {
      FirstDescriptorWins(ifs[1..], k - 1);
    }
  }

  // ---------------------------------------------------------------------------
  // get_memory_layout

  /** `device[0][(interface, alternate_index)]`, looked up by interface number
      and alternate setting; IndexError where the device has no such
      interface. */
  function FindInterface(cfg: seq<Interface>, number: int, alternate: int): Result<Interface>
  {
    if cfg == [] then Err(IndexError)
    else if cfg[0].number == number && cfg[0].alternate == alternate then Ok(cfg[0])
    else FindInterface(cfg[1..], number, alternate)
  }

  /** `usb.util.get_string`: None for index 0; a USBError for a string the
      device does not have. */
  function GetString(info: DeviceInfo, index: nat): Result<Option<string>>
  {
    if index == 0 then Ok(None)
    else if index in info.strings then Ok(Some(info.strings[index]))
    else Err(UsbFailure("no string descriptor"))
  }

  /** `get_memory_layout`: [] when the string cannot be fetched; `.split`
      on a missing (None) string raises AttributeError; otherwise the layout
      string's segments, a token that does not match failing the assert. */
  function MemoryLayoutSpec(info: DeviceInfo, interface: int, alternate: int): Result<seq<Segment>>
  {
    if info.configurations == [] then Err(IndexError)
    else
      match FindInterface(info.configurations[0], interface, alternate)
      case Err(e) => Err(e)
      case Ok(intf) =>
        match GetString(info, intf.stringIndex)
        case Err(_) => Ok([])
        case Ok(None) => Err(AttributeError)
        case Ok(Some(s)) => ParseLayout(s, AssertionError)
  }

  /** The layout is empty exactly when the interface's string cannot be
      fetched (a USB error, swallowed); a layout with segments comes from a
      string that is there, laid out contiguously from the base it names. */
  lemma MemoryLayoutShape(info: DeviceInfo, interface: int, alternate: int)
    requires info.configurations != [] && FindInterface(info.configurations[0], interface, alternate).Ok?
    ensures var index := FindInterface(info.configurations[0], interface, alternate).value.stringIndex;
      MemoryLayoutSpec(info, interface, alternate) == Ok([]) <==> index != 0 && index !in info.strings
    ensures var index := FindInterface(info.configurations[0], interface, alternate).value.stringIndex;
      var r := MemoryLayoutSpec(info, interface, alternate);
      r.Ok? && r.value != [] ==>
        && index != 0 && index in info.strings
        && var parts := Split(info.strings[index], '/');
        && |parts| >= 3 && IntBase0(parts[1]).Some?
        && r.value[0].addr == IntBase0(parts[1]).value
        && (forall i :: 0 < i < |r.value| ==> r.value[i].addr == r.value[i - 1].lastAddr + 1)
  {
    var index := FindInterface(info.configurations[0], interface, alternate).value.stringIndex;
    if index != 0 && index in info.strings && ParseLayout(info.strings[index], AssertionError).Ok? {
      LayoutContiguous(info.strings[index], AssertionError);
    }
  }

  /** A device whose layout string is the STM32F2 one reads as its three
      flash segments. */
  lemma ExampleMemoryLayout(info: DeviceInfo, interface: int, alternate: int)
    requires info.configurations != [] && FindInterface(info.configurations[0], interface, alternate).Ok?
    requires var index := FindInterface(info.configurations[0], interface, alternate).value.stringIndex;
      index != 0 && index in info.strings && info.strings[index] == "/0x08000000/04*016Kg,01*064Kg,07*128Kg"
    ensures MemoryLayoutSpec(info, interface, alternate) == Ok([
      Segment(0x0800_0000, 0x0800_FFFF, 65536, 4, 16384),
      Segment(0x0801_0000, 0x0801_FFFF, 65536, 1, 65536),
      Segment(0x0802_0000, 0x080F_FFFF, 917504, 7, 131072)])
  {
    var index := FindInterface(info.configurations[0], interface, alternate).value.stringIndex;
    ExampleLayout(info.strings[index], AssertionError);
  }

  /** An interface is found exactly when the configuration has one with that
      number and alternate setting, and it is one of those. */
  lemma {:induction false} FindInterfaceSpec(cfg: seq<Interface>, number: int, alternate: int)
    ensures FindInterface(cfg, number, alternate).Ok? <==>
      exists i :: 0 <= i < |cfg| && cfg[i].number == number && cfg[i].alternate == alternate
    ensures FindInterface(cfg, number, alternate).Ok? ==>
      var intf := FindInterface(cfg, number, alternate).value;
      intf in cfg && intf.number == number && intf.alternate == alternate
    ensures FindInterface(cfg, number, alternate).Err? ==> FindInterface(cfg, number, alternate) == Err(IndexError)
  {
    if cfg != [] {
      FindInterfaceSpec(cfg[1..], number, alternate);
      if !(cfg[0].number == number && cfg[0].alternate == alternate) {
        if exists i :: 0 <= i < |cfg| && cfg[i].number == number && cfg[i].alternate == alternate {
          var i :| 0 <= i < |cfg| && cfg[i].number == number && cfg[i].alternate == alternate;
          assert cfg[1..][i - 1] == cfg[i];
        }
      }
    }
  }

  /** `get_memory_layout` on an open device; it issues no transfer. */
  method GetMemoryLayout(dev: Device, interface: int, alternate: int) returns (r: Result<seq<Segment>>)
    ensures r == MemoryLayoutSpec(dev.info, interface, alternate)
  {
    if dev.info.configurations == [] {
      return Err(IndexError);
    }
    var intf := FindInterface(dev.info.configurations[0], interface, alternate);
    if intf.Err? {
      return Err(intf.error);
    }
    var layout := GetString(dev.info, intf.value.stringIndex);
    if layout.Err? {
      return Ok([]);
    }
    if layout.value.None? {
      return Err(AttributeError);
    }
    r := ReadLayout(layout.value.value, AssertionError);
  }
}
