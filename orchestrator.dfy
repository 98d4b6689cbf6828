/** The download flow of pyfu_usb (pyfu_usb/__init__.py): pick the one
    device in DFU mode, claim its interface, read its DFU descriptor, send the
    image in chunks of at most wTransferSize bytes (plain DFU, or DfuSe with
    page erases and address pointers first), end with a zero-length
    download, and release the interface whatever happens. */
module Orchestrator {
  import opened Base
  import opened Usb
  import opened Layout
  import opened Descriptor
  import Dfu
  import Dfuse

  const Timeout: nat := Dfu.DefaultTimeout

  // ---------------------------------------------------------------------------
  // Finding the device

  /** An interface of the DFU class: bInterfaceClass 0xFE (application
      specific), bInterfaceSubClass 1 (device firmware upgrade). */
  predicate IsDfuInterface(intf: Interface)
  {
    intf.interfaceClass == 0xFE && intf.subClass == 1
  }

  /** The loop `for cfg in device: for intf in cfg:` that returns True at the
      first DFU interface. */
  function AnyDfuInterface(ifs: seq<Interface>): bool
  {
    if ifs == [] then false else IsDfuInterface(ifs[0]) || AnyDfuInterface(ifs[1..])
  }

  lemma {:induction false} AnyDfuInterfaceSpec(ifs: seq<Interface>)
    ensures AnyDfuInterface(ifs) <==> exists i :: 0 <= i < |ifs| && IsDfuInterface(ifs[i])
  {
    if ifs != [] {
      AnyDfuInterfaceSpec(ifs[1..]);
      if exists i :: 0 <= i < |ifs| && IsDfuInterface(ifs[i]) {
        var i :| 0 <= i < |ifs| && IsDfuInterface(ifs[i]);
        if i > 0 {
          assert IsDfuInterface(ifs[1..][i - 1]);
        }
      }
      if AnyDfuInterface(ifs[1..]) {
        var i :| 0 <= i < |ifs[1..]| && IsDfuInterface(ifs[1..][i]);
        assert IsDfuInterface(ifs[i + 1]);
      }
    }
  }

  /** `FilterDFU.__call__`. */
  predicate FilterDfu(vid: Option<nat>, pid: Option<nat>, info: DeviceInfo)
  {
    if vid.None? || vid.value == info.idVendor then
      if pid.None? || pid.value == info.idProduct then
        AnyDfuInterface(Flatten(info.configurations))
      else false
    else false
  }

  /** A device passes the filter exactly when it matches the vendor id and
      the product id that were given and has a DFU-class interface in some
      configuration. */
  lemma FilterDfuSpec(vid: Option<nat>, pid: Option<nat>, info: DeviceInfo)
    ensures FilterDfu(vid, pid, info) <==>
      (vid.None? || vid.value == info.idVendor) && (pid.None? || pid.value == info.idProduct)
      && exists c, i :: 0 <= c < |info.configurations| && 0 <= i < |info.configurations[c]|
           && IsDfuInterface(info.configurations[c][i])
  {
    var cfgs := info.configurations;
    AnyDfuInterfaceSpec(Flatten(cfgs));
    if exists c, i :: 0 <= c < |cfgs| && 0 <= i < |cfgs[c]| && IsDfuInterface(cfgs[c][i]) {
      var c, i :| 0 <= c < |cfgs| && 0 <= i < |cfgs[c]| && IsDfuInterface(cfgs[c][i]);
      FlattenSplit(cfgs, c);
      assert Flatten(cfgs)[|Flatten(cfgs[..c])| + i] == cfgs[c][i];
    }
    if AnyDfuInterface(Flatten(cfgs)) {
      var j :| 0 <= j < |Flatten(cfgs)| && IsDfuInterface(Flatten(cfgs)[j]);
      var c, i := FlattenIndex(cfgs, j);
    }
  }

  /** Where position `j` of the flattened list comes from. */
  lemma {:induction false} FlattenIndex(cfgs: seq<seq<Interface>>, j: nat) returns (c: nat, i: nat)
    requires j < |Flatten(cfgs)|
    ensures c < |cfgs| && i < |cfgs[c]| && Flatten(cfgs)[j] == cfgs[c][i]
  {
    if j < |cfgs[0]| {
      c, i := 0, j;
    } else {
      var c1, i1 := FlattenIndex(cfgs[1..], j - |cfgs[0]|);
      c, i := c1 + 1, i1;
    }
  }

  /** `_get_dfu_devices`: the devices on the bus that pass the filter, in bus
      order. */
  function DfuDevices(vid: Option<nat>, pid: Option<nat>, bus: seq<Device>): seq<Device>
  {
    if bus == [] then []
    else (if FilterDfu(vid, pid, bus[0].info) then [bus[0]] else []) + DfuDevices(vid, pid, bus[1..])
  }

  /** A device is listed exactly when it is on the bus and passes the
      filter. */
  lemma {:induction false} DfuDevicesSpec(vid: Option<nat>, pid: Option<nat>, bus: seq<Device>, d: Device)
    ensures d in DfuDevices(vid, pid, bus) <==> d in bus && FilterDfu(vid, pid, d.info)
  {
    if bus != [] {
      DfuDevicesSpec(vid, pid, bus[1..], d);
      assert d in bus <==> d == bus[0] || d in bus[1..];
    }
  }

  /** The decimal numeral of `n`, as an f-string prints it. */
  function DecimalString(n: nat): (s: string)
    ensures s != []
  {
    if n < 10 then [('0' as int + n) as char]
    else DecimalString(n / 10) + [('0' as int + n % 10) as char]
  }

  /** Reading the numeral back gives the number. */
  lemma {:induction false} DecimalStringValue(n: nat)
    ensures Decimal(DecimalString(n)) == n
    ensures forall k :: 0 <= k < |DecimalString(n)| ==> IsDigit(DecimalString(n)[k])
  {
    var s := DecimalString(n);
    if n < 10 {
      assert s[..0] == [];
    } else {
      DecimalStringValue(n / 10);
      assert s[..|s| - 1] == DecimalString(n / 10);
    }
  }

  const NoDevices: string := "No devices found in DFU mode"

  function TooManyDevices(n: nat): string
  {
    "Too many devices in DFU mode (" + DecimalString(n) + "). List devices for more info and specify vid:pid to filter."
  }

  /** The device `download` uses: the only one in DFU mode. */
  function SelectDevice(vid: Option<nat>, pid: Option<nat>, bus: seq<Device>): (r: Result<Device>)
    ensures r.Ok? <==> |DfuDevices(vid, pid, bus)| == 1
    ensures r.Ok? ==> r.value in bus && FilterDfu(vid, pid, r.value.info)
    ensures |DfuDevices(vid, pid, bus)| == 0 ==> r == Err(RuntimeError(NoDevices))
    ensures |DfuDevices(vid, pid, bus)| > 1 ==> r == Err(RuntimeError(TooManyDevices(|DfuDevices(vid, pid, bus)|)))
  {
    var devices := DfuDevices(vid, pid, bus);
    if |devices| == 0 then Err(RuntimeError(NoDevices))
    else if |devices| > 1 then Err(RuntimeError(TooManyDevices(|devices|)))
    else
      DfuDevicesSpec(vid, pid, bus, devices[0]);
      Ok(devices[0])
  }

  // ---------------------------------------------------------------------------
  // Chunks

  /** The chunks the download loops send, starting at offset `from`: each
      `min(xfer_size, len(data) - bytes_downloaded)` bytes. */
  function Chunks(data: seq<Byte>, xfer: nat, from: nat): seq<seq<Byte>>
    requires xfer > 0 && from <= |data|
    decreases |data| - from
  {
    if from == |data| then []
    else
      var size := Min(xfer, |data| - from);
      [data[from..from + size]] + Chunks(data, xfer, from + size)
  }

  function Concat(chunks: seq<seq<Byte>>): seq<Byte>
  {
    if chunks == [] then [] else chunks[0] + Concat(chunks[1..])
  }

  /** The chunks put back together are the rest of the data. */
  lemma {:induction false} ChunksConcat(data: seq<Byte>, xfer: nat, from: nat)
    requires xfer > 0 && from <= |data|
    ensures Concat(Chunks(data, xfer, from)) == data[from..]
    decreases |data| - from
  {
    if from < |data| {
      var size := Min(xfer, |data| - from);
      ChunksConcat(data, xfer, from + size);
      assert data[from..from + size] + data[from + size..] == data[from..];
    }
  }

  lemma MulSucc(k: nat, x: nat)
    ensures k * x + x == (k + 1) * x
  {
  }

  /** Chunk `k` from offset `from` is bytes `from + k * xfer` up to
      `from + (k + 1) * xfer` (or the end), so all chunks but the last are
      full. */
  lemma {:induction false} ChunkAt(data: seq<Byte>, xfer: nat, from: nat, k: nat)
    requires xfer > 0 && from <= |data|
    requires k < |Chunks(data, xfer, from)|
    ensures from + k * xfer < |data|
    ensures Chunks(data, xfer, from)[k] == data[from + k * xfer..Min(from + k * xfer + xfer, |data|)]
    decreases k
  {
    var size := Min(xfer, |data| - from);
    if k > 0 {
      ChunkAt(data, xfer, from + xfer, k - 1);
      MulSucc(k - 1, xfer);
    }
  }

  /** `ceil(n / x)`, counted by subtraction. */
  function CeilDiv(n: nat, x: nat): (c: nat)
    requires x > 0
    decreases n
  {
    if n == 0 then 0 else if n <= x then 1 else 1 + CeilDiv(n - x, x)
  }

  /** `CeilDiv(n, x)` is the least `c` with `c * x >= n`. */
  lemma {:induction false} CeilDivBounds(n: nat, x: nat)
    requires x > 0
    ensures CeilDiv(n, x) * x >= n
    ensures CeilDiv(n, x) > 0 ==> (CeilDiv(n, x) - 1) * x < n
    decreases n
  {
    if n > x {
      CeilDivBounds(n - x, x);
      MulSucc(CeilDiv(n - x, x), x);
      if CeilDiv(n - x, x) > 0 {
        MulSucc(CeilDiv(n - x, x) - 1, x);
      }
    }
  }

  /** There are `ceil((len(data) - from) / xfer)` chunks. */
  lemma {:induction false} ChunkCount(data: seq<Byte>, xfer: nat, from: nat)
    requires xfer > 0 && from <= |data|
    ensures |Chunks(data, xfer, from)| == CeilDiv(|data| - from, xfer)
    decreases |data| - from
  {
    if from < |data| {
      var size := Min(xfer, |data| - from);
      ChunkCount(data, xfer, from + size);
    }
  }

  // ---------------------------------------------------------------------------
  // _dfu_download

  /** The last, zero-length download: a USBError whose text contains
      "Pipe error" is ignored, anything else propagates. */
  function FinalDownloadSpec(l: Link, intf: int): (r: (Outcome, Link))
    ensures Extends(l, r.1)
  {
    var x := Dfu.DownloadSpec(l, intf, 0, None, Timeout);
    if x.0.Fail? && x.0.error.UsbFailure? && Contains(x.0.error.text, "Pipe error") then (Pass, x.1)
    else x
  }

  /** The chunk loop of `_dfu_download` from `from` bytes sent and
      transaction `transaction`. With a transfer size of 0 the source loops
      sending empty chunks; here that ends when the device stops answering. */
  function DfuChunksSpec(l: Link, intf: int, data: seq<Byte>, xfer: nat, from: nat, transaction: nat): (r: (Outcome, Link))
    requires from <= |data|
    ensures Extends(l, r.1)
    decreases |data| - from, |l.script|, 1
  {
    if from == |data| then (Pass, l) else DfuChunkPass(l, intf, data, xfer, from, transaction)
  }

  /** One pass of that loop: download the next chunk, then go on with the
      rest unless the download failed. */
  function DfuChunkPass(l: Link, intf: int, data: seq<Byte>, xfer: nat, from: nat, transaction: nat): (r: (Outcome, Link))
    requires from < |data|
    ensures Extends(l, r.1)
    decreases |data| - from, |l.script|, 0
  {
    var size := Min(xfer, |data| - from);
    var x := Dfu.DownloadSpec(l, intf, transaction, Some(data[from..from + size]), Timeout);
    if x.0.Fail? then x
    else DfuChunksSpec(x.1, intf, data, xfer, from + size, transaction + 1)
  }

  /** `_dfu_download`. */
  function DfuDownloadSpec(l: Link, intf: int, data: seq<Byte>, xfer: nat): (r: (Outcome, Link))
    ensures Extends(l, r.1)
  {
    var c := DfuChunksSpec(l, intf, data, xfer, 0, 0);
    if c.0.Fail? then c else FinalDownloadSpec(c.1, intf)
  }

  /** One DNLOAD per chunk, with transactions `t`, `t + 1`, ... */
  function DfuRequests(intf: int, chunks: seq<seq<Byte>>, t: nat): seq<Transfer>
  {
    if chunks == [] then []
    else [Dfu.DownloadRequest(intf, t, Some(chunks[0]), Timeout)] + DfuRequests(intf, chunks[1..], t + 1)
  }

  lemma {:induction false} DfuRequestsAt(intf: int, chunks: seq<seq<Byte>>, t: nat, k: nat)
    requires k < |chunks|
    ensures |DfuRequests(intf, chunks, t)| == |chunks|
    ensures DfuRequests(intf, chunks, t)[k] == Dfu.DownloadRequest(intf, t + k, Some(chunks[k]), Timeout)
  {
    if k > 0 {
      DfuRequestsAt(intf, chunks[1..], t + 1, k - 1);
    } else if |chunks| > 1 {
      DfuRequestsAt(intf, chunks[1..], t + 1, 0);
    }
  }

  /** A chunk loop that completes has sent each chunk once, in order, with
      consecutive transaction numbers. */
  lemma {:induction false} DfuChunksSent(l: Link, intf: int, data: seq<Byte>, xfer: nat, from: nat, transaction: nat)
    requires xfer > 0 && from <= |data|
    requires DfuChunksSpec(l, intf, data, xfer, from, transaction).0 == Pass
    ensures Dfu.Dnloads(DfuChunksSpec(l, intf, data, xfer, from, transaction).1.trace)
      == Dfu.Dnloads(l.trace) + DfuRequests(intf, Chunks(data, xfer, from), transaction)
    decreases |data| - from
  {
    if from < |data| {
      var size := Min(xfer, |data| - from);
      var chunk := data[from..from + size];
      var x := Dfu.DownloadSpec(l, intf, transaction, Some(chunk), Timeout);
      var k := DfuChunksSpec(x.1, intf, data, xfer, from + size, transaction + 1);
      assert x.0 == Pass && DfuChunksSpec(l, intf, data, xfer, from, transaction) == k by {
        DfuChunksUnfold(l, intf, data, xfer, from, transaction);
      }
      var rq := Dfu.DownloadRequest(intf, transaction, Some(chunk), Timeout);
      var rest := DfuRequests(intf, Chunks(data, xfer, from + size), transaction + 1);
      assert DfuRequests(intf, Chunks(data, xfer, from), transaction) == [rq] + rest by {
        var cs := Chunks(data, xfer, from);
        assert cs == [chunk] + Chunks(data, xfer, from + size);
        assert cs[0] == chunk && cs[1..] == Chunks(data, xfer, from + size);
      }
      Dfu.DownloadDnloads(l, intf, transaction, Some(chunk), Timeout);
      assert Dfu.Dnloads(x.1.trace) == Dfu.Dnloads(l.trace) + [rq];
      DfuChunksSent(x.1, intf, data, xfer, from + size, transaction + 1);
      assert Dfu.Dnloads(k.1.trace) == Dfu.Dnloads(x.1.trace) + rest;
      DnloadsCompose(l.trace, x.1.trace, k.1.trace, [rq], rest);
    }
  }

  /** One turn of the plain DFU chunk loop. */
  lemma DfuChunksUnfold(l: Link, intf: int, data: seq<Byte>, xfer: nat, from: nat, transaction: nat)
    requires from < |data|
    ensures var size := Min(xfer, |data| - from);
      var x := Dfu.DownloadSpec(l, intf, transaction, Some(data[from..from + size]), Timeout);
      DfuChunksSpec(l, intf, data, xfer, from, transaction)
        == if x.0.Fail? then x else DfuChunksSpec(x.1, intf, data, xfer, from + size, transaction + 1)
  {
  }

  /** A plain DFU download that completes has sent, as DNLOAD requests, the
      chunks in order with transactions 0, 1, 2, ... and then one
      zero-length DNLOAD with transaction 0: `ceil(len / xfer) + 1`
      downloads in all. */
  lemma DfuDownloadSent(l: Link, intf: int, data: seq<Byte>, xfer: nat)
    requires xfer > 0
    requires DfuDownloadSpec(l, intf, data, xfer).0 == Pass
    ensures Dfu.Dnloads(DfuDownloadSpec(l, intf, data, xfer).1.trace)
      == Dfu.Dnloads(l.trace) + DfuRequests(intf, Chunks(data, xfer, 0), 0) + [Dfu.DownloadRequest(intf, 0, None, Timeout)]
    ensures |DfuRequests(intf, Chunks(data, xfer, 0), 0)| + 1 == CeilDiv(|data|, xfer) + 1
  {
    var c := DfuChunksSpec(l, intf, data, xfer, 0, 0);
    DfuChunksSent(l, intf, data, xfer, 0, 0);
    Dfu.DownloadDnloads(c.1, intf, 0, None, Timeout);
    ChunkCount(data, xfer, 0);
    if Chunks(data, xfer, 0) != [] {
      DfuRequestsAt(intf, Chunks(data, xfer, 0), 0, 0);
    }
  }

  // ---------------------------------------------------------------------------
  // _dfuse_download

  /** Page `p` of a segment starts at `addr + p * page_size`. */
  function PageAddr(seg: Segment, p: nat): int
  {
    seg.addr + p * seg.pageSize
  }

  /** The erase test: the page starts inside the image, its end included. */
  predicate InImage(a: int, start: int, len: nat)
  {
    start <= a <= start + len
  }

  /** The pages of `seg` from page `p` on that the erase loop erases. */
  function SegmentPages(seg: Segment, start: int, len: nat, p: nat): seq<int>
    decreases seg.numPages - p
  {
    if p >= seg.numPages then []
    else (if InImage(PageAddr(seg, p), start, len) then [PageAddr(seg, p)] else []) + SegmentPages(seg, start, len, p + 1)
  }

  /** The pages the erase loops erase, segment by segment, page by page. */
  function ErasePages(segs: seq<Segment>, start: int, len: nat): seq<int>
  {
    if segs == [] then [] else SegmentPages(segs[0], start, len, 0) + ErasePages(segs[1..], start, len)
  }

  lemma {:induction false} SegmentPagesSpec(seg: Segment, start: int, len: nat, p0: nat, a: int)
    ensures a in SegmentPages(seg, start, len, p0) <==>
      InImage(a, start, len) && exists p :: p0 <= p < seg.numPages && a == PageAddr(seg, p)
    decreases seg.numPages - p0
  {
    if p0 < seg.numPages {
      SegmentPagesSpec(seg, start, len, p0 + 1, a);
      if InImage(a, start, len) && exists p :: p0 <= p < seg.numPages && a == PageAddr(seg, p) {
        var p :| p0 <= p < seg.numPages && a == PageAddr(seg, p);
        if p > p0 {
          assert p0 + 1 <= p < seg.numPages && a == PageAddr(seg, p);
        }
      }
    }
  }

  /** A page is erased exactly when it is a page of some segment of the
      layout and starts inside the image (from `start` up to and including
      `start + len`). */
  lemma {:induction false} ErasePagesSpec(segs: seq<Segment>, start: int, len: nat, a: int)
    ensures a in ErasePages(segs, start, len) <==>
      InImage(a, start, len) && exists s, p :: 0 <= s < |segs| && 0 <= p < segs[s].numPages && a == PageAddr(segs[s], p)
  {
    if segs != [] {
      ErasePagesSpec(segs[1..], start, len, a);
      SegmentPagesSpec(segs[0], start, len, 0, a);
      if InImage(a, start, len) && exists s, p :: 0 <= s < |segs| && 0 <= p < segs[s].numPages && a == PageAddr(segs[s], p) {
        var s, p :| 0 <= s < |segs| && 0 <= p < segs[s].numPages && a == PageAddr(segs[s], p);
        if s > 0 {
          assert segs[1..][s - 1] == segs[s];
        }
      }
      if a in ErasePages(segs[1..], start, len) {
        var s, p :| 0 <= s < |segs[1..]| && 0 <= p < segs[1..][s].numPages && a == PageAddr(segs[1..][s], p);
        assert segs[s + 1] == segs[1..][s];
      }
    }
  }

  /** `page_erase` for each page in turn; the first failure stops the loop. */
  function EraseSpec(l: Link, intf: int, pages: seq<int>): (r: (Outcome, Link))
    ensures Extends(l, r.1)
    decreases |pages|
  {
    if pages == [] then (Pass, l)
    else
      var x := Dfuse.CommandSpec(l, intf, Dfuse.CmdErase, pages[0]);
      if x.0.Fail? then x else EraseSpec(x.1, intf, pages[1..])
  }

  lemma EraseCons(l: Link, intf: int, a: int, rest: seq<int>)
    ensures EraseSpec(l, intf, [a] + rest) ==
      var x := Dfuse.CommandSpec(l, intf, Dfuse.CmdErase, a);
      if x.0.Fail? then x else EraseSpec(x.1, intf, rest)
  {
    assert ([a] + rest)[1..] == rest;
  }

  /** Erasing two lists of pages is erasing the first, then, if that
      completes, the second. */
  lemma {:induction false} EraseAppend(l: Link, intf: int, a: seq<int>, b: seq<int>)
    ensures EraseSpec(l, intf, a + b) ==
      var x := EraseSpec(l, intf, a);
      if x.0.Fail? then x else EraseSpec(x.1, intf, b)
    decreases |a|
  {
    if a == [] {
      assert a + b == b;
    } else {
      var x := Dfuse.CommandSpec(l, intf, Dfuse.CmdErase, a[0]);
      assert (a + b)[0] == a[0] && (a + b)[1..] == a[1..] + b;
      if x.0.Pass? {
        EraseAppend(x.1, intf, a[1..], b);
      }
    }
  }

  lemma SegmentPagesStep(seg: Segment, start: int, len: nat, p: nat)
    requires p < seg.numPages
    ensures InImage(PageAddr(seg, p), start, len) ==>
      SegmentPages(seg, start, len, p) == [PageAddr(seg, p)] + SegmentPages(seg, start, len, p + 1)
    ensures !InImage(PageAddr(seg, p), start, len) ==>
      SegmentPages(seg, start, len, p) == SegmentPages(seg, start, len, p + 1)
  {
    if !InImage(PageAddr(seg, p), start, len) {
      assert [] + SegmentPages(seg, start, len, p + 1) == SegmentPages(seg, start, len, p + 1);
    }
  }

  /** One Erase command per page. */
  function EraseRequests(intf: int, pages: seq<int>): seq<Transfer>
  {
    if pages == [] then []
    else [Dfuse.CommandRequest(intf, Dfuse.CmdErase, pages[0])] + EraseRequests(intf, pages[1..])
  }

  lemma {:induction false} EraseSent(l: Link, intf: int, pages: seq<int>)
    requires EraseSpec(l, intf, pages).0 == Pass
    ensures Dfu.Dnloads(EraseSpec(l, intf, pages).1.trace) == Dfu.Dnloads(l.trace) + EraseRequests(intf, pages)
    decreases |pages|
  {
    if pages != [] {
      var x := Dfuse.CommandSpec(l, intf, Dfuse.CmdErase, pages[0]);
      Dfuse.CommandDnloads(l, intf, Dfuse.CmdErase, pages[0]);
      EraseSent(x.1, intf, pages[1..]);
    }
  }

  /** The DfuSe chunk loop from offset `from`: point the device at
      `start + from`, then download the chunk with transaction 2. */
  function DfuseChunksSpec(l: Link, intf: int, data: seq<Byte>, xfer: nat, start: int, from: nat): (r: (Outcome, Link))
    requires from <= |data|
    ensures Extends(l, r.1)
    decreases |data| - from, |l.script|, 1
  {
    if from == |data| then (Pass, l) else DfuseChunksPass(l, intf, data, xfer, start, from)
  }

  /** One pass of that loop, then the rest unless the pass failed. */
  function DfuseChunksPass(l: Link, intf: int, data: seq<Byte>, xfer: nat, start: int, from: nat): (r: (Outcome, Link))
    requires from < |data|
    ensures Extends(l, r.1)
    decreases |data| - from, |l.script|, 0
  {
    var size := Min(xfer, |data| - from);
    var x := DfuseChunkSpec(l, intf, data[from..from + size], start + from);
    if x.0.Fail? then x
    else DfuseChunksSpec(x.1, intf, data, xfer, start, from + size)
  }

  /** One pass of that loop: Set Address Pointer, then the chunk. */
  function DfuseChunkSpec(l: Link, intf: int, chunk: seq<Byte>, address: int): (r: (Outcome, Link))
    ensures Extends(l, r.1)
    ensures r.0.Pass? ==> |r.1.script| < |l.script|
  {
    var a := Dfuse.CommandSpec(l, intf, Dfuse.CmdSetAddress, address);
    if a.0.Fail? then a else Dfu.DownloadSpec(a.1, intf, 2, Some(chunk), Timeout)
  }

  lemma DfuseChunkSent(l: Link, intf: int, chunk: seq<Byte>, start: int, offset: int)
    requires DfuseChunkSpec(l, intf, chunk, start + offset).0 == Pass
    ensures Dfu.Dnloads(DfuseChunkSpec(l, intf, chunk, start + offset).1.trace) == Dfu.Dnloads(l.trace)
      + [Dfuse.CommandRequest(intf, Dfuse.CmdSetAddress, start + offset), Dfu.DownloadRequest(intf, 2, Some(chunk), Timeout)]
    ensures Dfu.Dnloads(DfuseChunkSpec(l, intf, chunk, start + offset).1.trace) == Dfu.Dnloads(l.trace)
      + DfuseRequests(intf, start, [chunk], offset)
  {
    assert [chunk][1..] == [];
    var a := Dfuse.CommandSpec(l, intf, Dfuse.CmdSetAddress, start + offset);
    Dfuse.CommandDnloads(l, intf, Dfuse.CmdSetAddress, start + offset);
    Dfu.DownloadDnloads(a.1, intf, 2, Some(chunk), Timeout);
  }

  /** A Set Address Pointer to `start + offset` and the chunk, for each
      chunk, the offset growing by the chunk's length. */
  function DfuseRequests(intf: int, start: int, chunks: seq<seq<Byte>>, offset: int): seq<Transfer>
  {
    if chunks == [] then []
    else
      [Dfuse.CommandRequest(intf, Dfuse.CmdSetAddress, start + offset), Dfu.DownloadRequest(intf, 2, Some(chunks[0]), Timeout)]
      + DfuseRequests(intf, start, chunks[1..], offset + |chunks[0]|)
  }

  lemma DfuseRequestsCons(intf: int, start: int, chunk: seq<Byte>, rest: seq<seq<Byte>>, offset: int)
    ensures DfuseRequests(intf, start, [chunk] + rest, offset)
      == DfuseRequests(intf, start, [chunk], offset) + DfuseRequests(intf, start, rest, offset + |chunk|)
  {
    assert ([chunk] + rest)[0] == chunk && ([chunk] + rest)[1..] == rest;
    assert [chunk][1..] == [];
  }

  lemma {:induction false} DfuseChunksSent(l: Link, intf: int, data: seq<Byte>, xfer: nat, start: int, from: nat)
    requires xfer > 0 && from <= |data|
    requires DfuseChunksSpec(l, intf, data, xfer, start, from).0 == Pass
    ensures Dfu.Dnloads(DfuseChunksSpec(l, intf, data, xfer, start, from).1.trace)
      == Dfu.Dnloads(l.trace) + DfuseRequests(intf, start, Chunks(data, xfer, from), from)
    decreases |data| - from, 1
  {
    if from < |data| {
      DfuseChunksPassSent(l, intf, data, xfer, start, from);
    }
  }

  /** The same, for one pass and the passes after it. */
  lemma {:induction false} DfuseChunksPassSent(l: Link, intf: int, data: seq<Byte>, xfer: nat, start: int, from: nat)
    requires xfer > 0 && from < |data|
    requires DfuseChunksPass(l, intf, data, xfer, start, from).0 == Pass
    ensures Dfu.Dnloads(DfuseChunksPass(l, intf, data, xfer, start, from).1.trace)
      == Dfu.Dnloads(l.trace) + DfuseRequests(intf, start, Chunks(data, xfer, from), from)
    decreases |data| - from, 0
  {
    var size := Min(xfer, |data| - from);
    var chunk := data[from..from + size];
    var x := DfuseChunkSpec(l, intf, chunk, start + from);
    DfuseChunkSent(l, intf, chunk, start, from);
    DfuseChunksSent(x.1, intf, data, xfer, start, from + size);
    DfuseRequestsOfChunks(intf, start, data, xfer, from);
    DnloadsCompose(l.trace, x.1.trace, DfuseChunksSpec(x.1, intf, data, xfer, start, from + size).1.trace,
      DfuseRequests(intf, start, [chunk], from),
      DfuseRequests(intf, start, Chunks(data, xfer, from + size), from + size));
  }

  /** The requests of the chunks from `from` are those of the first chunk,
      then those of the rest. */
  lemma DfuseRequestsOfChunks(intf: int, start: int, data: seq<Byte>, xfer: nat, from: nat)
    requires xfer > 0 && from < |data|
    ensures var size := Min(xfer, |data| - from);
      DfuseRequests(intf, start, Chunks(data, xfer, from), from)
      == DfuseRequests(intf, start, [data[from..from + size]], from)
         + DfuseRequests(intf, start, Chunks(data, xfer, from + size), from + size)
  {
    var size := Min(xfer, |data| - from);
    var chunk := data[from..from + size];
    assert Chunks(data, xfer, from) == [chunk] + Chunks(data, xfer, from + size);
    DfuseRequestsCons(intf, start, chunk, Chunks(data, xfer, from + size), from);
  }

  lemma DnloadsCompose(t0: seq<Event>, t1: seq<Event>, t2: seq<Event>, head: seq<Transfer>, rest: seq<Transfer>)
    requires Dfu.Dnloads(t1) == Dfu.Dnloads(t0) + head
    requires Dfu.Dnloads(t2) == Dfu.Dnloads(t1) + rest
    ensures Dfu.Dnloads(t2) == Dfu.Dnloads(t0) + (head + rest)
  {
  }

  /** `_dfuse_download`: clear the status, erase the pages the image
      covers, send the chunks, set the jump address, end with the empty
      download. */
  function DfuseDownloadSpec(l: Link, info: DeviceInfo, intf: int, data: seq<Byte>, xfer: nat, start: int): (r: (Outcome, Link))
    ensures Extends(l, r.1)
  {
    var c := Dfu.ClearStatusSpec(l, intf, Timeout);
    if c.0.Fail? then c
    else
      match MemoryLayoutSpec(info, intf, 0)
      case Err(e) => (Fail(e), c.1)
      case Ok(segs) => DfuseFlashSpec(c.1, intf, segs, data, xfer, start)
  }

  /** Erase, chunks, jump address and the empty download, once the layout
      is known. */
  function DfuseFlashSpec(l: Link, intf: int, segs: seq<Segment>, data: seq<Byte>, xfer: nat, start: int): (r: (Outcome, Link))
    ensures Extends(l, r.1)
  {
    var e := EraseSpec(l, intf, ErasePages(segs, start, |data|));
    if e.0.Fail? then e
    else
      var k := DfuseChunksSpec(e.1, intf, data, xfer, start, 0);
      if k.0.Fail? then k else DfuseFinishSpec(k.1, intf, start)
  }

  /** Set the jump address, then the empty download. */
  function DfuseFinishSpec(l: Link, intf: int, start: int): (r: (Outcome, Link))
    ensures Extends(l, r.1)
  {
    var a := Dfuse.CommandSpec(l, intf, Dfuse.CmdSetAddress, start);
    if a.0.Fail? then a else FinalDownloadSpec(a.1, intf)
  }

  lemma ClearStatusSendsNoDnload(l: Link, intf: int)
    ensures Dfu.Dnloads(Dfu.ClearStatusSpec(l, intf, Timeout).1.trace) == Dfu.Dnloads(l.trace)
  {
    var clr := Control(Dfu.ClearStatusRequest(intf, Timeout));
    Dfu.DnloadsAppend(l.trace, [clr]);
    assert Dfu.Dnloads([clr]) == Dfu.DnloadOf(clr) + Dfu.Dnloads([]);
  }

  /** Whatever its outcome, a DfuSe download first sends the CLRSTATUS of
      `clear_status`; everything else it sends comes after it. */
  lemma DfuseDownloadClearsFirst(l: Link, info: DeviceInfo, intf: int, data: seq<Byte>, xfer: nat, start: int)
    ensures var t := DfuseDownloadSpec(l, info, intf, data, xfer, start).1.trace;
      |t| > |l.trace| && t[..|l.trace| + 1] == l.trace + [Control(Dfu.ClearStatusRequest(intf, Timeout))]
  {
    var c := Dfu.ClearStatusSpec(l, intf, Timeout);
    var r := DfuseDownloadSpec(l, info, intf, data, xfer, start);
    assert c.1.trace == l.trace + [Control(Dfu.ClearStatusRequest(intf, Timeout))];
    assert c.1.trace <= r.1.trace;
  }

  /** A DfuSe download that completes read a layout, erased its pages in
      the image, sent each chunk after a Set Address Pointer to where it
      belongs, then pointed the device at `start` and sent the empty
      download: exactly those DNLOAD requests, in that order. */
  lemma DfuseDownloadSent(l: Link, info: DeviceInfo, intf: int, data: seq<Byte>, xfer: nat, start: int)
    requires xfer > 0
    requires DfuseDownloadSpec(l, info, intf, data, xfer, start).0 == Pass
    ensures MemoryLayoutSpec(info, intf, 0).Ok?
    ensures Dfu.Dnloads(DfuseDownloadSpec(l, info, intf, data, xfer, start).1.trace)
      == Dfu.Dnloads(l.trace)
         + EraseRequests(intf, ErasePages(MemoryLayoutSpec(info, intf, 0).value, start, |data|))
         + DfuseRequests(intf, start, Chunks(data, xfer, 0), 0)
         + [Dfuse.CommandRequest(intf, Dfuse.CmdSetAddress, start), Dfu.DownloadRequest(intf, 0, None, Timeout)]
  {
    var c := Dfu.ClearStatusSpec(l, intf, Timeout);
    ClearStatusSendsNoDnload(l, intf);
    var segs := MemoryLayoutSpec(info, intf, 0).value;
    DfuseFlashSent(c.1, intf, segs, data, xfer, start);
  }

  lemma DfuseFlashSent(l: Link, intf: int, segs: seq<Segment>, data: seq<Byte>, xfer: nat, start: int)
    requires xfer > 0
    requires DfuseFlashSpec(l, intf, segs, data, xfer, start).0 == Pass
    ensures Dfu.Dnloads(DfuseFlashSpec(l, intf, segs, data, xfer, start).1.trace)
      == Dfu.Dnloads(l.trace)
         + EraseRequests(intf, ErasePages(segs, start, |data|))
         + DfuseRequests(intf, start, Chunks(data, xfer, 0), 0)
         + [Dfuse.CommandRequest(intf, Dfuse.CmdSetAddress, start), Dfu.DownloadRequest(intf, 0, None, Timeout)]
  {
    FlashStages(l, intf, segs, data, xfer, start);
    var pages := ErasePages(segs, start, |data|);
    var e := EraseSpec(l, intf, pages);
    EraseSent(l, intf, pages);
    var k := DfuseChunksSpec(e.1, intf, data, xfer, start, 0);
    DfuseChunksSent(e.1, intf, data, xfer, start, 0);
    var a := Dfuse.CommandSpec(k.1, intf, Dfuse.CmdSetAddress, start);
    Dfuse.CommandDnloads(k.1, intf, Dfuse.CmdSetAddress, start);
    Dfu.DownloadDnloads(a.1, intf, 0, None, Timeout);
    FinalDownloadLink(a.1, intf);
    DnloadsChain(l.trace, e.1.trace, k.1.trace, a.1.trace, DfuseFlashSpec(l, intf, segs, data, xfer, start).1.trace,
      EraseRequests(intf, pages), DfuseRequests(intf, start, Chunks(data, xfer, 0), 0),
      Dfuse.CommandRequest(intf, Dfuse.CmdSetAddress, start), Dfu.DownloadRequest(intf, 0, None, Timeout));
  }

  /** The stages of a DfuSe flash that completes all pass, and the link it
      ends with is the one the final download leaves. */
  lemma FlashStages(l: Link, intf: int, segs: seq<Segment>, data: seq<Byte>, xfer: nat, start: int)
    requires DfuseFlashSpec(l, intf, segs, data, xfer, start).0 == Pass
    ensures var e := EraseSpec(l, intf, ErasePages(segs, start, |data|));
      var k := DfuseChunksSpec(e.1, intf, data, xfer, start, 0);
      var a := Dfuse.CommandSpec(k.1, intf, Dfuse.CmdSetAddress, start);
      e.0 == Pass && k.0 == Pass && a.0 == Pass
      && DfuseFlashSpec(l, intf, segs, data, xfer, start).1 == FinalDownloadSpec(a.1, intf).1
  {
  }

  /** Whether or not a pipe error is ignored, the final download leaves the
      link as the zero-length download does. */
  lemma FinalDownloadLink(l: Link, intf: int)
    ensures FinalDownloadSpec(l, intf).1 == Dfu.DownloadSpec(l, intf, 0, None, Timeout).1
  {
  }

  lemma DnloadsChain(t0: seq<Event>, t1: seq<Event>, t2: seq<Event>, t3: seq<Event>, t4: seq<Event>,
                     s1: seq<Transfer>, s2: seq<Transfer>, c: Transfer, d: Transfer)
    requires Dfu.Dnloads(t1) == Dfu.Dnloads(t0) + s1 && Dfu.Dnloads(t2) == Dfu.Dnloads(t1) + s2
    requires Dfu.Dnloads(t3) == Dfu.Dnloads(t2) + [c] && Dfu.Dnloads(t4) == Dfu.Dnloads(t3) + [d]
    ensures Dfu.Dnloads(t4) == Dfu.Dnloads(t0) + s1 + s2 + [c, d]
  {
    AppendPair(Dfu.Dnloads(t0) + s1 + s2, c, d);
  }

  lemma AppendPair(x: seq<Transfer>, c: Transfer, d: Transfer)
    ensures x + [c] + [d] == x + [c, d]
  {
  }

  // ---------------------------------------------------------------------------
  // download

  const NoDescriptor: string := "No DFU descriptor, is this a valid DFU device?"
  const NoAddress: string := "Must provide address for DfuSe"

  /** The body of `download` once the device is chosen: claim the
      interface, read the DFU descriptor, pick DfuSe or plain DFU by its
      version, and in the `finally` release the interface. */
  function RunSpec(l: Link, info: DeviceInfo, intf: int, data: seq<Byte>, address: Option<int>): (r: (Outcome, Link))
  {
    var cl := ClaimSpec(l, intf);
    var x :=
      if cl.0.Fail? then cl
      else
        match GetDfuDescriptor(info)
        case None => (Fail(ValueError(NoDescriptor)), cl.1)
        case Some(desc) =>
          if desc.bcdDFUVersion == Dfuse.DfuseVersion then
            if address.None? then (Fail(ValueError(NoAddress)), cl.1)
            else DfuseDownloadSpec(cl.1, info, intf, data, desc.wTransferSize, address.value)
          else DfuDownloadSpec(cl.1, intf, data, desc.wTransferSize);
    (x.0, DisposeSpec(x.1))
  }

  /** Whatever happens, the first thing done is the claim and the last the
      release of the interface. */
  lemma RunBrackets(l: Link, info: DeviceInfo, intf: int, data: seq<Byte>, address: Option<int>)
    ensures var t := RunSpec(l, info, intf, data, address).1.trace;
      |t| >= |l.trace| + 2 && t[..|l.trace| + 1] == l.trace + [Claim(intf)] && t[|t| - 1] == Dispose
  {
    var cl := ClaimSpec(l, intf);
    assert cl.1.trace == l.trace + [Claim(intf)];
  }

  /** A run that completes had a DFU descriptor, and an address whenever
      the device speaks DfuSe; without a descriptor, or a DfuSe device
      without an address, nothing but the claim and the release reach the
      device. */
  lemma RunPreconditions(l: Link, info: DeviceInfo, intf: int, data: seq<Byte>, address: Option<int>)
    ensures RunSpec(l, info, intf, data, address).0.Pass? ==>
      GetDfuDescriptor(info).Some? && (GetDfuDescriptor(info).value.bcdDFUVersion == Dfuse.DfuseVersion ==> address.Some?)
    ensures ClaimSpec(l, intf).0.Pass? && GetDfuDescriptor(info).None? ==>
      RunSpec(l, info, intf, data, address) == (Fail(ValueError(NoDescriptor)), Link(l.script[1..], l.trace + [Claim(intf), Dispose]))
    ensures ClaimSpec(l, intf).0.Pass? && GetDfuDescriptor(info).Some? && GetDfuDescriptor(info).value.bcdDFUVersion == Dfuse.DfuseVersion && address.None? ==>
      RunSpec(l, info, intf, data, address) == (Fail(ValueError(NoAddress)), Link(l.script[1..], l.trace + [Claim(intf), Dispose]))
  {
    assert l.trace + [Claim(intf)] + [Dispose] == l.trace + [Claim(intf), Dispose];
  }

  // ---------------------------------------------------------------------------
  // The code, on devices

  /** The empty download that ends both flows. */
  method FinalDownload(dev: Device, intf: int) returns (o: Outcome)
    modifies dev
    ensures (o, dev.State()) == FinalDownloadSpec(old(dev.State()), intf)
  {
    o := Dfu.Download(dev, intf, 0, None, Timeout);
    if o.Fail? && o.error.UsbFailure? && Contains(o.error.text, "Pipe error") {
      o := Pass;
    }
  }

  /** `_dfu_download`. */
  method DfuDownload(dev: Device, intf: int, data: seq<Byte>, xfer: nat) returns (o: Outcome)
    modifies dev
    ensures (o, dev.State()) == DfuDownloadSpec(old(dev.State()), intf, data, xfer)
  {
    var transaction, downloaded := 0, 0;
    while downloaded < |data|
      invariant downloaded <= |data|
      invariant DfuChunksSpec(dev.State(), intf, data, xfer, downloaded, transaction)
        == DfuChunksSpec(old(dev.State()), intf, data, xfer, 0, 0)
      decreases |data| - downloaded, |dev.script|
    {
      var size := Min(xfer, |data| - downloaded);
      ghost var before := dev.State();
      DfuChunksUnfold(before, intf, data, xfer, downloaded, transaction);
      o := Dfu.Download(dev, intf, transaction, Some(data[downloaded..downloaded + size]), Timeout);
      if o.Fail? {
        return;
      }
      transaction, downloaded := transaction + 1, downloaded + size;
    }
    o := FinalDownload(dev, intf);
  }

  /** The erase loops of `_dfuse_download`: over the segments ... */
  method Erase(dev: Device, intf: int, segs: seq<Segment>, start: int, len: nat) returns (o: Outcome)
    modifies dev
    ensures (o, dev.State()) == EraseSpec(old(dev.State()), intf, ErasePages(segs, start, len))
  {
    var s := 0;
    while s < |segs|
      invariant s <= |segs|
      invariant EraseSpec(dev.State(), intf, ErasePages(segs[s..], start, len))
        == EraseSpec(old(dev.State()), intf, ErasePages(segs, start, len))
    {
      assert segs[s..][0] == segs[s] && segs[s..][1..] == segs[s + 1..];
      ghost var before := dev.State();
      EraseAppend(before, intf, SegmentPages(segs[s], start, len, 0), ErasePages(segs[s + 1..], start, len));
      o := EraseSegment(dev, intf, segs[s], start, len);
      if o.Fail? {
        return;
      }
      s := s + 1;
    }
    o := Pass;
  }

  /** ... and over the pages of one segment. */
  method EraseSegment(dev: Device, intf: int, seg: Segment, start: int, len: nat) returns (o: Outcome)
    modifies dev
    ensures (o, dev.State()) == EraseSpec(old(dev.State()), intf, SegmentPages(seg, start, len, 0))
  {
    var p := 0;
    while p < seg.numPages
      invariant p <= seg.numPages
      invariant EraseSpec(dev.State(), intf, SegmentPages(seg, start, len, p))
        == EraseSpec(old(dev.State()), intf, SegmentPages(seg, start, len, 0))
    {
      var addr := PageAddr(seg, p);
      SegmentPagesStep(seg, start, len, p);
      if InImage(addr, start, len) {
        EraseCons(dev.State(), intf, addr, SegmentPages(seg, start, len, p + 1));
        o := Dfuse.PageErase(dev, intf, addr);
        if o.Fail? {
          return;
        }
      }
      p := p + 1;
    }
    o := Pass;
  }

  /** `_dfuse_download`. */
  method DfuseDownload(dev: Device, intf: int, data: seq<Byte>, xfer: nat, start: int) returns (o: Outcome)
    modifies dev
    ensures (o, dev.State()) == DfuseDownloadSpec(old(dev.State()), dev.info, intf, data, xfer, start)
  {
    o := Dfu.ClearStatus(dev, intf, Timeout);
    if o.Fail? {
      return;
    }
    var layout := GetMemoryLayout(dev, intf, 0);
    if layout.Err? {
      return Fail(layout.error);
    }
    o := Flash(dev, intf, layout.value, data, xfer, start);
  }

  /** The part of `_dfuse_download` after the layout is read. */
  method Flash(dev: Device, intf: int, segs: seq<Segment>, data: seq<Byte>, xfer: nat, start: int) returns (o: Outcome)
    modifies dev
    ensures (o, dev.State()) == DfuseFlashSpec(old(dev.State()), intf, segs, data, xfer, start)
  {
    o := Erase(dev, intf, segs, start, |data|);
    if o.Fail? {
      return;
    }
    o := DfuseChunks(dev, intf, data, xfer, start);
    if o.Fail? {
      return;
    }
    o := Dfuse.SetAddress(dev, intf, start);
    if o.Fail? {
      return;
    }
    o := FinalDownload(dev, intf);
  }

  /** The chunk loop of `_dfuse_download`. */
  method DfuseChunks(dev: Device, intf: int, data: seq<Byte>, xfer: nat, start: int) returns (o: Outcome)
    modifies dev
    ensures (o, dev.State()) == DfuseChunksSpec(old(dev.State()), intf, data, xfer, start, 0)
  {
    ghost var erased := dev.State();
    var downloaded := 0;
    while downloaded < |data|
      invariant downloaded <= |data|
      invariant DfuseChunksSpec(dev.State(), intf, data, xfer, start, downloaded)
        == DfuseChunksSpec(erased, intf, data, xfer, start, 0)
      decreases |data| - downloaded, |dev.script|
    {
      o, downloaded := DfuseChunk(dev, intf, data, xfer, start, downloaded);
      if o.Fail? {
        return;
      }
    }
    o := Pass;
  }

  /** One pass of the DfuSe chunk loop: Set Address Pointer, then the chunk;
      `next` is the offset the loop goes on from. */
  method DfuseChunk(dev: Device, intf: int, data: seq<Byte>, xfer: nat, start: int, from: nat)
    returns (o: Outcome, next: nat)
    requires from < |data|
    modifies dev
    ensures o.Fail? ==> (o, dev.State()) == DfuseChunksPass(old(dev.State()), intf, data, xfer, start, from)
    ensures o.Pass? ==> next == from + Min(xfer, |data| - from) && |dev.script| < |old(dev.script)|
    ensures o.Pass? ==>
      DfuseChunksSpec(dev.State(), intf, data, xfer, start, next) == DfuseChunksPass(old(dev.State()), intf, data, xfer, start, from)
  {
    var size := Min(xfer, |data| - from);
    next := from + size;
    o := Dfuse.SetAddress(dev, intf, start + from);
    if o.Fail? {
      return;
    }
    o := Dfu.Download(dev, intf, 2, Some(data[from..next]), Timeout);
  }

  /** `download` on the chosen device. */
  method Run(dev: Device, intf: int, data: seq<Byte>, address: Option<int>) returns (o: Outcome)
    modifies dev
    ensures (o, dev.State()) == RunSpec(old(dev.State()), dev.info, intf, data, address)
  {
    o := dev.ClaimInterface(intf);
    if o.Pass? {
      var desc := GetDfuDescriptor(dev.info);
      if desc.None? {
        o := Fail(ValueError(NoDescriptor));
      } else if desc.value.bcdDFUVersion == Dfuse.DfuseVersion {
        if address.None? {
          o := Fail(ValueError(NoAddress));
        } else {
          o := DfuseDownload(dev, intf, data, desc.value.wTransferSize, address.value);
        }
      } else {
        o := DfuDownload(dev, intf, data, desc.value.wTransferSize);
      }
    }
    dev.DisposeResources();
  }

  /** `download`: choose the device, then run on it; only that device is
      touched. */
  method Download(bus: seq<Device>, vid: Option<nat>, pid: Option<nat>, intf: int, data: seq<Byte>, address: Option<int>)
    returns (o: Outcome)
    modifies if SelectDevice(vid, pid, bus).Ok? then {SelectDevice(vid, pid, bus).value} else {}
    ensures SelectDevice(vid, pid, bus).Err? ==> o == Fail(SelectDevice(vid, pid, bus).error)
    ensures SelectDevice(vid, pid, bus).Ok? ==>
      var dev := SelectDevice(vid, pid, bus).value;
      (o, dev.State()) == RunSpec(old(dev.State()), dev.info, intf, data, address)
  {
    var selected := SelectDevice(vid, pid, bus);
    if selected.Err? {
      return Fail(selected.error);
    }
    o := Run(selected.value, intf, data, address);
  }
}
