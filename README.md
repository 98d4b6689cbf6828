# pyfu-usb in Dafny

A model of the firmware-flashing core of pyfu-usb, a Python tool that writes a
firmware image to a USB device over the Device Firmware Upgrade protocol
(USB DFU 1.1) and ST's DfuSe extension of it (application note AN3156), with
proofs about that model.

The USB transport (pyusb) is replaced by an abstract device, `Usb.Device`. Its
descriptors are fixed values. Every control transfer and every interface claim
is answered from a finite script of replies. Every request the code issues is
appended to a trace. An exhausted script answers like a device that has timed
out. Every operation is modelled twice:

- a specification function from the link state before (`Usb.Link(script,
  trace)`) to the outcome and the link state after;
- a method on the device object, proved to follow that function.

Properties are stated as lemmas about the specification functions: which
requests are sent, in which order, with which payloads and transaction numbers,
and when an operation succeeds or fails.

Modules, one file each:

| module | file | models |
|---|---|---|
| `Base` | base.dfy | bytes, little-endian integers, `Result`/`Outcome`, the Python exceptions as an `Error` datatype |
| `Crc` | crc.dfy | the reflected CRC-32 of `zlib.crc32`, and the container checksum `_compute_crc` |
| `Struct` | struct.dfy | `struct.pack`/`unpack`/`calcsize` for the `<` formats, and `_consume` |
| `Utf8` | utf8.dfy | strict UTF-8 decoding, and `_cstring` |
| `Layout` | layout.dfy | the memory-layout string `/base/N*SZmc,...`: `str.split`, `int(s, 0)`, `re.match(r"(\d+)\*(\d+)(.)(.)")`, and the segment loop shared by both layout parsers |
| `Parser` | parser.dfy | pfu_util/parser.py: `parse_memory_layout`, `parse_bin_file`, `parse_dfu_file` |
| `Usb` | usb.dfy | the abstract device |
| `Dfu` | dfu.dfy | pyfu/dfu.py: `get_state`, `clear_status`, `download` (claiming and releasing the interface are `Usb.Device.ClaimInterface` and `Usb.Device.DisposeResources`) |
| `Protocol` | protocol.dfy | pfu_util/protocol.py: `_get_status`, `_set_address`, `clear_status`, `mass_erase`, `exit_dfu` |
| `Descriptor` | descriptor.dfy | pyfu_usb/descriptor.py: `get_dfu_descriptor`, `get_memory_layout` |
| `Dfuse` | dfuse.dfy | pyfu_usb/dfuse.py: `set_address`, `page_erase`, `DFUSE_VERSION_NUMBER` |
| `Orchestrator` | orchestrator.dfy | pyfu_usb/__init__.py: `FilterDFU`, `_dfu_download`, `_dfuse_download`, `download` |

Behaviour worth noting:

- `download` in pyfu_usb sends the raw bytes of the file. It does not decode a
  `.dfu` container first.
- The DfuSe memory layout is read after `clear_status` has already sent its
  CLRSTATUS request.
- `parse_bin_file` names the address key `address`, while `parse_dfu_file`
  names it `addr` (`Parser.BinElement` and `Parser.Element`).
- `clear_status` in pyfu/dfu.py sends one CLRSTATUS and does not poll.
- `clear_status` in pfu_util/protocol.py loops until the device is idle.
- With a transfer size of 0, the chunk loops of `_dfu_download` and
  `_dfuse_download` send empty chunks for ever. The methods model that loop
  as written; here it ends when the device's script runs out. The lemmas that
  count chunks and requests require a transfer size above 0.

## Model

| member | source | states |
|---|---|---|
| Crc.ComputeCrcIsComplement | pfu_util/parser.py:30-32 | `_compute_crc(d)` lies in [0, 2^32) and equals `0xFFFFFFFF - crc32(d)`, the bitwise complement of zlib's CRC-32 |
| Crc.ComputeCrcIsRegister | pfu_util/parser.py:30-32 | `_compute_crc(d)` is the CRC shift register before zlib's final inversion; its four little-endian bytes are the register's bytes |
| Crc.CheckValue | pfu_util/parser.py:32 | on the ASCII digits "123456789" the CRC-32 model gives the standard check value 0xCBF43926, and `_compute_crc` gives 0x340BC6D9 |
| Crc.ValueOfNot | pfu_util/parser.py:32 | inverting every bit of a 32-bit register maps its value v to 0xFFFFFFFF - v |
| Struct.Unpack | pfu_util/parser.py:22 | `struct.unpack` succeeds exactly when the data is `calcsize` bytes long, and every value it gives fits its field |
| Struct.UnpackPack | pfu_util/parser.py:22 | unpacking what `struct.pack` produced gives back the values |
| Struct.PackUnpack | pfu_util/parser.py:22 | packing what `struct.unpack` produced gives back the bytes |
| Struct.UnpackAt | pfu_util/parser.py:22 | field i is decoded from the `Width(fields[i])` bytes at offset `Offset(fields, i)` |
| Struct.Consume | pfu_util/parser.py:17-22 | `_consume` fails exactly when fewer than `calcsize` bytes remain; on success its values fit the format and it strips exactly `calcsize` bytes |
| Struct.ConsumeSplits | pfu_util/parser.py:17-22 | the consumed struct, packed again, followed by the rest is the input |
| Struct.ConsumePacked | pfu_util/parser.py:17-22 | consuming a packed struct followed by any bytes gives back the values and exactly those bytes |
| Struct.FormatSizes | pfu_util/parser.py:137-203 | the prefix `<5sBIB` is 11 bytes, the target prefix `<6sBI255s2I` 274, the element header `<2I` 8 and the suffix `<4H3sBI` 16 |
| Utf8.DecodeEncode | pfu_util/parser.py:27 | decoding the UTF-8 encoding of any string gives back that string |
| Utf8.DecodeAscii | pfu_util/parser.py:27 | bytes below 0x80 decode to the characters with those codes, one per byte |
| Utf8.CString | pfu_util/parser.py:25-27 | `_cstring` succeeds exactly when the whole field is valid UTF-8, and its result holds no NUL |
| Utf8.CStringOfName | pfu_util/parser.py:25-27 | a NUL-free name, terminated and padded, reads back as exactly the name when the padding decodes; otherwise UnicodeDecodeError, even though the bad bytes follow the terminator |
| Layout.JoinSplit | pfu_util/parser.py:50 | joining the pieces of `str.split(sep)` with `sep` gives back the string |
| Layout.SplitJoin | pfu_util/parser.py:52 | splitting a join of separator-free pieces gives back the pieces |
| Layout.IntBase0Decimal | pfu_util/parser.py:51 | `int(s, 0)` of a decimal numeral without a leading zero is its decimal value |
| Layout.ExampleBase | pyfu_usb/descriptor.py:94 | `int("0x08000000", 0)` is 0x08000000 |
| Layout.DigitRunDigits | pyfu_usb/descriptor.py:96 | the digit run at a position is maximal: all digits, and followed by a non-digit or the end |
| Layout.BacktrackLongest | pyfu_usb/descriptor.py:96 | the second `\d+` group backtracks to the longest run that still leaves two characters for `(.)(.)` |
| Layout.MatchFails | pyfu_usb/descriptor.py:96-101 | the pattern fails exactly when there is no leading digit run, no `*` after it, or no digits after the `*` that leave two non-newline characters |
| Layout.MatchOf | pyfu_usb/descriptor.py:96-105 | a token of digits, `*`, digits, then two non-newline characters matches with exactly those four groups; the match is prefix-only |
| Layout.SegmentsMatchTokens | pyfu_usb/descriptor.py:99-101 | the segment list is produced exactly when every comma-separated token matches the pattern |
| Layout.SegmentsContiguous | pfu_util/parser.py:55-72 | one segment per token; each has `size = num_pages * page_size` and `last_addr = addr + size - 1`; the first starts at the base, each later one at the previous `last_addr + 1` |
| Layout.SegmentsReadTokens | pfu_util/parser.py:57-63 | each segment's page count and page size are the decimal groups of its token; 'K' scales the page size by 1024, 'M' by 1048576, any other character leaves it |
| Layout.ExampleSegments | pyfu_usb/descriptor.py:94-135 | the tokens `04*016Kg`, `01*064Kg` and `07*128Kg` at base 0x08000000 match the pattern and give (0x08000000, 4 x 16384), (0x08010000, 1 x 65536) and (0x08020000, 7 x 131072) |
| Layout.ExampleLayout | tests/test_descriptor.py:52-80 | the STM32F2 string `/0x08000000/04*016Kg,01*064Kg,07*128Kg` parses to exactly those three segments |
| Layout.LayoutContiguous | pyfu_usb/descriptor.py:93-135 | a parsed layout has one segment per comma-separated token of the third '/' piece, at least one; the first starts at `int(parts[1], 0)`, each ends at `addr + size - 1`, and each later one starts right after the previous one |
| Layout.TokenMatch | pyfu_usb/descriptor.py:96-105 | a token such as `04*016Kg` matches with groups "04", "016", 'K', 'g', and those read as 4 and 16 |
| Layout.ReadSegments | pfu_util/parser.py:54-73 | the segment loop, advancing `addr` and appending to the result, computes the segment list of the tokens |
| Layout.ReadLayout | pfu_util/parser.py:50-73 | reading a layout string (split on '/', base by `int(_, 0)`, tokens split on ',') follows `ParseLayout`, including its IndexError, ValueError and no-match failures |
| Parser.ParseMemoryLayout | pfu_util/parser.py:35-73 | `parse_memory_layout`: the layout parse, where a token that does not match raises AttributeError |
| Parser.ParseBinFile | pfu_util/parser.py:75-104 | None exactly when the file cannot be read; otherwise one element, numbered 0, holding the address given, the whole image and its length |
| Parser.ParseDfuFile | pfu_util/parser.py:108-218 | the nested target and element loops, re-slicing the data and appending elements, compute `ParseDfu` |
| Parser.ReadElements | pfu_util/parser.py:173-188 | the element loop of one target gives exactly that target's elements, appended after those read before, or the error that stopped it |
| Parser.ParseDfuAccepts | pfu_util/parser.py:126-218 | the file yields elements exactly when the prefix and every target parse, exactly 16 bytes remain for the suffix, and the last four bytes, read little-endian, equal `_compute_crc` of everything before them; the elements are all targets' elements in file order |
| Parser.CrcMismatchRefused | pfu_util/parser.py:210-212 | a file whose CRC field differs from the checksum of the bytes before it yields no elements |
| Parser.SuffixDecision | pfu_util/parser.py:202-216 | after the targets, the suffix check passes exactly when exactly 16 bytes remain and their last four match the checksum; trailing bytes after the suffix are refused |
| Parser.SuffixCrcField | pfu_util/parser.py:202-205 | the `crc` field of a 16-byte suffix is its last four bytes, little-endian |
| Parser.ElementsShape | pfu_util/parser.py:173-188 | a target yields as many elements as its header states; element k has `num` k, u32 `addr` and `size` from its header, and at most `size` data bytes |
| Parser.ElementsEncode | pfu_util/parser.py:173-188 | the elements read, each re-encoded as its 8-byte header followed by its data, followed by what is left, give back the target's bytes |
| Parser.ElementsShort | pfu_util/parser.py:184-188 | only the last element can hold fewer data bytes than its `size` says, and then nothing is left |
| Parser.DecodeEncodeElements | pfu_util/parser.py:173-188 | encoding elements whose data fill their `size`, followed by any bytes, reads back as exactly those elements and those bytes |
| Parser.ElementsSuffix | pfu_util/parser.py:171-191 | the elements read only from the target's own bytes; what they leave is a tail of those bytes, and it is not an error |
| Parser.TargetsEncode | pfu_util/parser.py:144-191 | the targets read are laid out in the input: one block per target, each its 274-byte prefix (name decodable), its elements re-encoded and slack within its `size`, followed by what is left; the elements are the blocks' elements in order |
| Parser.TargetsSuffix | pfu_util/parser.py:144-172 | what follows the targets is a tail of the input |
| Usb.Exchange | pyfu/dfu.py:40-42 | a request always joins the trace; it takes exactly one reply, which is returned as data or raised as a USBError, or it times out when none is left |
| Usb.Device.ControlTransfer | pyfu/dfu.py:82-89 | a control transfer updates the device as `Transact` says |
| Usb.Device.ClaimInterface | pyfu/dfu.py:99-107 | claiming records the claim and may fail like any request |
| Usb.Device.DisposeResources | pyfu/dfu.py:110-117 | releasing records the release and never fails |
| Dfu.GetStateSpec | pyfu/dfu.py:24-49 | `get_state` sends exactly one GETSTATUS and takes one reply. It returns byte 4 of that reply exactly when the reply has 5 or more bytes and byte 4 is not dfuERROR. It raises RuntimeError("Device error") exactly on dfuERROR and IndexError exactly on a shorter reply. A failed transfer raises its USBError, and no reply is a timeout |
| Dfu.GetState | pyfu/dfu.py:24-49 | `get_state` on a device follows `GetStateSpec`: byte 4 of the reply, RuntimeError on dfuERROR |
| Dfu.ClearStatus | pyfu/dfu.py:52-62 | `clear_status` sends one CLRSTATUS and does not poll |
| Dfu.Download | pyfu/dfu.py:65-96 | `download` on a device follows `DownloadSpec`: one DNLOAD, then polling until idle |
| Dfu.PollClosedForm | pyfu/dfu.py:92-96 | the poll loop reads statuses until the first reply that is not a busy state, and ends at that reply |
| Dfu.PollPass | pyfu/dfu.py:92-96 | polling succeeds exactly when, after the busy replies, the device reports dfuIDLE or dfuDNLOAD-IDLE; dfuERROR raises "Device error" and no further request is made |
| Dfu.DownloadTrace | pyfu/dfu.py:82-96 | `download` sends exactly one DNLOAD, before anything else, and after it only GETSTATUS requests |
| Dfu.DownloadDnloads | pyfu/dfu.py:82-89 | whatever its outcome, `download` adds exactly one DNLOAD, carrying its transaction and block |
| Dfu.BusyRunSpec | pyfu/dfu.py:92-95 | the busy run at the head of the script is all busy replies, followed by a non-busy reply or the end |
| Protocol.GetStatusSpec | pfu_util/protocol.py:55-72 | `_get_status` sends one GETSTATUS and takes one reply. It returns byte 4 of that reply exactly when the reply has 5 or more bytes and byte 4 is at most dfuERROR (0x0A). It raises IndexError exactly on a shorter reply or a byte above 0x0A. A failed transfer raises its USBError, and no reply is a timeout |
| Protocol.GetStatus | pfu_util/protocol.py:55-72 | `_get_status` on a device: byte 4, IndexError beyond the eleven named states |
| Protocol.CheckedDownloadPasses | pfu_util/protocol.py:86-96 | the command passes exactly when the DNLOAD is accepted and the next two statuses are dfuDNLOAD-BUSY then dfuDNLOAD-IDLE; it then sent DNLOAD, GETSTATUS, GETSTATUS |
| Protocol.SetAddressSends | pfu_util/protocol.py:86-88 | `_set_address` first sends [0x21, a0, a1, a2, a3] to interface 0; an address that does not fit 32 bits raises before any request |
| Protocol.SetAddress | pfu_util/protocol.py:75-96 | `_set_address` on a device follows `SetAddressSpec` |
| Protocol.MassErase | pfu_util/protocol.py:139-160 | `mass_erase` sends the single byte 0x41 with the same BUSY-then-IDLE check |
| Protocol.ClearLoopPass | pfu_util/protocol.py:126-136 | a loop that returns used two replies per round and added one request per reply. It does no round exactly when the first status was already dfuIDLE or dfuDNLOAD-IDLE. Otherwise every CLRSTATUS was accepted, every status before the last one was another named state, and the last one is dfuIDLE or dfuDNLOAD-IDLE |
| Protocol.ClearLoopTrace | pfu_util/protocol.py:126-136 | the loop's requests alternate CLRSTATUS and GETSTATUS, starting with CLRSTATUS, and a loop that returns has done whole rounds |
| Protocol.ClearStatusIdle | pfu_util/protocol.py:126-130 | when the first status is dfuIDLE or dfuDNLOAD-IDLE, `clear_status` sends no CLRSTATUS at all |
| Protocol.ClearStatus | pfu_util/protocol.py:117-136 | `clear_status` on a device: the while loop follows `ClearStatusSpec` |
| Protocol.ExitDfuIgnoresStatus | pfu_util/protocol.py:163-184 | errors of the set-address step propagate; once it and the zero-length DNLOAD succeed, `exit_dfu` succeeds whatever the final status read gives |
| Protocol.ExitDfu | pfu_util/protocol.py:163-184 | `exit_dfu` on a device follows `ExitDfuSpec` |
| Protocol.ClaimInterface | pfu_util/protocol.py:99-105 | the claim is on interface 0 |
| Protocol.ReleaseInterface | pfu_util/protocol.py:108-114 | the release disposes of the device's resources |
| Descriptor.DecodeLittleEndian | pyfu_usb/descriptor.py:57-62 | bmAttributes is byte 2, and wDetachTimeOut, wTransferSize and bcdDFUVersion are bytes 3-4, 5-6 and 7-8 read little-endian, each below 2^16 |
| Descriptor.DecodeEncode | pyfu_usb/descriptor.py:53-62 | a descriptor encoded as nine bytes of type 0x21 is recognised and decodes back to itself |
| Descriptor.FirstDescriptorNone | pyfu_usb/descriptor.py:49-65 | `get_dfu_descriptor` returns None exactly when no interface has nine extra bytes with byte 1 equal to 0x21 |
| Descriptor.FirstDescriptorWins | pyfu_usb/descriptor.py:49-64 | the first such interface in configuration and interface order decides the result |
| Descriptor.FindInterfaceSpec | pyfu_usb/descriptor.py:86 | the interface is found exactly when configuration 0 has one with that number and alternate setting; otherwise IndexError |
| Descriptor.MemoryLayoutShape | pyfu_usb/descriptor.py:86-135 | the layout is empty exactly when the string cannot be fetched; a non-empty layout comes from the fetched string, starts at `int(parts[1], 0)` and its segments follow each other without gaps |
| Descriptor.ExampleMemoryLayout | tests/test_descriptor.py:48-80 | a device whose interface string is the STM32F2 layout gives its three segments |
| Descriptor.GetMemoryLayout | pyfu_usb/descriptor.py:69-135 | `get_memory_layout` follows `MemoryLayoutSpec` and issues no traced request |
| Dfuse.CommandPayload | pyfu_usb/dfuse.py:27 | the packed command is 5 bytes, and packing fails exactly when the address does not fit an unsigned 32-bit field |
| Dfuse.PayloadBytes | pyfu_usb/dfuse.py:27 | the payload is the command byte followed by the address, least significant byte first |
| Dfuse.PayloadRoundTrip | pyfu_usb/dfuse.py:38 | bytes 1 to 4 decode back to the address, and `struct.unpack("<BI")` gives back both fields |
| Dfuse.CommandTrace | pyfu_usb/dfuse.py:19-27 | an address out of range fails before any request; otherwise exactly one DNLOAD with transaction 0 and the 5-byte payload is sent first, then only status polls |
| Dfuse.CommandDnloads | pyfu_usb/dfuse.py:30-38 | a completed command had an address in range and sent exactly its own DNLOAD |
| Dfuse.SetAddress | pyfu_usb/dfuse.py:19-27 | `set_address` sends 0x21 and the address as one download |
| Dfuse.PageErase | pyfu_usb/dfuse.py:30-38 | `page_erase` sends 0x41 and the address as one download |
| Orchestrator.AnyDfuInterfaceSpec | pyfu_usb/__init__.py:64-71 | the interface loop finds a DFU interface exactly when some interface has class 0xFE and subclass 1 |
| Orchestrator.FilterDfuSpec | pyfu_usb/__init__.py:61-71 | `FilterDFU` matches exactly when vid is None or equals idVendor, pid is None or equals idProduct, and some interface of some configuration is DFU-class |
| Orchestrator.DfuDevicesSpec | pyfu_usb/__init__.py:73 | a device is listed exactly when it is on the bus and passes the filter |
| Orchestrator.DecimalStringValue | pyfu_usb/__init__.py:262-265 | the device count in the error message is written in decimal digits that read back as the count |
| Orchestrator.SelectDevice | pyfu_usb/__init__.py:256-267 | a device is chosen exactly when one matches, and it is on the bus and passes the filter; no match raises "No devices found in DFU mode"; several raise "Too many devices" with the count |
| Orchestrator.ChunksConcat | pyfu_usb/__init__.py:164-177 | the chunks, joined in order, are the data from the current offset on |
| Orchestrator.ChunkAt | pyfu_usb/__init__.py:165-166 | chunk k is `data[k*xfer : min(k*xfer + xfer, len)]` |
| Orchestrator.ChunkCount | pyfu_usb/__init__.py:164-177 | there are `ceil(len / xfer)` chunks |
| Orchestrator.DfuChunksSent | pyfu_usb/__init__.py:162-179 | a chunk loop that completes sent one DNLOAD per chunk, in order, with transactions counting up by one |
| Orchestrator.DfuDownloadSent | pyfu_usb/__init__.py:147-188 | a completed plain DFU download sent the chunks with transactions 0, 1, 2, ..., then one zero-length DNLOAD with transaction 0: `ceil(len / xfer) + 1` DNLOADs |
| Orchestrator.FinalDownload | pyfu_usb/__init__.py:181-188 | the last, empty download follows `FinalDownloadSpec`: a USBError containing "Pipe error" is ignored, anything else propagates |
| Orchestrator.DfuDownload | pyfu_usb/__init__.py:147-188 | `_dfu_download` on a device: the while loop over `bytes_downloaded` and `transaction`, then the final download, follows `DfuDownloadSpec` |
| Orchestrator.SegmentPagesSpec | pyfu_usb/__init__.py:98-108 | in one segment, a page is erased exactly when it is one of its pages and `start <= page_addr <= start + len` |
| Orchestrator.ErasePagesSpec | pyfu_usb/__init__.py:95-108 | a page is erased exactly when it is a page of some segment and its start lies in [start, start + len]; only start addresses count, so a page that begins before `start` is not erased even if the image reaches into it |
| Orchestrator.EraseSent | pyfu_usb/__init__.py:95-108 | an erase phase that completes sent one Erase command per selected page, in segment then page order |
| Orchestrator.Erase | pyfu_usb/__init__.py:95-108 | the nested erase loops follow `EraseSpec` on the selected pages |
| Orchestrator.EraseSegment | pyfu_usb/__init__.py:98-108 | the inner loop over one segment's pages follows `EraseSpec` on that segment's selected pages |
| Orchestrator.DfuseChunkSent | pyfu_usb/__init__.py:119-128 | one completed DfuSe chunk sent a Set Address Pointer to `start + offset`, then the chunk with transaction 2 |
| Orchestrator.DfuseChunksSent | pyfu_usb/__init__.py:114-132 | a DfuSe chunk loop that completes sent, for each chunk in order, the address pointer to where it belongs and the chunk with transaction 2 |
| Orchestrator.DfuseChunk | pyfu_usb/__init__.py:116-130 | one pass of the DfuSe loop sends the address pointer for the next chunk and then that chunk, advances by `min(xfer_size, len(data) - bytes_downloaded)` and consumes device replies; a failure ends in the state the loop specification gives |
| Orchestrator.DfuseChunks | pyfu_usb/__init__.py:114-132 | the DfuSe while loop follows `DfuseChunksSpec` |
| Orchestrator.ClearStatusSendsNoDnload | pyfu_usb/__init__.py:93 | the opening `clear_status` sends no DNLOAD |
| Orchestrator.DfuseFlashSent | pyfu_usb/__init__.py:95-144 | once the layout is known, a completed flash sent all erases, then the chunks each after its address, then the address pointer to `start`, then the empty download |
| Orchestrator.DfuseDownloadClearsFirst | pyfu_usb/__init__.py:92-96 | whatever the outcome, the first request of `_dfuse_download` is `clear_status`'s CLRSTATUS, sent before the layout is read |
| Orchestrator.DfuseDownloadSent | pyfu_usb/__init__.py:76-144 | a completed DfuSe download read a layout and sent exactly: the erases before any chunk, the address-and-chunk pairs, Set Address Pointer to `start`, and the zero-length DNLOAD |
| Orchestrator.Flash | pyfu_usb/__init__.py:95-144 | erase, chunks, jump address and the final download on a device follow `DfuseFlashSpec` |
| Orchestrator.DfuseDownload | pyfu_usb/__init__.py:76-144 | `_dfuse_download` on a device follows `DfuseDownloadSpec` |
| Orchestrator.RunBrackets | pyfu_usb/__init__.py:269-285 | whatever happens, the claim is the first request and the release the last |
| Orchestrator.RunPreconditions | pyfu_usb/__init__.py:272-278 | a completed run had a DFU descriptor, and an address whenever bcdDFUVersion is 0x11A; without a descriptor, or DfuSe without an address, only the claim and the release reach the device |
| Orchestrator.Run | pyfu_usb/__init__.py:269-285 | the try/finally body on a device follows `RunSpec` |
| Orchestrator.Download | pyfu_usb/__init__.py:230-285 | `download` fails without touching any device when the selection fails; otherwise it runs on the selected device only |

## Left out

- Reading files (`open`, `read`) is left out: `parse_bin_file`, `parse_dfu_file` and `download` take the file's bytes, and an unreadable file is `None` for `parse_bin_file`.
- Logging, `rich` progress bars, `list_devices` and its display formatting, and the command-line entry points are left out. They do not affect the requests sent.
- The `time.sleep(0.1)` in pfu_util `clear_status` is left out, because timing is not modelled.
- `DeviceFirmwareUpdater` and the enumeration wrappers of pfu_util/__init__.py are left out. The class is unfinished.
- pyusb itself is replaced by `Usb.Device`. The model assumes:
  - `get_string` gives None for index 0 and raises a USBError for a string the device lacks;
  - an interface is looked up by (number, alternate setting) in configuration 0;
  - each request takes exactly one scripted reply.
- Dfu.PollSpec: the poll loops end because the device's script is finite, so an exhausted script times out. Nothing is claimed about termination against a real device that stays busy for ever.
- Protocol.ClearLoopSpec: termination as for Dfu.PollSpec.
- Orchestrator.DfuChunksSpec: with a transfer size of 0 the loop as written never advances. The model lets it run until the script is exhausted. The chunk-count and request lemmas require a transfer size above 0.
- Orchestrator.DfuseChunksSpec: as for Orchestrator.DfuChunksSpec.
- `zlib.crc32` is specified as the standard reflected CRC-32 (polynomial 0xEDB88320) rather than called.
- Python's dictionaries from `_named` are replaced by positional field lists (`Struct.Value`), and elements by datatypes.
- The 16-bit range of `wValue` (the transaction number) is not modelled. `_dfu_download` (pyfu_usb/__init__.py:162-176) sends transaction k with chunk k, so an image of more than 65536 chunks gives a transaction of 0x10000 or more, which pyusb would refuse; the model sends the unbounded number instead.
- Descriptor.GetMemoryLayout: the GET_DESCRIPTOR transfers that `usb.util.get_string` makes are not traced, and their transient USBErrors are not told apart from a missing string; both become "the device lacks the string", which gives an empty layout.
- Layout.ParseLayout: the ValueError of `int(s, 0)` carries only the fixed text "invalid literal for int() with base 0". Python appends `: ` and the repr of the piece. Nothing in the code reads the message.
- Layout.IntBase0: digits are ASCII only. Python's `int(s, 0)` reads any Unicode decimal digit, so `int("١٢", 0)` is 12. Here a base address written with non-ASCII digits gives ValueError.
- `Layout.IsDigit` accepts the ASCII digits only. Python's `\d` also accepts other Unicode decimal digits; those are not modelled.
- pyfu_usb/dfu.py, which pyfu_usb/__init__.py imports, is not part of this model. pyfu/dfu.py stands in for it: `clear_status`, `download`, claim and release.
