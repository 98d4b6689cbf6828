/** pfu_util/parser.py: the DfuSe container file (prefix, targets of
    elements, suffix with a CRC) and the memory-layout string. File access
    is outside the model: a file is given as its bytes. */
module Parser {
  import opened Base
  import opened Struct
  import Crc
  import Utf8
  import opened Layout

  /** One element of a parsed file: `num` is its index within its target,
      `size` the size its header states (the data may be shorter, when the
      target runs out). */
  datatype Element = Element(num: nat, addr: nat, size: nat, data: seq<Byte>)

  /** The element `parse_bin_file` makes of a raw image; its key is
      `address` where the container parser's is `addr`. */
  datatype BinElement = BinElement(num: nat, address: string, size: nat, data: seq<Byte>)

  function IntOf(v: Value): nat { if v.Int? then v.n else 0 }
  function BytesOf(v: Value): seq<Byte> { if v.Bytes? then v.b else [] }

  predicate IsSuffix(rest: seq<Byte>, data: seq<Byte>)
  {
    |rest| <= |data| && data[|data| - |rest|..] == rest
  }

  lemma SuffixTrans(a: seq<Byte>, b: seq<Byte>, c: seq<Byte>)
    requires IsSuffix(a, b) && IsSuffix(b, c)
    ensures IsSuffix(a, c)
  {
    assert c[|c| - |a|..] == c[|c| - |b|..][|b| - |a|..];
  }

  /** Python's `data[:n], data[n:]` for a count `n` that may exceed the length. */
  function Take(data: seq<Byte>, n: nat): seq<Byte> { data[..Min(n, |data|)] }
  function Drop(data: seq<Byte>, n: nat): seq<Byte> { data[Min(n, |data|)..] }

  lemma TakeDrop(data: seq<Byte>, n: nat)
    ensures |Take(data, n)| <= n && IsSuffix(Drop(data, n), data)
    ensures Take(data, n) + Drop(data, n) == data
  {
  }

  // ---------------------------------------------------------------------------
  // parse_memory_layout and parse_bin_file

  /** `parse_memory_layout`: a token the pattern does not match makes
      `.groups()` raise AttributeError. */
  method ParseMemoryLayout(s: string) returns (r: Result<seq<Segment>>)
    ensures r == ParseLayout(s, AttributeError)
  {
    r := ReadLayout(s, AttributeError);
  }

  /** `parse_bin_file` on the file's contents (None where opening or reading
      the file raises OSError, which is logged and turned into None): one
      element numbered 0 holding the whole image at `address`. */
  function ParseBinFile(contents: Option<seq<Byte>>, address: string): (r: Option<seq<BinElement>>)
    ensures r.Some? <==> contents.Some?
    ensures r.Some? ==>
      |r.value| == 1 && r.value[0].num == 0 && r.value[0].address == address
      && r.value[0].data == contents.value && r.value[0].size == |contents.value|
  {
    match contents
    case None => None
    case Some(data) => Some([BinElement(0, address, |data|, data)])
  }

  // ---------------------------------------------------------------------------
  // Specification of parse_dfu_file

  /** Elements `e`, `e + 1`, ..., `count - 1` read from a target's data, and
      the bytes left over. */
  function ParseElements(td: seq<Byte>, e: nat, count: nat): Result<(seq<Element>, seq<Byte>)>
    decreases if e <= count then count - e else 0
  {
    if e >= count then Ok(([], td))
    else
      match Consume(ElementFormat, td)
      case Err(err) => Err(err)
      case Ok((header, rest)) =>
        var size := IntOf(header[1]);
        var elem := Element(e, IntOf(header[0]), size, Take(rest, size));
        Then([elem], ParseElements(Drop(rest, size), e + 1, count))
  }

  /** The name of a target: decoded only when the `named` flag is set. */
  function TargetName(named: nat, field: seq<Byte>): Result<string>
  {
    if named != 0 then Utf8.CString(field) else Ok("")
  }

  /** Targets `t`, ..., `count - 1` and their elements, and the bytes after them. */
  function ParseTargets(data: seq<Byte>, t: nat, count: nat): Result<(seq<Element>, seq<Byte>)>
    decreases if t <= count then count - t else 0
  {
    if t >= count then Ok(([], data))
    else
      match Consume(TargetFormat, data)
      case Err(err) => Err(err)
      case Ok((v, rest)) =>
        match TargetName(IntOf(v[2]), BytesOf(v[3]))
        case Err(err) => Err(err)
        case Ok(_) =>
          var size := IntOf(v[4]);
          match ParseElements(Take(rest, size), 0, IntOf(v[5]))
          case Err(err) => Err(err)
          case Ok((es, _)) => Then(es, ParseTargets(Drop(rest, size), t + 1, count))
  }

  /** `elements` in front of a parse of what follows. */
  function Then(elements: seq<Element>, r: Result<(seq<Element>, seq<Byte>)>): Result<(seq<Element>, seq<Byte>)>
  {
    match r
    case Err(e) => Err(e)
    case Ok((es, rest)) => Ok((elements + es, rest))
  }

  /** The checksum the suffix must carry: over all but the last four bytes
      (`data[:-4]`, empty for a file shorter than four bytes). */
  function ExpectedCrc(file: seq<Byte>): int
  {
    Crc.ComputeCrc(file[..if |file| >= 4 then |file| - 4 else 0])
  }

  /** `parse_dfu_file` on the file's bytes: Err where it raises, Ok(None)
      where it logs an error and returns None, Ok(Some(elements)) otherwise. */
  function ParseDfu(file: seq<Byte>): Result<Option<seq<Element>>>
  {
    var crc := ExpectedCrc(file);
    var prefix :- Consume(PrefixFormat, file);
    var body :- ParseTargets(prefix.1, 0, IntOf(prefix.0[3]));
    var suffix :- Unpack(SuffixFormat, Take(body.1, 16));
    if crc != IntOf(suffix[6]) then Ok(None)
    else if |body.1| > 16 then Ok(None)
    else Ok(Some(body.0))
  }

  lemma ThenNil(r: Result<(seq<Element>, seq<Byte>)>)
    ensures Then([], r) == r
  {
    if r.Ok? {
      assert [] + r.value.0 == r.value.0;
    }
  }

  lemma ThenAssoc(a: seq<Element>, b: seq<Element>, r: Result<(seq<Element>, seq<Byte>)>)
    ensures Then(a, Then(b, r)) == Then(a + b, r)
  {
    if r.Ok? {
      assert a + (b + r.value.0) == (a + b) + r.value.0;
    }
  }

  lemma ThenChain(whole: Result<(seq<Element>, seq<Byte>)>, a: seq<Element>, mid: Result<(seq<Element>, seq<Byte>)>,
                  b: seq<Element>, rest: Result<(seq<Element>, seq<Byte>)>)
    requires whole == Then(a, mid) && mid == Then(b, rest)
    ensures whole == Then(a + b, rest)
  {
    ThenAssoc(a, b, rest);
  }

  /** One turn of the element loop. */
  lemma ElementStep(td: seq<Byte>, e: nat, count: nat, h: Result<(seq<Value>, seq<Byte>)>)
    requires e < count && h == Consume(ElementFormat, td)
    ensures h.Err? ==> ParseElements(td, e, count) == Err(h.error)
    ensures h.Ok? ==>
      var size := IntOf(h.value.0[1]);
      ParseElements(td, e, count) ==
        Then([Element(e, IntOf(h.value.0[0]), size, Take(h.value.1, size))],
             ParseElements(Drop(h.value.1, size), e + 1, count))
  {
  }

  /** One turn of the target loop: its name, its elements, then the targets after it. */
  lemma TargetStep(data: seq<Byte>, t: nat, count: nat, p: Result<(seq<Value>, seq<Byte>)>)
    requires t < count && p == Consume(TargetFormat, data)
    ensures p.Err? ==> ParseTargets(data, t, count) == Err(p.error)
    ensures p.Ok? ==>
      var v := p.value.0;
      var name := TargetName(IntOf(v[2]), BytesOf(v[3]));
      var es := ParseElements(Take(p.value.1, IntOf(v[4])), 0, IntOf(v[5]));
      && (name.Err? ==> ParseTargets(data, t, count) == Err(name.error))
      && (name.Ok? && es.Err? ==> ParseTargets(data, t, count) == Err(es.error))
      && (name.Ok? && es.Ok? ==>
            ParseTargets(data, t, count) == Then(es.value.0, ParseTargets(Drop(p.value.1, IntOf(v[4])), t + 1, count)))
  {
  }

  // ---------------------------------------------------------------------------
  // The parser as written: nested loops over targets and elements

  method ParseDfuFile(file: seq<Byte>) returns (r: Result<Option<seq<Element>>>)
    ensures r == ParseDfu(file)
  {
    var c := Consume(PrefixFormat, file);
    if c.Err? {
      return Err(c.error);
    }
    var data := c.value.1;
    var targets := IntOf(c.value.0[3]);
    var elements: seq<Element> := [];
    var t := 0;
    ThenNil(ParseTargets(data, t, targets));
    while t < targets
      invariant t <= targets
      invariant ParseTargets(c.value.1, 0, targets) == Then(elements, ParseTargets(data, t, targets))
    {
      var p := Consume(TargetFormat, data);
      TargetStep(data, t, targets, p);
      if p.Err? {
        return Err(p.error);
      }
      var v := p.value.0;
      var name := TargetName(IntOf(v[2]), BytesOf(v[3]));
      if name.Err? {
        return Err(name.error);
      }
      var size := IntOf(v[4]);
      ghost var before := elements;
      ghost var previous := data;
      var targetData := Take(p.value.1, size);
      data := Drop(p.value.1, size);
      var added;
      added, elements := ReadElements(targetData, IntOf(v[5]), elements);
      if added.Err? {
        return Err(added.error);
      }
      ThenChain(ParseTargets(c.value.1, 0, targets), before, ParseTargets(previous, t, targets),
                added.value, ParseTargets(data, t + 1, targets));
      t := t + 1;
    }
    assert ParseTargets(data, t, targets) == Ok(([], data));
    assert elements + [] == elements;
    ParseDfuTail(file, c.value.1, targets, elements, data);
    var s := Unpack(SuffixFormat, Take(data, 16));
    if s.Err? {
      return Err(s.error);
    }
    var crc := ExpectedCrc(file);
    if crc != IntOf(s.value[6]) {
      return Ok(None);
    }
    if |data| > 16 {
      return Ok(None);
    }
    return Ok(Some(elements));
  }

  /** The element loop of one target, appending to `elements`. */
  method ReadElements(targetData: seq<Byte>, count: nat, elements: seq<Element>)
    returns (added: Result<seq<Element>>, out: seq<Element>)
    ensures added.Err? <==> ParseElements(targetData, 0, count).Err?
    ensures added.Err? ==> added.error == ParseElements(targetData, 0, count).error
    ensures added.Ok? ==> added.value == ParseElements(targetData, 0, count).value.0 && out == elements + added.value
  {
    var td := targetData;
    var tes: seq<Element> := [];
    out := elements;
    var e := 0;
    ThenNil(ParseElements(td, e, count));
    while e < count
      invariant e <= count
      invariant out == elements + tes
      invariant ParseElements(targetData, 0, count) == Then(tes, ParseElements(td, e, count))
    {
      var h := Consume(ElementFormat, td);
      ElementStep(td, e, count, h);
      if h.Err? {
        return Err(h.error), out;
      }
      var elemSize := IntOf(h.value.0[1]);
      var elem := Element(e, IntOf(h.value.0[0]), elemSize, Take(h.value.1, elemSize));
      ThenChain(ParseElements(targetData, 0, count), tes, ParseElements(td, e, count),
                [elem], ParseElements(Drop(h.value.1, elemSize), e + 1, count));
      td := Drop(h.value.1, elemSize);
      out := out + [elem];
      tes := tes + [elem];
      e := e + 1;
    }
    return Ok(tes), out;
  }

  lemma ParseDfuTail(file: seq<Byte>, afterPrefix: seq<Byte>, targets: nat, elements: seq<Element>, data: seq<Byte>)
    requires Consume(PrefixFormat, file).Ok? && afterPrefix == Consume(PrefixFormat, file).value.1
    requires targets == IntOf(Consume(PrefixFormat, file).value.0[3])
    requires ParseTargets(afterPrefix, 0, targets) == Ok((elements, data))
    ensures var s := Unpack(SuffixFormat, Take(data, 16));
      ParseDfu(file) ==
        if s.Err? then Err(s.error)
        else if ExpectedCrc(file) != IntOf(s.value[6]) then Ok(None)
        else if |data| > 16 then Ok(None)
        else Ok(Some(elements))
  {
  }

  // ---------------------------------------------------------------------------
  // Properties of parse_dfu_file

  /** The bytes after a consumed struct are the tail of the input. */
  lemma ConsumeSuffix(fields: seq<Field>, data: seq<Byte>)
    requires Consume(fields, data).Ok?
    ensures IsSuffix(Consume(fields, data).value.1, data)
  {
  }

  /** Element `el` is the `n`-th of its target, holds at most the bytes its
      header states (fewer only when the target ran out), and its header
      fields are u32s. */
  predicate ElementShaped(el: Element, n: nat)
  {
    el.num == n && |el.data| <= el.size && HeaderFits(el)
  }

  /** The header fields fit the u32s of `<2I`. */
  predicate HeaderFits(el: Element)
  {
    el.addr < 0x1_0000_0000 && el.size < 0x1_0000_0000
  }

  predicate ElementsShaped(es: seq<Element>, e: nat)
  {
    forall i :: 0 <= i < |es| ==> ElementShaped(es[i], e + i)
  }

  lemma ShapedCons(el: Element, more: seq<Element>, e: nat)
    requires ElementShaped(el, e) && ElementsShaped(more, e + 1)
    ensures ElementsShaped([el] + more, e)
  {
    forall i | 0 <= i < 1 + |more|
      ensures ElementShaped(([el] + more)[i], e + i)
    {
      if i > 0 {
        assert ([el] + more)[i] == more[i - 1];
      }
    }
  }

  /** The elements of a target are numbered from `e`, there are as many as
      the target header states, and each is shaped as `ElementShaped` says. */
  lemma {:induction false} ElementsShape(td: seq<Byte>, e: nat, count: nat, es: seq<Element>, left: seq<Byte>)
    requires e <= count && ParseElements(td, e, count) == Ok((es, left))
    decreases count - e
    ensures |es| == count - e && ElementsShaped(es, e)
  {
    if e < count {
      var h := Consume(ElementFormat, td);
      ElementStep(td, e, count, h);
      ElementHeader(td);
      var header := h.value.0;
      var size := IntOf(header[1]);
      var elem := Element(e, IntOf(header[0]), size, Take(h.value.1, size));
      var tail := ParseElements(Drop(h.value.1, size), e + 1, count);
      ThenOk([elem], tail, es, left);
      TakeDrop(h.value.1, size);
      ElementsShape(Drop(h.value.1, size), e + 1, count, tail.value.0, left);
      ShapedCons(elem, tail.value.0, e);
    }
  }

  /** What is left after a target's elements is the tail of its data. */
  lemma {:induction false} ElementsSuffix(td: seq<Byte>, e: nat, count: nat, es: seq<Element>, left: seq<Byte>)
    requires e <= count && ParseElements(td, e, count) == Ok((es, left))
    decreases count - e
    ensures IsSuffix(left, td)
  {
    if e < count {
      var h := Consume(ElementFormat, td);
      ElementStep(td, e, count, h);
      var size := IntOf(h.value.0[1]);
      var elem := Element(e, IntOf(h.value.0[0]), size, Take(h.value.1, size));
      var rest := Drop(h.value.1, size);
      var tail := ParseElements(rest, e + 1, count);
      ThenOk([elem], tail, es, left);
      TakeDrop(h.value.1, size);
      ElementsSuffix(rest, e + 1, count, tail.value.0, left);
      ConsumeSuffix(ElementFormat, td);
      SuffixTrans(left, rest, h.value.1);
      SuffixTrans(left, h.value.1, td);
    }
  }

  /** The bytes of `es` as a container holds them: each element's 8-byte
      header (address, size), then its data. */
  function EncodeElements(es: seq<Element>): seq<Byte>
    requires forall i :: 0 <= i < |es| ==> HeaderFits(es[i])
  {
    if es == [] then [] else ElementBytes(es[0]) + EncodeElements(es[1..])
  }

  function ElementBytes(el: Element): seq<Byte>
    requires HeaderFits(el)
  {
    Pow256Values();
    Pack(ElementFormat, [Int(el.addr), Int(el.size)]) + el.data
  }

  /** The elements read from a target, written back one after another and
      followed by the leftover bytes, give back the target's data: each
      element's data is the bytes right after its header. */
  lemma {:induction false} ElementsEncode(td: seq<Byte>, e: nat, count: nat, es: seq<Element>, left: seq<Byte>)
    requires e <= count && ParseElements(td, e, count) == Ok((es, left))
    decreases count - e
    ensures ElementsShaped(es, e) && td == EncodeElements(es) + left
  {
    ElementsShape(td, e, count, es, left);
    if e < count {
      var h := Consume(ElementFormat, td);
      ElementStep(td, e, count, h);
      var size := IntOf(h.value.0[1]);
      var elem := Element(e, IntOf(h.value.0[0]), size, Take(h.value.1, size));
      var rest := Drop(h.value.1, size);
      var tail := ParseElements(rest, e + 1, count);
      ThenOk([elem], tail, es, left);
      ElementsEncode(rest, e + 1, count, tail.value.0, left);
      ElementHeaderBytes(td, elem);
      TakeDrop(h.value.1, size);
      EncodeCons(elem, tail.value.0, es);
      Regroup(td, Pack(ElementFormat, h.value.0), h.value.1, elem.data, rest, EncodeElements(tail.value.0), left);
    }
  }

  /** Elements numbered from `e`, each holding exactly the bytes its header
      states, written out and followed by anything: reading them back gives
      the same elements and leaves what followed. */
  lemma {:induction false} DecodeEncodeElements(es: seq<Element>, e: nat, count: nat, rest: seq<Byte>)
    requires ElementsShaped(es, e) && FullSizes(es) && count == e + |es|
    decreases |es|
    ensures ParseElements(EncodeElements(es) + rest, e, count) == Ok((es, rest))
  {
    if es == [] {
      assert EncodeElements(es) + rest == rest;
    } else {
      var el, more := es[0], es[1..];
      ShapedTail(es, e);
      DecodeEncodeElements(more, e + 1, count, rest);
      EncodeCons(el, more, es);
      DecodeStep(el, more, es, e, count, rest, EncodeElements(es), EncodeElements(more));
    }
  }

  /** Every element holds exactly the bytes its header states. */
  predicate FullSizes(es: seq<Element>)
  {
    forall i :: 0 <= i < |es| ==> |es[i].data| == es[i].size
  }

  lemma ShapedTail(es: seq<Element>, e: nat)
    requires es != [] && ElementsShaped(es, e) && FullSizes(es)
    ensures ElementShaped(es[0], e) && |es[0].data| == es[0].size
    ensures ElementsShaped(es[1..], e + 1) && FullSizes(es[1..])
  {
    assert ElementShaped(es[0], e + 0);
    forall i | 0 <= i < |es| - 1 ensures ElementShaped(es[1..][i], e + 1 + i) && |es[1..][i].data| == es[1..][i].size {
      assert es[1..][i] == es[i + 1];
    }
  }

  /** One element written out in front of elements that read back as
      themselves reads back as itself, followed by them. */
  lemma DecodeStep(el: Element, more: seq<Element>, es: seq<Element>, e: nat, count: nat, rest: seq<Byte>,
                   all: seq<Byte>, encMore: seq<Byte>)
    requires ElementShaped(el, e) && |el.data| == el.size && e < count && es == [el] + more
    requires all == ElementBytes(el) + encMore
    requires ParseElements(encMore + rest, e + 1, count) == Ok((more, rest))
    ensures ParseElements(all + rest, e, count) == Ok((es, rest))
  {
    var after := encMore + rest;
    HeaderOf(el, all, encMore, rest);
    ElementStep(all + rest, e, count, Consume(ElementFormat, all + rest));
    TakeDropExact(el.data, after, el.size);
  }

  /** An element written out in front of anything: its header reads back. */
  lemma HeaderOf(el: Element, all: seq<Byte>, encMore: seq<Byte>, rest: seq<Byte>)
    requires HeaderFits(el) && all == ElementBytes(el) + encMore
    ensures Consume(ElementFormat, all + rest) == Ok(([Int(el.addr), Int(el.size)], el.data + (encMore + rest)))
  {
    Pow256Values();
    var vals := [Int(el.addr), Int(el.size)];
    assert all + rest == Pack(ElementFormat, vals) + (el.data + (encMore + rest));
    ConsumePacked(ElementFormat, vals, el.data + (encMore + rest));
  }

  lemma TakeDropExact(data: seq<Byte>, after: seq<Byte>, n: nat)
    requires |data| == n
    ensures Take(data + after, n) == data && Drop(data + after, n) == after
  {
    assert (data + after)[..n] == data;
  }

  /** An element's header packs back to the bytes it was read from. */
  lemma ElementHeaderBytes(td: seq<Byte>, elem: Element)
    requires Consume(ElementFormat, td).Ok?
    requires var v := Consume(ElementFormat, td).value.0; elem.addr == IntOf(v[0]) && elem.size == IntOf(v[1])
    ensures Pack(ElementFormat, Consume(ElementFormat, td).value.0) + Consume(ElementFormat, td).value.1 == td
    ensures Pack(ElementFormat, Consume(ElementFormat, td).value.0) == Pack(ElementFormat, [Int(elem.addr), Int(elem.size)])
  {
    ElementHeader(td);
    ConsumeSplits(ElementFormat, td);
    var v := Consume(ElementFormat, td).value.0;
    assert v == [Int(elem.addr), Int(elem.size)];
  }

  lemma EncodeCons(el: Element, more: seq<Element>, es: seq<Element>)
    requires HeaderFits(el) && forall i :: 0 <= i < |more| ==> HeaderFits(more[i])
    requires es == [el] + more
    ensures EncodeElements(es) == ElementBytes(el) + EncodeElements(more)
  {
    assert es[0] == el && es[1..] == more;
  }

  /** `header + (data + rest)` regrouped as `(header + data + encoded) + left`. */
  lemma Regroup(td: seq<Byte>, header: seq<Byte>, after: seq<Byte>, data: seq<Byte>, rest: seq<Byte>,
                encoded: seq<Byte>, left: seq<Byte>)
    requires td == header + after && after == data + rest && rest == encoded + left
    ensures td == (header + data + encoded) + left
  {
  }

  /** An element whose data is shorter than its stated size is the last
      one, and nothing of the target is left after it. */
  lemma {:induction false} ElementsShort(td: seq<Byte>, e: nat, count: nat, es: seq<Element>, left: seq<Byte>)
    requires e <= count && ParseElements(td, e, count) == Ok((es, left))
    decreases count - e
    ensures OnlyLastShort(es, left)
  {
    if e < count {
      var h := Consume(ElementFormat, td);
      ElementStep(td, e, count, h);
      var size := IntOf(h.value.0[1]);
      var elem := Element(e, IntOf(h.value.0[0]), size, Take(h.value.1, size));
      var rest := Drop(h.value.1, size);
      var tail := ParseElements(rest, e + 1, count);
      ThenOk([elem], tail, es, left);
      ElementsShort(rest, e + 1, count, tail.value.0, left);
      if |elem.data| < size {
        ShortTail(rest, e + 1, count);
      }
      ShortCons(es, elem, tail.value.0, left);
    }
  }

  predicate OnlyLastShort(es: seq<Element>, left: seq<Byte>)
  {
    forall i :: 0 <= i < |es| && |es[i].data| < es[i].size ==> i == |es| - 1 && left == []
  }

  lemma ShortCons(es: seq<Element>, elem: Element, more: seq<Element>, left: seq<Byte>)
    requires es == [elem] + more && OnlyLastShort(more, left)
    requires |elem.data| < elem.size ==> more == [] && left == []
    ensures OnlyLastShort(es, left)
  {
    forall i | 1 <= i < |es| ensures es[i] == more[i - 1] {
    }
  }

  /** Nothing left to read: no further element can follow. */
  lemma ShortTail(rest: seq<Byte>, e: nat, count: nat)
    requires rest == [] && e <= count && ParseElements(rest, e, count).Ok?
    ensures ParseElements(rest, e, count) == Ok(([], []))
  {
    FormatSizes();
  }

  /** A target as the file lays it out: its header (`<6sBI255s2I`), its
      elements written out, and whatever of its `size` bytes they leave. */
  datatype TargetBlock = TargetBlock(header: seq<Value>, elements: seq<Element>, slack: seq<Byte>)

  /** The header is a valid `<6sBI255s2I`, its name decodes, it holds as many
      elements as it states, numbered from 0, and the elements with the
      slack fit in its `size` bytes. */
  predicate BlockShaped(b: TargetBlock)
  {
    && AllFit(TargetFormat, b.header)
    && TargetName(IntOf(b.header[2]), BytesOf(b.header[3])).Ok?
    && |b.elements| == IntOf(b.header[5])
    && ElementsShaped(b.elements, 0)
    && |EncodeElements(b.elements) + b.slack| <= IntOf(b.header[4])
  }

  function BlockBytes(b: TargetBlock): seq<Byte>
    requires BlockShaped(b)
  {
    Pack(TargetFormat, b.header) + EncodeElements(b.elements) + b.slack
  }

  function EncodeTargets(ts: seq<TargetBlock>): seq<Byte>
    requires forall k :: 0 <= k < |ts| ==> BlockShaped(ts[k])
  {
    if ts == [] then [] else BlockBytes(ts[0]) + EncodeTargets(ts[1..])
  }

  /** The elements of the targets, in file order. */
  function Flatten(ts: seq<TargetBlock>): seq<Element>
  {
    if ts == [] then [] else ts[0].elements + Flatten(ts[1..])
  }

  /** The targets read from the data, written back one after another (each
      header, its elements and the rest of its `size` bytes) and followed by
      what comes after them, give back the data; the elements returned are
      the targets' elements in order. */
  lemma {:induction false} TargetsEncode(data: seq<Byte>, t: nat, count: nat, es: seq<Element>, left: seq<Byte>)
    returns (ts: seq<TargetBlock>)
    requires t <= count && ParseTargets(data, t, count) == Ok((es, left))
    decreases count - t, 2
    ensures |ts| == count - t && LaidOut(ts, data, left, es)
  {
    if t == count {
      ts := [];
      assert data == EncodeTargets(ts) + left && es == Flatten(ts);
    } else {
      ts := TargetsStep(data, t, count, es, left);
    }
  }

  /** The first target's block, in front of the blocks of the targets after it. */
  lemma {:induction false} TargetsStep(data: seq<Byte>, t: nat, count: nat, es: seq<Element>, left: seq<Byte>)
    returns (ts: seq<TargetBlock>)
    requires t < count && ParseTargets(data, t, count) == Ok((es, left))
    decreases count - t, 1
    ensures |ts| == count - t && LaidOut(ts, data, left, es)
  {
    var u := t + 1;
    var b, rest, nextEs := TargetSplit(data, t, u, count, es, left);
    ts := TargetsAfter(b, data, rest, u, count, es, nextEs, left);
  }

  /** The block `b` in front of the blocks of targets `u`, ... read from `rest`. */
  lemma {:induction false} TargetsAfter(b: TargetBlock, data: seq<Byte>, rest: seq<Byte>, u: nat, count: nat,
                                        es: seq<Element>, nextEs: seq<Element>, left: seq<Byte>)
    returns (ts: seq<TargetBlock>)
    requires 0 < u <= count && SplitsAs(b, data, rest, es, nextEs) && ParseTargets(rest, u, count) == Ok((nextEs, left))
    decreases count - u + 1, 0
    ensures |ts| == count - u + 1 && LaidOut(ts, data, left, es)
  {
    var more := TargetsEncode(rest, u, count, nextEs, left);
    ts := TargetsCons(b, more, data, rest, left, es, nextEs);
  }

  /** `data` is the block `b` followed by `rest`, and `es` the block's
      elements followed by `nextEs`. */
  predicate SplitsAs(b: TargetBlock, data: seq<Byte>, rest: seq<Byte>, es: seq<Element>, nextEs: seq<Element>)
  {
    BlockShaped(b) && data == BlockBytes(b) + rest && es == b.elements + nextEs
  }

  /** A target that reads splits off as its block, in front of the targets
      after it. */
  lemma TargetSplit(data: seq<Byte>, t: nat, u: nat, count: nat, es: seq<Element>, left: seq<Byte>)
    returns (b: TargetBlock, rest: seq<Byte>, nextEs: seq<Element>)
    requires t < count && u == t + 1 && ParseTargets(data, t, count) == Ok((es, left))
    ensures SplitsAs(b, data, rest, es, nextEs) && ParseTargets(rest, u, count) == Ok((nextEs, left))
  {
    TargetHead(data, t, count, es, left);
    var p := Consume(TargetFormat, data);
    var size := IntOf(p.value.0[4]);
    var inner := ParseElements(Take(p.value.1, size), 0, IntOf(p.value.0[5]));
    b := TargetBlock(p.value.0, inner.value.0, inner.value.1);
    rest := Drop(p.value.1, size);
    nextEs := ParseTargets(rest, u, count).value.0;
    ConsumeSplits(TargetFormat, data);
    TakeDrop(p.value.1, size);
    BlockOf(data, b, p.value.1, Take(p.value.1, size), rest, size, IntOf(p.value.0[5]));
  }

  /** One turn of the target loop that succeeds: its elements, then those of
      the targets after it. */
  lemma TargetHead(data: seq<Byte>, t: nat, count: nat, es: seq<Element>, left: seq<Byte>)
    requires t < count && ParseTargets(data, t, count) == Ok((es, left))
    ensures Consume(TargetFormat, data).Ok?
    ensures var p := Consume(TargetFormat, data);
      var size := IntOf(p.value.0[4]);
      var inner := ParseElements(Take(p.value.1, size), 0, IntOf(p.value.0[5]));
      var next := ParseTargets(Drop(p.value.1, size), t + 1, count);
      && TargetName(IntOf(p.value.0[2]), BytesOf(p.value.0[3])).Ok?
      && inner.Ok? && next.Ok?
      && es == inner.value.0 + next.value.0 && left == next.value.1
  {
    var p := Consume(TargetFormat, data);
    TargetStep(data, t, count, p);
    var size := IntOf(p.value.0[4]);
    var inner := ParseElements(Take(p.value.1, size), 0, IntOf(p.value.0[5]));
    ThenOk(inner.value.0, ParseTargets(Drop(p.value.1, size), t + 1, count), es, left);
  }

  /** The block of a target that reads: its header, then its `size` bytes
      holding the elements and the slack. */
  lemma BlockOf(data: seq<Byte>, b: TargetBlock, after: seq<Byte>, block: seq<Byte>, rest: seq<Byte>, size: nat, n: nat)
    requires AllFit(TargetFormat, b.header) && data == Pack(TargetFormat, b.header) + after
    requires size == IntOf(b.header[4]) && n == IntOf(b.header[5])
    requires after == block + rest && |block| <= size
    requires TargetName(IntOf(b.header[2]), BytesOf(b.header[3])).Ok?
    requires ParseElements(block, 0, n) == Ok((b.elements, b.slack))
    ensures BlockShaped(b) && data == BlockBytes(b) + rest
  {
    ElementsEncode(block, 0, n, b.elements, b.slack);
    ElementsShape(block, 0, n, b.elements, b.slack);
    RegroupBlock(data, Pack(TargetFormat, b.header), after, block, rest, EncodeElements(b.elements), b.slack);
  }

  /** `header + (block + rest)` with `block == encoded + slack`, regrouped. */
  lemma RegroupBlock(data: seq<Byte>, header: seq<Byte>, after: seq<Byte>, block: seq<Byte>, rest: seq<Byte>,
                     encoded: seq<Byte>, slack: seq<Byte>)
    requires data == header + after && after == block + rest && block == encoded + slack
    ensures data == (header + encoded + slack) + rest
  {
  }

  /** The targets `ts`, laid out one after another and followed by `left`,
      make up `data`, and `es` are their elements in order. */
  predicate LaidOut(ts: seq<TargetBlock>, data: seq<Byte>, left: seq<Byte>, es: seq<Element>)
  {
    && (forall k :: 0 <= k < |ts| ==> BlockShaped(ts[k]))
    && data == EncodeTargets(ts) + left
    && es == Flatten(ts)
  }

  lemma TargetsCons(b: TargetBlock, more: seq<TargetBlock>, data: seq<Byte>, next: seq<Byte>, left: seq<Byte>,
                    es: seq<Element>, nextEs: seq<Element>)
    returns (ts: seq<TargetBlock>)
    requires SplitsAs(b, data, next, es, nextEs) && LaidOut(more, next, left, nextEs)
    ensures |ts| == |more| + 1 && LaidOut(ts, data, left, es)
  {
    ts := [b] + more;
    assert ts[0] == b && ts[1..] == more;
    forall k | 0 <= k < |ts|
      ensures BlockShaped(ts[k])
    {
      if k > 0 {
        assert ts[k] == more[k - 1];
      }
    }
    assert EncodeTargets(ts) == BlockBytes(b) + EncodeTargets(more);
    assert Flatten(ts) == b.elements + Flatten(more);
    RegroupCons(data, BlockBytes(b), next, EncodeTargets(more), left);
  }

  lemma RegroupCons(data: seq<Byte>, block: seq<Byte>, next: seq<Byte>, encoded: seq<Byte>, left: seq<Byte>)
    requires data == block + next && next == encoded + left
    ensures data == (block + encoded) + left
  {
  }

  /** An element header is two u32s. */
  lemma ElementHeader(td: seq<Byte>)
    requires Consume(ElementFormat, td).Ok?
    ensures var v := Consume(ElementFormat, td).value.0;
      v[0].Int? && v[0].n < 0x1_0000_0000 && v[1].Int? && v[1].n < 0x1_0000_0000
  {
    var v := Consume(ElementFormat, td).value.0;
    assert Fits(ElementFormat[0], v[0]) && Fits(ElementFormat[1], v[1]);
    Pow256Values();
  }

  lemma ThenOk(a: seq<Element>, r: Result<(seq<Element>, seq<Byte>)>, es: seq<Element>, left: seq<Byte>)
    requires Then(a, r) == Ok((es, left))
    ensures r.Ok? && es == a + r.value.0 && left == r.value.1
  {
  }

  /** What follows the targets is the tail of the input. */
  lemma {:induction false} TargetsSuffix(data: seq<Byte>, t: nat, count: nat)
    requires ParseTargets(data, t, count).Ok?
    decreases if t <= count then count - t else 0
    ensures IsSuffix(ParseTargets(data, t, count).value.1, data)
  {
    if t < count {
      var p := Consume(TargetFormat, data);
      var size := IntOf(p.value.0[4]);
      var rest := Drop(p.value.1, size);
      TargetsSuffix(rest, t + 1, count);
      ConsumeSuffix(TargetFormat, data);
      SuffixTrans(ParseTargets(rest, t + 1, count).value.1, rest, p.value.1);
      SuffixTrans(ParseTargets(rest, t + 1, count).value.1, p.value.1, data);
    }
  }

  /** The checksum field of a 16-byte suffix is its last four bytes, little-endian. */
  lemma SuffixCrcField(d: seq<Byte>)
    requires |d| == 16
    ensures Unpack(SuffixFormat, d).Ok?
    ensures IntOf(Unpack(SuffixFormat, d).value[6]) == LeUint(d[12..])
  {
    FormatSizes();
    UnpackAt(SuffixFormat, d, 6);
    assert SuffixFormat[..6] == [U16, U16, U16, U16, Chars(3), U8];
    assert CalcSize(SuffixFormat[..6]) == 12;
    assert d[12..16] == d[12..];
  }

  /** Once the targets are read, what remains decides: exactly a suffix
      whose checksum field matches. */
  lemma SuffixDecision(file: seq<Byte>, rest: seq<Byte>)
    requires IsSuffix(rest, file)
    ensures var s := Unpack(SuffixFormat, Take(rest, 16));
      (s.Ok? && ExpectedCrc(file) == IntOf(s.value[6]) && |rest| <= 16) <==>
      (|rest| == 16 && |file| >= 4 && LeUint(file[|file| - 4..]) == ExpectedCrc(file))
  {
    if |rest| >= 16 {
      SuffixCrcField(rest[..16]);
      assert Take(rest, 16) == rest[..16];
      if |rest| == 16 {
        assert rest[..16][12..] == file[|file| - 4..];
      }
    }
  }

  /** `parse_dfu_file` returns the elements exactly when the prefix and every
      target parse, exactly 16 bytes remain for the suffix (no trailing
      bytes), and the file's last four bytes, little-endian, equal the
      checksum of everything before them. */
  lemma ParseDfuAccepts(file: seq<Byte>)
    ensures (ParseDfu(file).Ok? && ParseDfu(file).value.Some?) <==>
      var c := Consume(PrefixFormat, file);
      && c.Ok?
      && var body := ParseTargets(c.value.1, 0, IntOf(c.value.0[3]));
      && body.Ok?
      && |body.value.1| == 16
      && |file| >= 4
      && LeUint(file[|file| - 4..]) == ExpectedCrc(file)
    ensures ParseDfu(file).Ok? && ParseDfu(file).value.Some? ==>
      var c := Consume(PrefixFormat, file);
      ParseDfu(file).value.value == ParseTargets(c.value.1, 0, IntOf(c.value.0[3])).value.0
  {
    var c := Consume(PrefixFormat, file);
    if c.Ok? {
      var body := ParseTargets(c.value.1, 0, IntOf(c.value.0[3]));
      if body.Ok? {
        var rest := body.value.1;
        ConsumeSuffix(PrefixFormat, file);
        TargetsSuffix(c.value.1, 0, IntOf(c.value.0[3]));
        SuffixTrans(rest, c.value.1, file);
        ParseDfuTail(file, c.value.1, IntOf(c.value.0[3]), body.value.0, rest);
        SuffixDecision(file, rest);
      }
    }
  }

  /** A file whose checksum field disagrees with the checksum of the bytes
      before it is refused (None, or an exception if it is malformed anyway). */
  lemma CrcMismatchRefused(file: seq<Byte>)
    requires |file| >= 4 && LeUint(file[|file| - 4..]) != ExpectedCrc(file)
    ensures !(ParseDfu(file).Ok? && ParseDfu(file).value.Some?)
  {
    ParseDfuAccepts(file);
  }
}
