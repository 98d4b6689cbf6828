/** Python's `struct` module for the little-endian formats the container
    parser uses (`<` means standard sizes and no padding): unsigned integer
    fields `B`, `H`, `I` and byte strings `Ns`. `Unpack` is
    `struct.unpack`, `Pack` its inverse `struct.pack`, and `Consume` is
    `_consume` (pfu_util/parser.py:17-22). */
module Struct {
  import opened Base

  datatype Field = U8 | U16 | U32 | Chars(n: nat)

  /** An unpacked field: an int for `B`/`H`/`I`, bytes for `Ns`. */
  datatype Value = Int(n: nat) | Bytes(b: seq<Byte>)

  function Width(f: Field): nat
  {
    match f
    case U8 => 1
    case U16 => 2
    case U32 => 4
    case Chars(n) => n
  }

  /** `struct.calcsize`: with `<` the widths simply add up. */
  function CalcSize(fields: seq<Field>): nat
  {
    if fields == [] then 0 else Width(fields[0]) + CalcSize(fields[1..])
  }

  /** `v` is a value `struct.pack` accepts for `f`. */
  predicate Fits(f: Field, v: Value)
  {
    match f
    case Chars(n) => v.Bytes? && |v.b| == n
    case _ => v.Int? && v.n < Pow256(Width(f))
  }

  predicate AllFit(fields: seq<Field>, values: seq<Value>)
  {
    |fields| == |values| && forall i :: 0 <= i < |fields| ==> Fits(fields[i], values[i])
  }

  function PackField(f: Field, v: Value): (b: seq<Byte>)
    requires Fits(f, v)
    ensures |b| == Width(f)
  {
    if f.Chars? then v.b else LeBytes(v.n, Width(f))
  }

  function UnpackField(f: Field, b: seq<Byte>): Value
  {
    if f.Chars? then Bytes(b) else Int(LeUint(b))
  }

  /** `struct.pack(fmt, *values)`. */
  function Pack(fields: seq<Field>, values: seq<Value>): (b: seq<Byte>)
    requires AllFit(fields, values)
    ensures |b| == CalcSize(fields)
  {
    if fields == [] then []
    else PackField(fields[0], values[0]) + Pack(fields[1..], values[1..])
  }

  /** Unpacking a buffer of exactly the right size. */
  function UnpackExact(fields: seq<Field>, data: seq<Byte>): (values: seq<Value>)
    requires |data| == CalcSize(fields)
    ensures |values| == |fields|
  {
    if fields == [] then []
    else
      var w := Width(fields[0]);
      [UnpackField(fields[0], data[..w])] + UnpackExact(fields[1..], data[w..])
  }

  /** `struct.unpack(fmt, data)`: StructError unless the buffer is exactly
      `calcsize(fmt)` bytes; the values always fit their fields. */
  function Unpack(fields: seq<Field>, data: seq<Byte>): (r: Result<seq<Value>>)
    ensures r.Ok? <==> |data| == CalcSize(fields)
    ensures r.Ok? ==> AllFit(fields, r.value)
  {
    if |data| != CalcSize(fields) then Err(StructError)
    else
      UnpackFits(fields, data);
      Ok(UnpackExact(fields, data))
  }

  lemma {:induction false} UnpackFits(fields: seq<Field>, data: seq<Byte>)
    requires |data| == CalcSize(fields)
    ensures AllFit(fields, UnpackExact(fields, data))
  {
    if fields != [] {
      var w := Width(fields[0]);
      UnpackFits(fields[1..], data[w..]);
      LeUintBound(data[..w]);
      var values := UnpackExact(fields, data);
      assert values[1..] == UnpackExact(fields[1..], data[w..]);
      forall i | 0 <= i < |fields|
        ensures Fits(fields[i], values[i])
      {
        if i > 0 {
          assert Fits(fields[1..][i - 1], values[1..][i - 1]);
        }
      }
    }
  }

  /** Unpacking what was packed gives back the values. */
  lemma {:induction false} UnpackPack(fields: seq<Field>, values: seq<Value>)
    requires AllFit(fields, values)
    ensures Unpack(fields, Pack(fields, values)) == Ok(values)
  {
    PackUnpackExact(fields, values);
  }

  lemma AllFitTail(fields: seq<Field>, values: seq<Value>)
    requires AllFit(fields, values) && fields != []
    ensures AllFit(fields[1..], values[1..])
  {
    forall i | 0 <= i < |fields| - 1
      ensures Fits(fields[1..][i], values[1..][i])
    {
      assert Fits(fields[i + 1], values[i + 1]);
    }
  }

  lemma {:induction false} PackUnpackExact(fields: seq<Field>, values: seq<Value>)
    requires AllFit(fields, values)
    ensures UnpackExact(fields, Pack(fields, values)) == values
  {
    if fields != [] {
      var data := Pack(fields, values);
      var w := Width(fields[0]);
      var head := PackField(fields[0], values[0]);
      assert data[..w] == head;
      assert data[w..] == Pack(fields[1..], values[1..]);
      AllFitTail(fields, values);
      PackUnpackExact(fields[1..], values[1..]);
      if !fields[0].Chars? {
        LeUintOfLeBytes(values[0].n, w);
      }
      assert UnpackField(fields[0], head) == values[0];
      assert values == [values[0]] + values[1..];
    }
  }

  /** Packing what was unpacked gives back the bytes. */
  lemma {:induction false} PackUnpack(fields: seq<Field>, data: seq<Byte>)
    requires |data| == CalcSize(fields)
    ensures Pack(fields, Unpack(fields, data).value) == data
  {
    PackUnpackBytes(fields, data);
  }

  lemma {:induction false} PackUnpackBytes(fields: seq<Field>, data: seq<Byte>)
    requires |data| == CalcSize(fields)
    ensures AllFit(fields, UnpackExact(fields, data))
    ensures Pack(fields, UnpackExact(fields, data)) == data
  {
    UnpackFits(fields, data);
    if fields != [] {
      var w := Width(fields[0]);
      var values := UnpackExact(fields, data);
      PackUnpackBytes(fields[1..], data[w..]);
      assert values[1..] == UnpackExact(fields[1..], data[w..]);
      if !fields[0].Chars? {
        LeBytesOfLeUint(data[..w]);
      }
      assert data[..w] + data[w..] == data;
    }
  }

  /** Where field `i` starts in a packed struct. */
  function Offset(fields: seq<Field>, i: nat): nat
    requires i <= |fields|
  {
    CalcSize(fields[..i])
  }

  lemma {:induction false} CalcSizeSplit(fields: seq<Field>, i: nat)
    requires i < |fields|
    ensures CalcSize(fields[..i + 1]) == CalcSize(fields[..i]) + Width(fields[i])
    ensures CalcSize(fields[..i + 1]) <= CalcSize(fields)
  {
    if i > 0 {
      CalcSizeSplit(fields[1..], i - 1);
      assert fields[..i + 1][1..] == fields[1..][..i];
      assert fields[..i][1..] == fields[1..][..i - 1];
    } else {
      assert fields[..1][1..] == [];
    }
  }

  lemma OffsetTail(fields: seq<Field>, i: nat)
    requires 0 < i <= |fields|
    ensures Offset(fields, i) == Width(fields[0]) + Offset(fields[1..], i - 1)
  {
    assert fields[..i][1..] == fields[1..][..i - 1];
  }

  lemma UnpackExactTail(fields: seq<Field>, data: seq<Byte>, i: nat)
    requires |data| == CalcSize(fields) && 0 < i < |fields|
    ensures Width(fields[0]) <= |data|
    ensures UnpackExact(fields, data)[i] == UnpackExact(fields[1..], data[Width(fields[0])..])[i - 1]
  {
  }

  /** Field `i` of an unpacked struct is read from bytes `Offset(i)` up to
      `Offset(i) + Width(fields[i])`. */
  lemma {:induction false} UnpackAt(fields: seq<Field>, data: seq<Byte>, i: nat)
    requires |data| == CalcSize(fields) && i < |fields|
    ensures Offset(fields, i) + Width(fields[i]) <= |data|
    ensures UnpackExact(fields, data)[i] ==
      UnpackField(fields[i], data[Offset(fields, i)..Offset(fields, i) + Width(fields[i])])
    decreases |fields|, 1
  {
    CalcSizeSplit(fields, i);
    if i == 0 {
      UnpackAtFirst(fields, data);
    } else {
      UnpackAtLater(fields, data, i);
    }
  }

  lemma UnpackAtFirst(fields: seq<Field>, data: seq<Byte>)
    requires |data| == CalcSize(fields) && 0 < |fields|
    ensures Offset(fields, 0) == 0
    ensures UnpackExact(fields, data)[0] == UnpackField(fields[0], data[0..Width(fields[0])])
  {
    assert fields[..0] == [];
  }

  /** A later field is read where the same field of the tail is. */
  lemma {:induction false} UnpackAtLater(fields: seq<Field>, data: seq<Byte>, i: nat)
    requires |data| == CalcSize(fields) && 0 < i < |fields|
    ensures Offset(fields, i) + Width(fields[i]) <= |data|
    ensures UnpackExact(fields, data)[i] ==
      UnpackField(fields[i], data[Offset(fields, i)..Offset(fields, i) + Width(fields[i])])
    decreases |fields|, 0
  {
    var w := Width(fields[0]);
    UnpackExactTail(fields, data, i);
    UnpackAt(fields[1..], data[w..], i - 1);
    OffsetTail(fields, i);
    TailIndex(fields, i);
    ReadShifted(UnpackExact(fields, data)[i], UnpackExact(fields[1..], data[w..])[i - 1],
      fields[1..][i - 1], fields[i], data, w, Offset(fields[1..], i - 1), Offset(fields, i));
  }

  /** A field read at `o` in `data[w..]` is the same field read at `w + o`
      in `data`. */
  lemma ReadShifted(a: Value, b: Value, g: Field, f: Field, data: seq<Byte>, w: nat, o: nat, p: nat)
    requires w <= |data| && o + Width(g) <= |data| - w
    requires a == b && b == UnpackField(g, data[w..][o..o + Width(g)])
    requires g == f && p == w + o
    ensures p + Width(f) <= |data|
    ensures a == UnpackField(f, data[p..p + Width(f)])
  {
    SliceOfSuffix(data, w, o, Width(f));
  }

  lemma TailIndex(fields: seq<Field>, i: nat)
    requires 0 < i < |fields|
    ensures fields[1..][i - 1] == fields[i]
  {
  }

  lemma SliceOfSuffix(data: seq<Byte>, w: nat, o: nat, n: nat)
    requires w + o + n <= |data|
    ensures data[w..][o..o + n] == data[w + o..w + o + n]
  {
  }

  /** `_consume`: unpack the first `calcsize(fmt)` bytes and return the rest.
      A buffer that is too short makes `struct.unpack` raise StructError. */
  function Consume(fields: seq<Field>, data: seq<Byte>): (r: Result<(seq<Value>, seq<Byte>)>)
    ensures r.Ok? <==> |data| >= CalcSize(fields)
    ensures r.Ok? ==> AllFit(fields, r.value.0) && |r.value.1| == |data| - CalcSize(fields)
  {
    var size := CalcSize(fields);
    var head := data[..Min(size, |data|)];
    var rest := data[Min(size, |data|)..];
    match Unpack(fields, head)
    case Err(e) => Err(e)
    case Ok(values) => Ok((values, rest))
  }

  /** What `_consume` returns is the struct that was read and the bytes after
      it: packing the values again and appending the rest rebuilds the input. */
  lemma ConsumeSplits(fields: seq<Field>, data: seq<Byte>)
    requires |data| >= CalcSize(fields)
    ensures Pack(fields, Consume(fields, data).value.0) + Consume(fields, data).value.1 == data
  {
    var size := CalcSize(fields);
    ConsumeOk(fields, data);
    PackUnpack(fields, data[..size]);
    TakeDrop(data, size);
  }

  /** Enough bytes: `_consume` reads the first `calcsize(fmt)` of them. */
  lemma ConsumeOk(fields: seq<Field>, data: seq<Byte>)
    requires |data| >= CalcSize(fields)
    ensures Consume(fields, data) == Ok((Unpack(fields, data[..CalcSize(fields)]).value, data[CalcSize(fields)..]))
  {
  }

  lemma TakeDrop(data: seq<Byte>, n: nat)
    requires n <= |data|
    ensures data[..n] + data[n..] == data
  {
  }

  /** Consuming a packed struct followed by anything reads back the values
      and returns what followed. */
  lemma ConsumePacked(fields: seq<Field>, values: seq<Value>, rest: seq<Byte>)
    requires AllFit(fields, values)
    ensures Consume(fields, Pack(fields, values) + rest) == Ok((values, rest))
  {
    var data := Pack(fields, values) + rest;
    var size := CalcSize(fields);
    assert data[..size] == Pack(fields, values);
    assert data[size..] == rest;
    UnpackPack(fields, values);
  }

  // The container's formats.

  /** `<5sBIB`: signature, version, size, targets. */
  const PrefixFormat: seq<Field> := [Chars(5), U8, U32, U8]
  /** `<6sBI255s2I`: signature, altsetting, named, name, size, elements. */
  const TargetFormat: seq<Field> := [Chars(6), U8, U32, Chars(255), U32, U32]
  /** `<2I`: addr, size. */
  const ElementFormat: seq<Field> := [U32, U32]
  /** `<4H3sBI`: device, product, vendor, dfu, ufd, len, crc. */
  const SuffixFormat: seq<Field> := [U16, U16, U16, U16, Chars(3), U8, U32]

  lemma FormatSizes()
    ensures CalcSize(PrefixFormat) == 11
    ensures CalcSize(TargetFormat) == 274
    ensures CalcSize(ElementFormat) == 8
    ensures CalcSize(SuffixFormat) == 16
  {
    assert PrefixFormat[1..][1..][1..][1..] == [];
    assert TargetFormat[1..][1..][1..][1..][1..][1..] == [];
    assert ElementFormat[1..][1..] == [];
    assert SuffixFormat[1..][1..][1..][1..][1..][1..][1..] == [];
  }
}
