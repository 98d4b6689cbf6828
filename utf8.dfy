/** Python's strict `bytes.decode("utf-8")` (well-formed sequences as in
    Table 3-7 of the Unicode Standard; anything else raises
    UnicodeDecodeError) and `_cstring` (pfu_util/parser.py:25-27), which
    decodes the whole field and keeps what precedes the first NUL. */
module Utf8 {
  import opened Base
  import Layout

  predicate IsCont(b: Byte) { 0x80 <= b <= 0xBF }

  /** A code point that is a Unicode scalar value, i.e. a Dafny `char`. */
  predicate IsScalar(x: int) { 0 <= x < 0xD800 || 0xE000 <= x < 0x11_0000 }

  /** The character the well-formed sequence at the front of `b` encodes, and
      its length; None when the front of `b` is not a well-formed sequence. */
  function DecodeFirst(b: seq<Byte>): (r: Option<(char, nat)>)
    requires b != []
    ensures r.Some? ==> 1 <= r.value.1 <= 4 && r.value.1 <= |b|
  {
    var b0 := b[0] as int;
    if b0 < 0x80 then Some((b0 as char, 1))
    else if 0xC2 <= b0 <= 0xDF then
      if |b| >= 2 && IsCont(b[1]) then
        Some((((b0 - 0xC0) * 64 + (b[1] as int - 0x80)) as char, 2))
      else None
    else if 0xE0 <= b0 <= 0xEF then
      var lo := if b0 == 0xE0 then 0xA0 else 0x80;
      var hi := if b0 == 0xED then 0x9F else 0xBF;
      if |b| >= 3 && lo <= b[1] <= hi && IsCont(b[2]) then
        var x := (b0 - 0xE0) * 4096 + (b[1] as int - 0x80) * 64 + (b[2] as int - 0x80);
        assert IsScalar(x);
        Some((x as char, 3))
      else None
    else if 0xF0 <= b0 <= 0xF4 then
      var lo := if b0 == 0xF0 then 0x90 else 0x80;
      var hi := if b0 == 0xF4 then 0x8F else 0xBF;
      if |b| >= 4 && lo <= b[1] <= hi && IsCont(b[2]) && IsCont(b[3]) then
        var x := (b0 - 0xF0) * 262144 + (b[1] as int - 0x80) * 4096 + (b[2] as int - 0x80) * 64 + (b[3] as int - 0x80);
        assert IsScalar(x);
        Some((x as char, 4))
      else None
    else None
  }

  /** `b.decode("utf-8")`; None where Python raises UnicodeDecodeError. */
  function Decode(b: seq<Byte>): Option<string>
    decreases |b|
  {
    if b == [] then Some([])
    else
      match DecodeFirst(b)
      case None => None
      case Some((c, n)) =>
        match Decode(b[n..])
        case None => None
        case Some(s) => Some([c] + s)
  }

  /** The UTF-8 encoding of one character. */
  function EncodeChar(c: char): (b: seq<Byte>)
    ensures 1 <= |b| <= 4
  {
    var x := c as int;
    if x < 0x80 then [x]
    else if x < 0x800 then [0xC0 + x / 64, 0x80 + x % 64]
    else if x < 0x1_0000 then [0xE0 + x / 4096, 0x80 + (x / 64) % 64, 0x80 + x % 64]
    else [0xF0 + x / 262144, 0x80 + (x / 4096) % 64, 0x80 + (x / 64) % 64, 0x80 + x % 64]
  }

  /** `s.encode("utf-8")`. */
  function Encode(s: string): seq<Byte>
  {
    if s == [] then [] else EncodeChar(s[0]) + Encode(s[1..])
  }

  /** Every character's encoding is read back as that character, whatever follows. */
  lemma DecodeFirstEncodeChar(c: char, rest: seq<Byte>)
    ensures DecodeFirst(EncodeChar(c) + rest) == Some((c, |EncodeChar(c)|))
  {
    var x := c as int;
    if x < 0x80 {
    } else if x < 0x800 {
      Decode2(c, x / 64, x % 64, rest);
    } else if x < 0x1_0000 {
      Decode3(c, x / 4096, (x / 64) % 64, x % 64, rest);
    } else {
      Decode4(c, x / 262144, (x / 4096) % 64, (x / 64) % 64, x % 64, rest);
    }
  }

  lemma Decode2(c: char, q: int, r: int, rest: seq<Byte>)
    requires 0x80 <= c as int < 0x800 && q == c as int / 64 && r == c as int % 64
    ensures DecodeFirst(EncodeChar(c) + rest) == Some((c, 2))
  {
    assert c as int == q * 64 + r;
    var b := EncodeChar(c) + rest;
    assert b[0] == 0xC0 + q && b[1] == 0x80 + r;
  }

  lemma Decode3(c: char, q: int, r1: int, r2: int, rest: seq<Byte>)
    requires 0x800 <= c as int < 0x1_0000
    requires q == c as int / 4096 && r1 == (c as int / 64) % 64 && r2 == c as int % 64
    ensures DecodeFirst(EncodeChar(c) + rest) == Some((c, 3))
  {
    assert c as int == q * 4096 + r1 * 64 + r2;
    var b := EncodeChar(c) + rest;
    assert b[0] == 0xE0 + q && b[1] == 0x80 + r1 && b[2] == 0x80 + r2;
  }

  lemma Decode4(c: char, q: int, r1: int, r2: int, r3: int, rest: seq<Byte>)
    requires 0x1_0000 <= c as int
    requires q == c as int / 262144 && r1 == (c as int / 4096) % 64
    requires r2 == (c as int / 64) % 64 && r3 == c as int % 64
    ensures DecodeFirst(EncodeChar(c) + rest) == Some((c, 4))
  {
    Digits4(c as int, q, r1, r2, r3);
    var b := EncodeChar(c) + rest;
    assert b[0] == 0xF0 + q && b[1] == 0x80 + r1 && b[2] == 0x80 + r2 && b[3] == 0x80 + r3;
  }

  /** The base-64 digits of a supplementary code point, with the ranges
      the four-byte form allows for the second byte. */
  lemma Digits4(x: int, q: int, r1: int, r2: int, r3: int)
    requires 0x1_0000 <= x < 0x11_0000
    requires q == x / 262144 && r1 == (x / 4096) % 64 && r2 == (x / 64) % 64 && r3 == x % 64
    ensures x == q * 262144 + r1 * 4096 + r2 * 64 + r3
    ensures 0 <= q <= 4 && 0 <= r1 < 64 && 0 <= r2 < 64 && 0 <= r3 < 64
    ensures q == 0 ==> r1 >= 16
    ensures q == 4 ==> r1 < 16
  {
    assert x / 4096 == q * 64 + r1;
    assert x / 64 == (x / 4096) * 64 + r2;
  }

  /** Decoding an encoding followed by more bytes decodes those bytes after it. */
  lemma {:induction false} DecodeAppend(s: string, tail: seq<Byte>)
    ensures Decode(Encode(s) + tail) == match Decode(tail) case None => None case Some(u) => Some(s + u)
  {
    if s != [] {
      var e := EncodeChar(s[0]);
      var b := Encode(s) + tail;
      assert b == e + (Encode(s[1..]) + tail);
      DecodeFirstEncodeChar(s[0], Encode(s[1..]) + tail);
      assert b[|e|..] == Encode(s[1..]) + tail;
      DecodeAppend(s[1..], tail);
      if Decode(tail).Some? {
        assert [s[0]] + (s[1..] + Decode(tail).value) == s + Decode(tail).value;
      }
    } else {
      assert Encode(s) + tail == tail;
      if Decode(tail).Some? {
        assert s + Decode(tail).value == Decode(tail).value;
      }
    }
  }

  /** Decoding undoes encoding. */
  lemma DecodeEncode(s: string)
    ensures Decode(Encode(s)) == Some(s)
  {
    DecodeAppend(s, []);
    assert Encode(s) + [] == Encode(s);
    assert s + [] == s;
  }

  /** Bytes below 0x80 decode one to one, as ASCII. */
  lemma {:induction false} DecodeAscii(b: seq<Byte>)
    requires forall i :: 0 <= i < |b| ==> b[i] < 0x80
    ensures Decode(b).Some? && |Decode(b).value| == |b|
    ensures forall i :: 0 <= i < |b| ==> Decode(b).value[i] as int == b[i]
    decreases |b|
  {
    if b != [] {
      DecodeAscii(b[1..]);
      var s := Decode(b).value;
      assert s == [b[0] as char] + Decode(b[1..]).value;
      forall i | 1 <= i < |b|
        ensures s[i] as int == b[i]
      {
        assert s[i] == Decode(b[1..]).value[i - 1];
        assert b[1..][i - 1] == b[i];
      }
    }
  }

  /** `_cstring`: decode the whole field (so bytes after the NUL must be
      well-formed too), then keep what precedes the first NUL. */
  function CString(b: seq<Byte>): (r: Result<string>)
    ensures r.Ok? <==> Decode(b).Some?
    ensures r.Ok? ==> '\0' !in r.value
  {
    match Decode(b)
    case None => Err(UnicodeDecodeError)
    case Some(s) =>
      NoNulBeforeSplit(s);
      Ok(Layout.Split(s, '\0')[0])
  }

  /** The first piece of a split never holds the separator. */
  lemma {:induction false} NoNulBeforeSplit(s: string)
    ensures '\0' !in Layout.Split(s, '\0')[0]
  {
    if s != [] {
      NoNulBeforeSplit(s[1..]);
    }
  }

  /** A NUL-free name, terminated and padded, reads back as the name exactly
      when the padding decodes; padding that is not UTF-8 raises even though
      it lies past the terminator. */
  lemma CStringOfName(name: string, padding: seq<Byte>)
    requires '\0' !in name
    ensures CString(Encode(name) + [0] + padding) ==
      if Decode(padding).Some? then Ok(name) else Err(UnicodeDecodeError)
  {
    var nul := [0 as Byte];
    assert Encode(name) + [0] + padding == Encode(name) + (nul + padding);
    DecodeAppend(name, nul + padding);
    DecodeFirstEncodeChar('\0', padding);
    assert EncodeChar('\0') == nul;
    assert (nul + padding)[1..] == padding;
    if Decode(padding).Some? {
      var u := Decode(padding).value;
      assert Decode(nul + padding) == Some(['\0'] + u);
      assert name + (['\0'] + u) == name + ['\0'] + u;
      Layout.SplitPrefix(name, ['\0'] + u, '\0');
      assert name + [] == name;
    }
  }
}
