/** Values shared by every part of the model: bytes, little-endian integers,
    the exceptions the Python code raises, and the Result/Outcome wrappers that
    stand for "returns a value" / "raises". */
module Base {

  type Byte = x: int | 0 <= x < 256

  datatype Option<T> = None | Some(value: T)

  /** The Python exceptions the modelled code can raise. */
  datatype Error =
    | UsbFailure(text: string)   // usb.core.USBError (its str()), USBTimeoutError included
    | RuntimeError(msg: string)
    | ValueError(msg: string)
    | IndexError                 // a list or reply indexed past its end
    | StructError                // struct.pack/unpack given a value or buffer it cannot take
    | AssertionError
    | AttributeError             // a method called on None (a failed re.match)
    | UnicodeDecodeError

  /** A call that either returns a value or raises. */
  datatype Result<T> = Ok(value: T) | Err(error: Error) {
    predicate IsFailure() { Err? }
    function PropagateFailure<U>(): Result<U> requires Err? { Err(error) }
    function Extract(): T requires Ok? { value }
  }

  /** A call that returns None or raises. */
  datatype Outcome = Pass | Fail(error: Error) {
    predicate IsFailure() { Fail? }
    function PropagateFailure(): Outcome requires Fail? { this }
  }

  function Pow256(n: nat): (p: nat)
    ensures p >= 1
  {
    if n == 0 then 1 else 256 * Pow256(n - 1)
  }

  lemma Pow256Values()
    ensures Pow256(1) == 0x100 && Pow256(2) == 0x1_0000 && Pow256(4) == 0x1_0000_0000
  {
    assert Pow256(2) == 256 * Pow256(1);
    assert Pow256(4) == 256 * (256 * Pow256(2));
  }

  /** The unsigned integer whose little-endian encoding is `b`. */
  function LeUint(b: seq<Byte>): nat
  {
    if b == [] then 0 else b[0] + 256 * LeUint(b[1..])
  }

  /** The `n`-byte little-endian encoding of `x`, as struct.pack writes it. */
  function LeBytes(x: nat, n: nat): (b: seq<Byte>)
    ensures |b| == n
  {
    if n == 0 then [] else [x % 256] + LeBytes(x / 256, n - 1)
  }

  lemma {:induction false} LeUintBound(b: seq<Byte>)
    ensures LeUint(b) < Pow256(|b|)
  {
    if b != [] {
      LeUintBound(b[1..]);
    }
  }

  /** Decoding an encoding gives back every value that fits in `n` bytes. */
  lemma {:induction false} LeUintOfLeBytes(x: nat, n: nat)
    requires x < Pow256(n)
    ensures LeUint(LeBytes(x, n)) == x
  {
    if n > 0 {
      LeUintOfLeBytes(x / 256, n - 1);
    }
  }

  /** Encoding a decoded value gives back the bytes. */
  lemma {:induction false} LeBytesOfLeUint(b: seq<Byte>)
    ensures LeBytes(LeUint(b), |b|) == b
  {
    if b != [] {
      LeBytesOfLeUint(b[1..]);
      assert LeUint(b) / 256 == LeUint(b[1..]);
    }
  }

  /** The value of a four-byte little-endian field, written out. */
  lemma LeUint4(b: seq<Byte>)
    requires |b| == 4
    ensures LeUint(b) == b[0] as int + 256 * (b[1] as int) + 65536 * (b[2] as int) + 16777216 * (b[3] as int)
  {
    var t1 := b[1..];
    var t2 := t1[1..];
    var t3 := t2[1..];
    assert t3[1..] == [];
    assert LeUint(t3) == t3[0];
    assert LeUint(t2) == t2[0] + 256 * LeUint(t3);
    assert LeUint(t1) == t1[0] + 256 * LeUint(t2);
  }

  /** The value of a two-byte little-endian field, written out. */
  lemma LeUint2(b: seq<Byte>)
    requires |b| == 2
    ensures LeUint(b) == b[0] as int + 256 * (b[1] as int)
  {
    var t1 := b[1..];
    assert t1[1..] == [];
    assert LeUint(t1) == t1[0];
  }

  /** Two byte strings of one length with the same value are the same string. */
  lemma LeUintInjective(a: seq<Byte>, b: seq<Byte>)
    requires |a| == |b| && LeUint(a) == LeUint(b)
    ensures a == b
  {
    LeBytesOfLeUint(a);
    LeBytesOfLeUint(b);
  }

  /** Python's `a in s` for strings: `needle` occurs somewhere in `hay`. */
  predicate Contains(hay: string, needle: string)
  {
    |needle| <= |hay| && (hay[..|needle|] == needle || Contains(hay[1..], needle))
  }

  function Min(a: int, b: int): int { if a <= b then a else b }
}
