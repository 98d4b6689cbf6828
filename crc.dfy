/** The CRC-32 that `zlib.crc32` computes (reflected, polynomial 0xEDB88320,
    initial register 0xFFFFFFFF, final xor 0xFFFFFFFF) and the container
    checksum `_compute_crc` derives from it (pfu_util/parser.py:30-32). */
module Crc {
  import opened Base

  const Polynomial: bv32 := 0xEDB88320
  const Modulus: int := 0x1_0000_0000

  /** One bit of the reflected shift register. */
  function ShiftBit(reg: bv32): bv32
  {
    if reg & 1 == 1 then (reg >> 1) ^ Polynomial else reg >> 1
  }

  /** Feeds one byte into the register, low bit first. */
  function UpdateByte(reg: bv32, b: Byte): bv32
  {
    var r := reg ^ (b as bv32);
    ShiftBit(ShiftBit(ShiftBit(ShiftBit(ShiftBit(ShiftBit(ShiftBit(ShiftBit(r))))))))
  }

  /** The register after feeding `data` in order, before the final xor. */
  function Register(data: seq<Byte>): bv32
  {
    if data == [] then 0xFFFF_FFFF else UpdateByte(Register(data[..|data| - 1]), data[|data| - 1])
  }

  /** The low byte of a register. */
  function Low(r: bv32): bv8 { (r & 0xFF) as bv8 }

  /** A byte-wide bit-vector as a number. */
  function Num(x: bv8): Byte { x as int }

  /** The four bytes of a register, least significant first. */
  function RegisterBytes(r: bv32): (b: seq<Byte>)
    ensures |b| == 4
  {
    [Num(Low(r)), Num(Low(r >> 8)), Num(Low(r >> 16)), Num(Low(r >> 24))]
  }

  /** A register read as an unsigned integer. */
  function Value(r: bv32): nat
  {
    Num(Low(r)) + 256 * Num(Low(r >> 8)) + 65536 * Num(Low(r >> 16)) + 16777216 * Num(Low(r >> 24))
  }

  /** A register's value is the little-endian reading of its bytes. */
  lemma ValueIsLeUint(r: bv32)
    ensures Value(r) == LeUint(RegisterBytes(r))
  {
    LeUint4(RegisterBytes(r));
  }

  /** zlib.crc32(data): the register with every bit inverted, as an unsigned int. */
  function Crc32(data: seq<Byte>): nat
  {
    Value(Register(data) ^ 0xFFFF_FFFF)
  }

  /** `_compute_crc`: `0xFFFFFFFF & -zlib.crc32(data) - 1`. Python's `&` with a
      mask of 32 ones is reduction modulo 2^32 (Dafny's `%` is Euclidean, so it
      agrees on negative operands). */
  function ComputeCrc(data: seq<Byte>): int
  {
    (-(Crc32(data) as int) - 1) % Modulus
  }

  lemma ValueBound(r: bv32)
    ensures Value(r) < Modulus
  {
  }

  lemma LowOfNot(x: bv8)
    ensures Num(x ^ 0xFF) == 255 - Num(x)
  {
  }

  lemma NotBytes(r: bv32)
    ensures Low(r ^ 0xFFFF_FFFF) == Low(r) ^ 0xFF
    ensures Low((r ^ 0xFFFF_FFFF) >> 8) == Low(r >> 8) ^ 0xFF
    ensures Low((r ^ 0xFFFF_FFFF) >> 16) == Low(r >> 16) ^ 0xFF
    ensures Low((r ^ 0xFFFF_FFFF) >> 24) == Low(r >> 24) ^ 0xFF
  {
  }

  /** Inverting every bit of a register takes its value `v` to `2^32 - 1 - v`. */
  lemma ValueOfNot(r: bv32)
    ensures Value(r ^ 0xFFFF_FFFF) == 0xFFFF_FFFF - Value(r)
  {
    NotBytes(r);
    LowOfNot(Low(r));
    LowOfNot(Low(r >> 8));
    LowOfNot(Low(r >> 16));
    LowOfNot(Low(r >> 24));
  }

  /** The checksum is the one's complement of zlib's CRC-32, and is a u32. */
  lemma ComputeCrcIsComplement(data: seq<Byte>)
    ensures 0 <= ComputeCrc(data) < Modulus
    ensures ComputeCrc(data) == 0xFFFF_FFFF - Crc32(data)
  {
    ValueBound(Register(data) ^ 0xFFFF_FFFF);
    MaskedComplement(Crc32(data));
  }

  /** Python's `0xFFFFFFFF & -c - 1` for a u32 `c`. */
  lemma MaskedComplement(c: int)
    requires 0 <= c < Modulus
    ensures (-c - 1) % Modulus == Modulus - 1 - c
  {
    assert -c - 1 == -1 * Modulus + (Modulus - 1 - c);
  }

  /** Complementing undoes zlib's final xor: the checksum is the value of the
      raw register, and its little-endian bytes are the register's bytes. */
  lemma ComputeCrcIsRegister(data: seq<Byte>)
    ensures ComputeCrc(data) == Value(Register(data))
    ensures LeBytes(ComputeCrc(data), 4) == RegisterBytes(Register(data))
  {
    var r := Register(data);
    var c := ComputeCrc(data);
    assert c == Value(r) by {
      ComputeCrcIsComplement(data);
      ValueOfNot(r);
    }
    var b := RegisterBytes(r);
    assert LeBytes(c, 4) == b by {
      ValueIsLeUint(r);
      LeBytesOfLeUint(b);
    }
  }

  /** One byte of the check computation below: the register after a prefix
      one byte longer. */
  lemma RegisterStep(data: seq<Byte>, k: nat, before: bv32, after: bv32)
    requires k < |data| && Register(data[..k]) == before && UpdateByte(before, data[k]) == after
    ensures Register(data[..k + 1]) == after
  {
    assert data[..k + 1][..k] == data[..k];
  }

  /** The standard check value: CRC-32 of the ASCII digits "123456789"
      (bytes 0x31 to 0x39) is 0xCBF43926. */
  lemma CheckValue(digits: seq<Byte>)
    requires |digits| == 9 && forall i :: 0 <= i < 9 ==> digits[i] == 0x31 + i
    ensures Crc32(digits) == 0xCBF4_3926
    ensures ComputeCrc(digits) == 0x340B_C6D9
  {
    CheckRegister(digits);
    assert Value(0x340b_c6d9 ^ 0xFFFF_FFFF) == 0xCBF4_3926;
    ComputeCrcIsComplement(digits);
  }

  /** The register after each digit, from the initial 0xFFFFFFFF. */
  lemma CheckRegister(digits: seq<Byte>)
    requires |digits| == 9 && forall i :: 0 <= i < 9 ==> digits[i] == 0x31 + i
    ensures Register(digits) == 0x340b_c6d9
  {
    assert digits[..0] == [];
    CheckSteps(digits, 0, 3);
    CheckSteps(digits, 3, 6);
    CheckSteps(digits, 6, 9);
    WholePrefix(digits);
  }

  /** Three more digits of the check computation. */
  lemma CheckSteps(digits: seq<Byte>, k: nat, next: nat)
    requires |digits| == 9 && forall i :: 0 <= i < 9 ==> digits[i] == 0x31 + i
    requires k == 0 || k == 3 || k == 6
    requires next == k + 3
    requires Register(digits[..k]) == CheckTrail(k)
    ensures Register(digits[..next]) == CheckTrail(next)
  {
    CheckUpdates(k);
    RegisterStep(digits, k, CheckTrail(k), CheckTrail(k + 1));
    RegisterStep(digits, k + 1, CheckTrail(k + 1), CheckTrail(k + 2));
    RegisterStep(digits, k + 2, CheckTrail(k + 2), CheckTrail(k + 3));
  }

  /** The register after the first `k` digits. */
  function CheckTrail(k: nat): bv32
  {
    if k == 0 then 0xffff_ffff else
    if k == 1 then 0x7c23_1048 else
    if k == 2 then 0xb0ac_bb32 else
    if k == 3 then 0x77b7_9c2d else
    if k == 4 then 0x641c_1f5c else
    if k == 5 then 0x340a_c5e3 else
    if k == 6 then 0xf68d_2c9e else
    if k == 7 then 0xaffc_9660 else
    if k == 8 then 0x651f_2550 else
    0x340b_c6d9
  }

  lemma CheckUpdates(k: nat)
    requires k == 0 || k == 3 || k == 6
    ensures UpdateByte(CheckTrail(k), 0x31 + k) == CheckTrail(k + 1)
    ensures UpdateByte(CheckTrail(k + 1), 0x32 + k) == CheckTrail(k + 2)
    ensures UpdateByte(CheckTrail(k + 2), 0x33 + k) == CheckTrail(k + 3)
  {
    if k == 0 {
      assert CheckTrail(0) == 0xffff_ffff && CheckTrail(1) == 0x7c23_1048;
      assert CheckTrail(2) == 0xb0ac_bb32 && CheckTrail(3) == 0x77b7_9c2d;
      CheckUpdates1();
      CheckUpdates2();
    } else if k == 3 {
      assert CheckTrail(3) == 0x77b7_9c2d && CheckTrail(4) == 0x641c_1f5c;
      assert CheckTrail(5) == 0x340a_c5e3 && CheckTrail(6) == 0xf68d_2c9e;
      CheckUpdates2();
      CheckUpdates3();
    } else {
      assert CheckTrail(6) == 0xf68d_2c9e && CheckTrail(7) == 0xaffc_9660;
      assert CheckTrail(8) == 0x651f_2550 && CheckTrail(9) == 0x340b_c6d9;
      CheckUpdates4();
      CheckUpdates5();
    }
  }

  lemma WholePrefix(d: seq<Byte>)
    ensures d[..|d|] == d
  {
  }

  lemma CheckUpdates1()
    ensures UpdateByte(0xffff_ffff, 0x31) == 0x7c23_1048
    ensures UpdateByte(0x7c23_1048, 0x32) == 0xb0ac_bb32
  {
  }

  lemma CheckUpdates2()
    ensures UpdateByte(0xb0ac_bb32, 0x33) == 0x77b7_9c2d
    ensures UpdateByte(0x77b7_9c2d, 0x34) == 0x641c_1f5c
  {
  }

  lemma CheckUpdates3()
    ensures UpdateByte(0x641c_1f5c, 0x35) == 0x340a_c5e3
    ensures UpdateByte(0x340a_c5e3, 0x36) == 0xf68d_2c9e
  {
  }

  lemma CheckUpdates4()
    ensures UpdateByte(0xf68d_2c9e, 0x37) == 0xaffc_9660
    ensures UpdateByte(0xaffc_9660, 0x38) == 0x651f_2550
  {
  }

  lemma CheckUpdates5()
    ensures UpdateByte(0x651f_2550, 0x39) == 0x340b_c6d9
  {
  }
}
