/** Unsigned integers of fixed width, the byte-level operations the C code applies to them, and optional values. */
module Bytes {

  type byte = x: int | 0 <= x < 0x100
  type uint16 = x: int | 0 <= x < 0x1_0000
  type uint32 = x: int | 0 <= x < 0x1_0000_0000

  /** What SHA-512 gives. */
  type Digest = s: seq<byte> | |s| == 64 witness seq(64, _ => 0)

  datatype Option<+T> = None | Some(value: T)

  const U32: int := 0x1_0000_0000

  function Zeros(n: nat): (s: seq<byte>)
    ensures |s| == n
  {
    seq(n, _ => 0)
  }

  /** The sign of the first difference of two buffers of one length, as `memcmp` reports it. */
  function Memcmp(a: seq<byte>, b: seq<byte>): int
    requires |a| == |b|
  {
    if a == [] then 0
    else if a[0] < b[0] then -1
    else if a[0] > b[0] then 1
    else Memcmp(a[1..], b[1..])
  }

  lemma {:induction false} MemcmpAntisymmetric(a: seq<byte>, b: seq<byte>)
    requires |a| == |b|
    ensures Memcmp(a, b) == -Memcmp(b, a)
    ensures Memcmp(a, b) == 0 <==> a == b
  {
    if a == [] {
    } else {
      MemcmpAntisymmetric(a[1..], b[1..]);
      assert a == [a[0]] + a[1..] && b == [b[0]] + b[1..];
    }
  }

  function Pow2(n: nat): (p: nat)
    ensures p > 0
  {
    if n == 0 then 1 else 2 * Pow2(n - 1)
  }

  /** Exclusive or of the n low bits of two numbers. */
  function XorBits(a: nat, b: nat, n: nat): (x: nat)
    ensures x < Pow2(n)
  {
    if n == 0 then 0 else 2 * XorBits(a / 2, b / 2, n - 1) + (if a % 2 == b % 2 then 0 else 1)
  }

  function Xor(a: byte, b: byte): byte {
    assert Pow2(8) == 0x100 by {
      assert Pow2(4) == 16;
    }
    XorBits(a, b, 8)
  }

  lemma LowestBit(m: nat, b: nat)
    requires b < 2
    ensures (2 * m + b) / 2 == m && (2 * m + b) % 2 == b
  {
  }

  lemma XorBitsStep(a: nat, k: nat, n: nat)
    requires n > 0
    ensures XorBits(a, k, n) / 2 == XorBits(a / 2, k / 2, n - 1)
    ensures XorBits(a, k, n) % 2 == if a % 2 == k % 2 then 0 else 1
  {
    LowestBit(XorBits(a / 2, k / 2, n - 1), if a % 2 == k % 2 then 0 else 1);
  }

  lemma {:induction false} XorBitsCancel(a: nat, k: nat, n: nat)
    requires a < Pow2(n)
    ensures XorBits(XorBits(a, k, n), k, n) == a
  {
    if n == 0 {
    } else {
      var x := XorBits(a, k, n);
      HalfBelow(a, n);
      XorBitsCancel(a / 2, k / 2, n - 1);
      XorBitsStep(a, k, n);
      XorBitsStep(x, k, n);
      hide XorBits;
      var y := XorBits(x, k, n);
      assert y / 2 == a / 2 && y % 2 == a % 2;
    }
  }

  lemma HalfBelow(a: nat, n: nat)
    requires n > 0 && a < Pow2(n)
    ensures a / 2 < Pow2(n - 1)
  {
  }

  lemma XorCancel(a: byte, k: byte)
    ensures Xor(Xor(a, k), k) == a
  {
    assert Pow2(4) == 16;
    XorBitsCancel(a, k, 8);
  }

  /** A 16-bit number, most significant byte first. */
  function BigEndian16(x: uint16): (s: seq<byte>)
    ensures |s| == 2
  {
    [x / 0x100, x % 0x100]
  }

  /** A 32-bit number, most significant byte first. */
  function BigEndian32(x: uint32): (s: seq<byte>)
    ensures |s| == 4
  {
    [x / 0x100_0000, x / 0x1_0000 % 0x100, x / 0x100 % 0x100, x % 0x100]
  }

  function Word32(b0: byte, b1: byte, b2: byte, b3: byte): uint32 {
    b0 * 0x100_0000 + b1 * 0x1_0000 + b2 * 0x100 + b3
  }

  lemma LastDigit(hi: int, lo: byte, v: int)
    ensures hi * 0x100 + lo == v <==> hi == v / 0x100 && lo == v % 0x100
  {
  }

  /** Four bytes give a number exactly when they are its bytes. */
  lemma Word32Exact(b0: byte, b1: byte, b2: byte, b3: byte, v: uint32)
    ensures Word32(b0, b1, b2, b3) == v <==> [b0, b1, b2, b3] == BigEndian32(v)
  {
    var x, y := v / 0x100, v / 0x1_0000;
    LastDigit(b0 * 0x1_0000 + b1 * 0x100 + b2, b3, v);
    LastDigit(b0 * 0x100 + b1, b2, x);
    LastDigit(b0, b1, y);
    assert x / 0x100 == y && y / 0x100 == v / 0x100_0000;
  }

  function Word16(hi: byte, lo: byte): uint16 {
    (hi as int) * 0x100 + lo
  }

  lemma Word16Exact(hi: byte, lo: byte, v: uint16)
    ensures Word16(hi, lo) == v <==> [hi, lo] == BigEndian16(v)
  {
    LastDigit(hi, lo, v);
  }

  lemma MultipleAway(a: int, k: int)
    ensures (a - U32 * k) % U32 == a % U32
  {
  }
}
