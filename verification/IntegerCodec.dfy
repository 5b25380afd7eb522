/** The 32-byte little-endian encoding of the integers in keys and signatures. */
module IntegerCodec {
  import opened Bytes
  import opened ModArith
  import opened FieldInverse

  const WIDTH := 32

  /** Bit i of an integer, counting from the least; for a negative one, of its two's complement. */
  function Bit(y: int, i: nat): int {
    y / Pow2(i) % 2
  }

  /** The sum of 2^i over the one bits i < n. */
  function SumBits(bit: nat -> int, n: nat): int {
    if n == 0 then 0 else SumBits(bit, n - 1) + Pow2(n - 1) * bit(n - 1)
  }

  ghost predicate AreBits(bit: nat -> int) {
    forall i: nat :: bit(i) in {0, 1}
  }

  function From(bit: nat -> int, start: nat): nat -> int {
    (i: nat) => bit(start + i)
  }

  function EncodedByte(bit: nat -> int, i: nat): byte
    requires AreBits(bit)
  {
    SumBounded(From(bit, 8 * i), 8);
    Pow2OfEight();
    SumBits(From(bit, 8 * i), 8)
  }

  function EncodeBits(bit: nat -> int): (s: seq<byte>)
    requires AreBits(bit)
    ensures |s| == WIDTH
  {
    seq(WIDTH, i requires 0 <= i < WIDTH => EncodedByte(bit, i))
  }

  function BitsOfInt(y: int): (bit: nat -> int)
    ensures AreBits(bit)
  {
    (i: nat) => Bit(y, i)
  }

  function Encode(y: int): (s: seq<byte>)
    ensures |s| == WIDTH
  {
    EncodeBits(BitsOfInt(y))
  }

  function ByteBit(s: seq<byte>, i: nat): int
    requires i < 8 * |s|
  {
    Bit(s[i / 8], i % 8)
  }

  function BitsOf(s: seq<byte>): (bit: nat -> int)
    ensures AreBits(bit)
  {
    (i: nat) => if i < 8 * |s| then ByteBit(s, i) else 0
  }

  /** Like the source, only the first 32 bytes count, and there must be that many. */
  function Decode(s: seq<byte>): int
    requires |s| >= WIDTH
  {
    SumBits(BitsOf(s), 8 * WIDTH)
  }

  lemma Pow2OfEight()
    ensures Pow2(8) == 0x100
  {
    assert Pow2(4) == 16;
  }

  // ----- Bits and sums of bits -----

  /** Summing the low n bits of a number gives its residue modulo 2^n. */
  lemma {:induction false} SumIsResidue(bit: nat -> int, x: int, n: nat)
    requires forall k: nat :: k < n ==> bit(k) == Bit(x, k)
    ensures SumBits(bit, n) == x % Pow2(n)
  {
    if n == 0 {
      assert x % 1 == 0;
    } else {
      SumIsResidue(bit, x, n - 1);
      QuotientOfQuotient(x, Pow2(n - 1), 2);
    }
  }

  lemma {:induction false} SumBounded(bit: nat -> int, n: nat)
    requires AreBits(bit)
    ensures 0 <= SumBits(bit, n) < Pow2(n)
  {
    if n == 0 {
    } else {
      SumBounded(bit, n - 1);
    }
  }

  lemma BitOfResidue(x: int, n: nat, k: nat)
    requires k < n
    ensures Bit(x % Pow2(n), k) == Bit(x, k)
  {
    var v, w := Pow2(k), Pow2(n - k - 1);
    Pow2Add(k, n - k);
    QuotientOfQuotient(x, v, 2 * w);
    var a := x / v;
    DivisionUnique(x % Pow2(n), v, a % (2 * w), x % v);
    QuotientOfQuotient(a, 2, w);
    DivisionUnique(a % (2 * w), 2, a / 2 % w, a % 2);
  }

  /** The bits of a sum of bits. */
  lemma {:induction false} BitOfSum(bit: nat -> int, n: nat, k: nat)
    requires AreBits(bit)
    requires k < n
    ensures Bit(SumBits(bit, n), k) == bit(k)
  {
    SumBounded(bit, n - 1);
    var r := SumBits(bit, n - 1);
    if k == n - 1 {
      DivisionUnique(SumBits(bit, n), Pow2(k), bit(k), r);
    } else {
      BitOfSum(bit, n - 1, k);
      DivisionUnique(SumBits(bit, n), Pow2(n - 1), bit(n - 1), r);
      BitOfResidue(SumBits(bit, n), n - 1, k);
    }
  }

  // ----- Round trips -----

  /** The bits of what was encoded are the bits that were encoded. */
  lemma EncodedBit(bit: nat -> int, i: nat)
    requires AreBits(bit) && i < 8 * WIDTH
    ensures BitsOf(EncodeBits(bit))(i) == bit(i)
  {
    hide Bit;
    hide SumBits;
    BitOfSum(From(bit, 8 * (i / 8)), 8, i % 8);
  }

  /** Decoding an encoded integer gives it modulo 2^256: itself, when it has at most 256 bits. */
  lemma DecodeEncode(y: int)
    ensures Decode(Encode(y)) == y % Pow2(256)
  {
    hide Bit;
    hide Pow2;
    hide SumBits;
    hide BitsOf;
    var bit := BitsOf(Encode(y));
    forall k: nat | k < 256
      ensures bit(k) == Bit(y, k)
    {
      EncodedBit(BitsOfInt(y), k);
    }
    SumIsResidue(bit, y, 256);
  }

  /** Bytes are the encoding of their own bits. */
  lemma EncodedBits(bit: nat -> int, s: seq<byte>)
    requires AreBits(bit) && |s| == WIDTH
    requires forall k: nat :: k < 8 * WIDTH ==> bit(k) == BitsOf(s)(k)
    ensures EncodeBits(bit) == s
  {
    forall i | 0 <= i < WIDTH
      ensures EncodeBits(bit)[i] == s[i]
    {
      EncodedBitsAt(bit, s, i);
    }
  }

  lemma EncodedBitsAt(bit: nat -> int, s: seq<byte>, i: nat)
    requires AreBits(bit) && |s| == WIDTH && i < WIDTH
    requires forall k: nat :: k < 8 * WIDTH ==> bit(k) == BitsOf(s)(k)
    ensures EncodedByte(bit, i) == s[i]
  {
    hide Bit;
    hide Pow2;
    hide SumBits;
    var part := From(bit, 8 * i);
    forall k: nat | k < 8
      ensures part(k) == Bit(s[i], k)
    {
      assert BitsOf(s)(8 * i + k) == ByteBit(s, 8 * i + k);
    }
    SumIsResidue(part, s[i], 8);
    Pow2OfEight();
    DivisionUnique(s[i], 0x100, 0, s[i]);
  }

  /** Encoding what was decoded gives the 32 bytes back. */
  lemma EncodeDecode(s: seq<byte>)
    requires |s| == WIDTH
    ensures Encode(Decode(s)) == s
  {
    hide Bit;
    hide SumBits;
    hide BitsOf;
    var bit := BitsOfInt(Decode(s));
    forall k: nat | k < 256
      ensures bit(k) == BitsOf(s)(k)
    {
      BitOfSum(BitsOf(s), 256, k);
    }
    EncodedBits(bit, s);
  }
}
