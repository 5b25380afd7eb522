/**
 * Keys, signatures and verdicts byte by byte: which numbers the halves of a signature are, from the hash
 * function and sums of copies of the base point alone.
 */
module SignatureBytes {
  import opened Bytes
  import opened ModArith
  import opened FieldInverse
  import opened Edwards
  import opened GroupLaw
  import opened ScalarMult
  import opened IntegerCodec
  import opened PointCodec
  import opened SignatureCheck
  import opened Signatures

  /** A number, least significant byte first. */
  function Little(s: seq<byte>): nat {
    if s == [] then 0 else s[0] + 0x100 * Little(s[1..])
  }

  lemma {:induction false} LittleBounded(s: seq<byte>)
    ensures Little(s) < Pow2(8 * |s|)
    decreases |s|
  {
    if s == [] {
      assert 8 * |s| == 0;
    } else {
      LittleBounded(s[1..]);
      Pow2OfEight();
      Pow2Add(8, 8 * |s| - 8);
    }
  }

  lemma {:induction false} LittleInjective(s: seq<byte>, t: seq<byte>)
    requires |s| == |t| && Little(s) == Little(t)
    ensures s == t
    decreases |s|
  {
    if s == [] {
    } else {
      FirstDigit(s[0], Little(s[1..]), t[0], Little(t[1..]));
      LittleInjective(s[1..], t[1..]);
      assert s == [s[0]] + s[1..] && t == [t[0]] + t[1..];
    }
  }

  lemma FirstDigit(a: byte, x: nat, b: byte, y: nat)
    requires a + 0x100 * x == b + 0x100 * y
    ensures a == b && x == y
  {
  }

  // ----- Bits and bytes -----

  lemma {:induction false} BitOfLittle(s: seq<byte>, k: nat)
    requires k < 8 * |s|
    ensures Bit(Little(s), k) == BitsOf(s)(k)
    decreases |s|
  {
    hide Bit;
    var rest := Little(s[1..]);
    Pow2OfEight();
    if k < 8 {
      DivisionUnique(Little(s), 0x100, rest, s[0]);
      BitOfResidue(Little(s), 8, k);
    } else {
      BitOfLittle(s[1..], k - 8);
      BitAbove(s[0], rest, k);
      assert s[1..][(k - 8) / 8] == s[k / 8] && (k - 8) % 8 == k % 8;
    }
  }

  lemma BitAbove(b: byte, rest: nat, k: nat)
    requires k >= 8
    ensures Bit(b + 0x100 * rest, k) == Bit(rest, k - 8)
  {
    Pow2OfEight();
    Pow2Add(8, k - 8);
    QuotientOfQuotient(b + 0x100 * rest, 0x100, Pow2(k - 8));
    DivisionUnique(b + 0x100 * rest, 0x100, rest, b);
  }

  /** The low n bits of bytes, summed up. */
  lemma BitsAreLittle(s: seq<byte>, n: nat)
    requires n <= 8 * |s|
    ensures SumBits(BitsOf(s), n) == Little(s) % Pow2(n)
  {
    hide Bit;
    hide BitsOf;
    forall k: nat | k < n
      ensures BitsOf(s)(k) == Bit(Little(s), k)
    {
      BitOfLittle(s, k);
    }
    SumIsResidue(BitsOf(s), Little(s), n);
  }

  lemma AllBitsAreLittle(s: seq<byte>)
    ensures SumBits(BitsOf(s), 8 * |s|) == Little(s)
  {
    BitsAreLittle(s, 8 * |s|);
    LittleBounded(s);
    DivisionUnique(Little(s), Pow2(8 * |s|), 0, Little(s));
  }

  /** A number read from bytes, and written as 32 bytes. */
  lemma CodecIsLittle(s: seq<byte>, y: int)
    requires |s| == WIDTH
    ensures Decode(s) == Little(s)
    ensures Little(Encode(y)) == y % Pow2(256)
  {
    hide Pow2;
    hide SumBits;
    AllBitsAreLittle(s);
    AllBitsAreLittle(Encode(y));
    DecodeEncode(y);
  }

  lemma HashedIsLittle(hash: Hash, m: seq<byte>)
    ensures HashedInt(hash, m) == Little(hash(m))
  {
    hide SumBits;
    AllBitsAreLittle(hash(m));
  }

  // ----- The secret scalar -----

  /** 2^254, and the low 254 bits of a number without the lowest three. */
  function Clamped(n: nat): nat {
    Pow2(254) + n % Pow2(254) / 8 * 8
  }

  lemma {:induction false} ClampedSum(h: Digest, n: nat)
    requires 3 <= n <= 512
    ensures SumBits(ClampedBits(h), n) == SumBits(BitsOf(h), n) - SumBits(BitsOf(h), 3)
    decreases n
  {
    hide Pow2;
    hide BitsOf;
    if n == 3 {
      assert SumBits(ClampedBits(h), 2) == SumBits(ClampedBits(h), 1) == SumBits(ClampedBits(h), 0) == 0;
    } else {
      ClampedSum(h, n - 1);
    }
  }

  /** The scalar of a key: the low 254 bits of its hash, the three lowest cleared, and bit 254 set. */
  lemma SecretIs(h: Digest)
    ensures SecretScalar(h) == Clamped(Little(h))
  {
    var n := Little(h);
    assert Pow2(3) == 8;
    ClampedSum(h, 254);
    BitsAreLittle(h, 254);
    BitsAreLittle(h, 3);
    hide ClampedBits;
    hide SumBits;
    hide Pow2;
    Pow2Split();
    QuotientOfQuotient(n, 8, Pow2(251));
    var r := n % Pow2(254);
    DivisionUnique(r, 8, n / 8 % Pow2(251), n % 8);
  }

  lemma Pow2Split()
    ensures Pow2(254) == 8 * Pow2(251)
  {
    Pow2Add(3, 251);
    assert Pow2(3) == 8;
  }

  // ----- Points -----

  /** Bytes that are the encoding of a point: y, and the lowest bit of x on top. */
  ghost predicate Encodes(s: seq<byte>, a: Affine) {
    |s| == 32 && Little(s) == a.y + Pow2(255) * (a.x % 2)
  }

  lemma EncodingIs(c: Curve, p: Point)
    requires Encodable(c) && OnCurve(c, p)
    ensures Encodes(EncodePoint(c, p), ToAffine(c, p))
  {
    hide Bit;
    hide Pow2;
    hide BitsOf;
    hide OnCurve;
    hide ToAffine;
    hide Good;
    ToAffineIsElement(c, p);
    EncodedBytes(ToAffine(c, p));
  }

  lemma EncodedBytes(a: Affine)
    requires 0 <= a.y < Pow2(255)
    ensures Encodes(EncodeBits(PointBits(a)), a)
  {
    hide Bit;
    hide Pow2;
    hide BitsOf;
    hide EncodeBits;
    var s := EncodeBits(PointBits(a));
    forall k: nat | k < 256
      ensures BitsOf(s)(k) == PointBits(a)(k)
    {
      EncodedBit(PointBits(a), k);
    }
    AllBitsAreLittle(s);
    SumIsResidue(BitsOf(s), a.y, 255);
    DivisionUnique(a.y, Pow2(255), 0, a.y);
  }

  lemma EncodingTells(c: Curve, p: Point, r: Point)
    requires Encodable(c) && OnCurve(c, p) && OnCurve(c, r)
    ensures EncodePoint(c, p) == EncodePoint(c, r) <==> ToAffine(c, p) == ToAffine(c, r)
  {
    hide Good;
    hide OnCurve;
    hide ToAffine;
    hide DecodePoint;
    DecodesEncoded(c, p);
    DecodesEncoded(c, r);
  }

  // ----- Public keys and signatures -----

  /** The sum of n copies of the base point. */
  function Copies(g: Scheme, n: nat): Affine
    requires g.c.q > 2
  {
    Times(g.c, ToAffine(g.c, g.b), n)
  }

  lemma MultBIs(g: Scheme, e: nat)
    requires Proper(g)
    ensures OnCurve(g.c, MultB(g, e)) && ToAffine(g.c, MultB(g, e)) == Copies(g, e)
    ensures Encodes(EncodePoint(g.c, MultB(g, e)), Copies(g, e))
  {
    hide OnCurve;
    hide ToAffine;
    hide AtBits;
    hide Doubled;
    hide Times;
    hide ScalarMult.ScalarMult;
    hide AffineScalarMult;
    PrimeOfGood(g.c);
    hide Good;
    ToAffineIsElement(g.c, g.b);
    TableMultiplies(g.c, g.b, g.table, e);
    BaseOrder(g);
    TimesReduced(g.c, ToAffine(g.c, g.b), e);
    EncodingIs(g.c, MultB(g, e));
  }

  lemma BaseOrder(g: Scheme)
    requires Proper(g)
    ensures Times(g.c, ToAffine(g.c, g.b), ORDER) == ZERO
  {
    hide OnCurve;
    hide ToAffine;
    hide Doubled;
    hide ScalarMult.ScalarMult;
    hide AffineScalarMult;
    PrimeOfGood(g.c);
    hide Good;
    ToAffineIsElement(g.c, g.b);
    ScalarMultRefines(g.c, g.b, ORDER);
    ScalarMultIsTimes(g.c, ToAffine(g.c, g.b), ORDER);
  }

  /** The public key of a secret key encodes as many copies of the base point as its scalar. */
  lemma PublicKeyIs(g: Scheme, sk: seq<byte>)
    requires Proper(g)
    ensures Encodes(PublicKey(g, sk), Copies(g, Clamped(Little(g.hash(sk)))))
  {
    hide Proper;
    hide MultB;
    hide Copies;
    hide EncodePoint;
    hide Encodes;
    assert Usable(g) by {
      ProperIsUsable(g);
    }
    SecretIs(g.hash(sk));
    MultBIs(g, SecretScalar(g.hash(sk)));
  }

  lemma ProperIsUsable(g: Scheme)
    requires Proper(g)
    ensures Usable(g)
  {
  }

  /** The number that a signature hides: the hash of the second half of the hashed key, followed by the message. */
  function NonceOf(hash: Hash, m: seq<byte>, sk: seq<byte>): nat {
    Little(hash(hash(sk)[32..64] + m))
  }

  /**
   * The first half of a signature encodes r copies of the base point; the second is r plus the hash of the first half,
   * the public key and the message times the secret scalar, modulo l, as a number.
   */
  lemma SignatureIs(g: Scheme, m: seq<byte>, sk: seq<byte>, pk: seq<byte>)
    requires Proper(g)
    ensures Usable(g)
    ensures var s, r := Sign(g, m, sk, pk), NonceOf(g.hash, m, sk);
            && |s| == 64
            && Encodes(s[..32], Copies(g, r))
            && Little(s[32..]) == (r + Little(g.hash(s[..32] + pk + m)) * Clamped(Little(g.hash(sk)))) % ORDER
  {
    hide Proper;
    hide MultB;
    hide Copies;
    hide EncodePoint;
    hide Encode;
    hide Encodes;
    hide HashedInt;
    hide Clamped;
    hide SecretScalar;
    ProperIsUsable(g);
    hide Response;
    hide Nonce;
    hide Challenge;
    var s, k, a := Sign(g, m, sk, pk), Nonce(g.hash, m, sk), SecretScalar(g.hash(sk));
    var r := MultB(g, k);
    var n := Response(k, Challenge(g, r, m, pk), a);
    assert s[..32] == EncodePoint(g.c, r) && s[32..] == Encode(n);
    NonceIs(g.hash, m, sk);
    MultBIs(g, k);
    SecretIs(g.hash(sk));
    ResponseIs(g, r, m, pk, k, a);
  }

  lemma NonceIs(hash: Hash, m: seq<byte>, sk: seq<byte>)
    ensures Nonce(hash, m, sk) == NonceOf(hash, m, sk)
  {
    hide HashedInt;
    HashedIsLittle(hash, hash(sk)[32..64] + m);
  }

  lemma ResponseIs(g: Scheme, r: Point, m: seq<byte>, pk: seq<byte>, k: nat, a: nat)
    requires Usable(g)
    ensures Little(Encode(Response(k, Challenge(g, r, m, pk), a)))
            == (k + Little(g.hash(EncodePoint(g.c, r) + pk + m)) * a) % ORDER
  {
    hide HashedInt;
    hide EncodePoint;
    hide Encode;
    hide Decode;
    HashedIsLittle(g.hash, EncodePoint(g.c, r) + pk + m);
    var n := Response(k, Challenge(g, r, m, pk), a);
    ScalarFits(n);
    CodecIsLittle(Encode(n), n);
  }

  /** Two messages, signed with one key, get the same first half exactly if their numbers give the same point. */
  lemma SameFirstHalf(g: Scheme, m: seq<byte>, m': seq<byte>, sk: seq<byte>, pk: seq<byte>)
    requires Proper(g)
    ensures Usable(g)
    ensures Sign(g, m, sk, pk)[..32] == Sign(g, m', sk, pk)[..32]
            <==> Copies(g, NonceOf(g.hash, m, sk)) == Copies(g, NonceOf(g.hash, m', sk))
  {
    hide MultB;
    hide Copies;
    hide EncodePoint;
    hide OnCurve;
    hide ToAffine;
    hide Good;
    hide Nonce;
    hide Challenge;
    ProperIsUsable(g);
    NonceIs(g.hash, m, sk);
    NonceIs(g.hash, m', sk);
    MultBIs(g, Nonce(g.hash, m, sk));
    MultBIs(g, Nonce(g.hash, m', sk));
    EncodingTells(g.c, MultB(g, Nonce(g.hash, m, sk)), MultB(g, Nonce(g.hash, m', sk)));
    assert Sign(g, m, sk, pk)[..32] == EncodePoint(g.c, MultB(g, Nonce(g.hash, m, sk)));
    assert Sign(g, m', sk, pk)[..32] == EncodePoint(g.c, MultB(g, Nonce(g.hash, m', sk)));
  }

  // ----- The order of the base point -----

  lemma {:induction false} CopiesOfZero(c: Curve, n: nat)
    requires Good(c)
    ensures Times(c, ZERO, n) == ZERO
    decreases n
  {
    hide AffineAdd;
    hide Element;
    PrimeOfGood(c);
    hide Good;
    if n == 0 {
    } else {
      CopiesOfZero(c, n - 1);
      ZeroIsElement(c);
      AddZero(c, ZERO);
    }
  }

  /** If l is prime, n copies of a point other than the neutral one, of order l, are neutral only if l divides n. */
  lemma OrderDivides(c: Curve, p: Affine, n: nat)
    requires Good(c) && Element(c, p) && p != ZERO && Times(c, p, ORDER) == ZERO
    requires IsPrime(ORDER) && Times(c, p, n) == ZERO
    ensures n % ORDER == 0
  {
    hide Element;
    hide IsPrime;
    hide Expmod;
    hide Cong;
    hide AffineAdd;
    PrimeOfGood(c);
    if !Cong(n, 0, ORDER) {
      var x := Expmod(n, ORDER - 2, ORDER);
      ExpmodIsPower(n, ORDER - 2, ORDER);
      ExpmodInverts(n, ORDER);
      TimesMul(c, p, n, x);
      CopiesOfZero(c, x);
      CongIsResidue(n * x, ORDER);
      TimesReduced(c, p, x * n);
      OnceIsItself(c, p);
      assert false;
    }
    CongZeroResidue(n, ORDER);
  }

  lemma CongIsResidue(a: int, m: int)
    requires m > 1 && Cong(a, 1, m)
    ensures a % m == 1
  {
    DivisionUnique(1, m, 0, 1);
  }

  lemma CongZeroResidue(a: int, m: int)
    requires m > 1 && Cong(a, 0, m)
    ensures a % m == 0
  {
    DivisionUnique(0, m, 0, 0);
  }

  lemma OnceIsItself(c: Curve, p: Affine)
    requires Good(c) && Element(c, p)
    ensures Times(c, p, 1) == p
  {
    hide AffineAdd;
    hide Element;
    PrimeOfGood(c);
    hide Good;
    AddZero(c, p);
    assert Times(c, p, 1) == AffineAdd(c, Times(c, p, 0), p);
  }

  lemma CancelSum(c: Curve, p: Affine, x: Affine)
    requires Good(c) && Element(c, p) && Element(c, x) && AffineAdd(c, p, x) == p
    ensures x == ZERO
  {
    hide AffineAdd;
    hide Element;
    PrimeOfGood(c);
    hide Good;
    var n := Negated(c, p);
    NegatedAdds(c, p);
    Commutative(c, p, n);
    AdditionAssociates(c, n, p, x);
    AddZero(c, x);
  }

  /** Two multiples are equal exactly if their scalars are congruent modulo l. */
  lemma SameMultiple(c: Curve, p: Affine, n: nat, k: nat)
    requires Good(c) && Element(c, p) && p != ZERO && Times(c, p, ORDER) == ZERO && IsPrime(ORDER)
    ensures Times(c, p, n) == Times(c, p, n + k) <==> k % ORDER == 0
  {
    hide Element;
    hide IsPrime;
    hide AffineAdd;
    hide Times;
    PrimeOfGood(c);
    TimesAdd(c, p, n, k);
    TimesIsElement(c, p, n);
    TimesIsElement(c, p, k);
    if Times(c, p, n) == Times(c, p, n + k) {
      CancelSum(c, Times(c, p, n), Times(c, p, k));
      OrderDivides(c, p, k);
    }
    if k % ORDER == 0 {
      TimesReduced(c, p, k);
      TimesNone(c, p);
      AddZero(c, Times(c, p, n));
    }
  }

  /**
   * If l is prime, two messages signed with one key get the same first half exactly if the numbers that they are
   * hashed to with the second half of the hashed key are congruent modulo l.
   */
  lemma SameFirstHalfExactly(g: Scheme, m: seq<byte>, m': seq<byte>, sk: seq<byte>, pk: seq<byte>)
    requires Proper(g) && IsPrime(ORDER) && ToAffine(g.c, g.b) != ZERO
    ensures Usable(g)
    ensures Sign(g, m, sk, pk)[..32] == Sign(g, m', sk, pk)[..32]
            <==> NonceOf(g.hash, m, sk) % ORDER == NonceOf(g.hash, m', sk) % ORDER
  {
    hide IsPrime;
    hide OnCurve;
    hide ToAffine;
    hide Sign;
    hide Times;
    var n, n' := NonceOf(g.hash, m, sk), NonceOf(g.hash, m', sk);
    hide NonceOf;
    SameFirstHalf(g, m, m', sk, pk);
    BaseOrder(g);
    ToAffineIsElement(g.c, g.b);
    hide Proper;
    hide Element;
    hide Good;
    if n <= n' {
      SameMultiple(g.c, ToAffine(g.c, g.b), n, n' - n);
      SameResidue(n, n' - n);
    } else {
      SameMultiple(g.c, ToAffine(g.c, g.b), n', n - n');
      SameResidue(n', n - n');
    }
  }

  lemma SameResidue(n: nat, k: nat)
    ensures n % ORDER == (n + k) % ORDER <==> k % ORDER == 0
  {
  }

  // ----- The verdict -----

  /** The equation that a signature has to satisfy, between sums of copies of points. */
  ghost predicate Satisfies(g: Scheme, s: seq<byte>, m: seq<byte>, pk: seq<byte>, r: Point, a: Point)
    requires g.c.q > 2 && |s| == 64
  {
    Copies(g, Little(s[32..]))
    == AffineAdd(g.c, ToAffine(g.c, r),
                 Times(g.c, ToAffine(g.c, a), Little(g.hash(EncodePoint(g.c, r) + pk + m))))
  }

  /**
   * For all bytes: the lengths are refused first, then halves and keys that are no points of the curve; a signature
   * is valid exactly if as many copies of the base point as its second half says are the sum of the point of its first
   * half and as many copies of the key's point as the hash of that point, the key and the message.
   */
  lemma VerdictIs(g: Scheme, s: seq<byte>, m: seq<byte>, pk: seq<byte>)
    requires Proper(g)
    ensures Usable(g)
    ensures CheckValid(g, s, m, pk) == BadLength <==> |s| != 64 || |pk| != 32
    ensures |s| == 64 && |pk| == 32 ==>
              var r, a := DecodePoint(g.c, s[..32]), DecodePoint(g.c, pk);
              && (CheckValid(g, s, m, pk) == NotOnCurve <==> r.None? || a.None?)
              && (CheckValid(g, s, m, pk) == Valid
                  <==> r.Some? && a.Some? && Satisfies(g, s, m, pk, r.value, a.value))
  {
    hide MultB;
    hide Copies;
    hide EncodePoint;
    hide OnCurve;
    hide Agree;
    hide Add;
    hide AffineAdd;
    hide Times;
    hide ScalarMult.ScalarMult;
    hide Satisfies;
    hide Challenge;
    ProperIsUsable(g);
    hide Proper;
    if |s| == 64 && |pk| == 32 {
      var r, a := DecodePoint(g.c, s[..32]), DecodePoint(g.c, pk);
      if r.Some? && a.Some? {
        hide DecodePoint;
        EquationIs(g, s, m, pk, r.value, a.value);
      }
    }
  }

  lemma EquationIs(g: Scheme, s: seq<byte>, m: seq<byte>, pk: seq<byte>, r: Point, a: Point)
    requires Proper(g) && |s| == 64 && OnCurve(g.c, r) && OnCurve(g.c, a)
    ensures Usable(g)
    ensures Agree(g.c, MultB(g, Decoded(s)), Add(g.c, r, ScalarMult.ScalarMult(g.c, a, Challenge(g, r, m, pk))))
            <==> Satisfies(g, s, m, pk, r, a)
  {
    hide EncodePoint;
    hide OnCurve;
    hide ToAffine;
    hide Agree;
    hide Add;
    hide AffineAdd;
    hide Times;
    hide AtBits;
    hide Doubled;
    hide AffineScalarMult;
    hide ScalarMult.ScalarMult;
    hide HashedInt;
    hide Good;
    hide Encodable;
    ProperIsUsable(g);
    ProperIsGood(g);
    CodecIsLittle(s[32..], 0);
    HashedIsLittle(g.hash, EncodePoint(g.c, r) + pk + m);
    var h := Challenge(g, r, m, pk);
    ChecksAgree(g.c, g.b, g.table, r, a, Decoded(s), h);
    ToAffineIsElement(g.c, g.b);
    ToAffineIsElement(g.c, a);
    ScalarMultIsTimes(g.c, ToAffine(g.c, g.b), Decoded(s));
    ScalarMultIsTimes(g.c, ToAffine(g.c, a), h);
  }

  lemma ProperIsGood(g: Scheme)
    requires Proper(g)
    ensures g.c.q > 2 && Good(g.c) && OnCurve(g.c, g.b) && BaseTable(g.c, g.b, g.table)
  {
  }
}
