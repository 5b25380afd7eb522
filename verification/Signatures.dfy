/**
 * Signing and checking, over bytes: what the module-level functions of the script compute from a key
 * and a message, and that a signature is accepted.
 */
module Signatures {
  import opened Bytes
  import opened ModArith
  import opened FieldInverse
  import opened Edwards
  import opened ScalarMult
  import opened Ed25519
  import opened IntegerCodec
  import opened PointCodec
  import opened SignatureCheck
  import BasePointOrder

  /** SHA-512. */
  type Hash = seq<byte> -> Digest

  /** A curve with a base point and the table of its doublings. */
  datatype Scheme = Scheme(c: Curve, b: Point, table: seq<Point>, hash: Hash)

  ghost predicate Proper(g: Scheme) {
    g.c.q > 2 && Encodable(g.c) && BaseTable(g.c, g.b, g.table)
  }

  predicate Usable(g: Scheme) {
    g.c.q > 2 && |g.table| >= TABLE_SIZE
  }

  // ----- The functions of the source -----

  function MultB(g: Scheme, e: int): Point
    requires Usable(g)
  {
    AtBits(g.c, g.table, e % ORDER, TABLE_SIZE)
  }

  function HashedInt(hash: Hash, m: seq<byte>): (n: nat) {
    SumBounded(BitsOf(hash(m)), 512);
    SumBits(BitsOf(hash(m)), 512)
  }

  function ClampedBits(h: Digest): (bit: nat -> int)
    ensures AreBits(bit)
  {
    var bits := BitsOf(h);
    (i: nat) => if i >= 3 then bits(i) else 0
  }

  /** 2^254, and bits 3 to 253 of the hash of the key. */
  function SecretScalar(h: Digest): nat {
    SumBounded(ClampedBits(h), 254);
    Pow2(254) + SumBits(ClampedBits(h), 254)
  }

  function PublicKey(g: Scheme, sk: seq<byte>): (pk: seq<byte>)
    requires Usable(g)
    ensures |pk| == WIDTH
  {
    EncodePoint(g.c, MultB(g, SecretScalar(g.hash(sk))))
  }

  function Nonce(hash: Hash, m: seq<byte>, sk: seq<byte>): nat {
    HashedInt(hash, hash(sk)[32..64] + m)
  }

  function Challenge(g: Scheme, r: Point, m: seq<byte>, pk: seq<byte>): nat
    requires Usable(g)
  {
    HashedInt(g.hash, EncodePoint(g.c, r) + pk + m)
  }

  function Sign(g: Scheme, m: seq<byte>, sk: seq<byte>, pk: seq<byte>): (s: seq<byte>)
    requires Usable(g)
    ensures |s| == 2 * WIDTH
  {
    var r := MultB(g, Nonce(g.hash, m, sk));
    var a := SecretScalar(g.hash(sk));
    EncodePoint(g.c, r) + Encode(Response(Nonce(g.hash, m, sk), Challenge(g, r, m, pk), a))
  }

  function Response(k: nat, h: nat, a: nat): nat {
    (k + h * a) % ORDER
  }

  datatype Verdict = Valid | BadLength | NotOnCurve | Mismatch

  function CheckValid(g: Scheme, s: seq<byte>, m: seq<byte>, pk: seq<byte>): Verdict
    requires Usable(g)
  {
    if |s| != 2 * WIDTH then BadLength
    else if |pk| != WIDTH then BadLength
    else
      var r := DecodePoint(g.c, s[..WIDTH]);
      if r.None? then NotOnCurve
      else
        var a := DecodePoint(g.c, pk);
        if a.None? then NotOnCurve
        else
          var p := MultB(g, Decoded(s));
          var q := Add(g.c, r.value, ScalarMult.ScalarMult(g.c, a.value, Challenge(g, r.value, m, pk)));
          if Agree(g.c, p, q) then Valid else Mismatch
  }

  function Decoded(s: seq<byte>): nat
    requires |s| == 2 * WIDTH
  {
    SumBounded(BitsOf(s[WIDTH..]), 256);
    Decode(s[WIDTH..])
  }

  // ----- A signature is accepted -----

  lemma ScalarFits(n: nat)
    requires n < ORDER
    ensures Decode(Encode(n)) == n
  {
    hide Pow2;
    hide Decode;
    hide Encode;
    DecodeEncode(n);
    QIsPow2();
    Pow2Add(255, 1);
    assert Pow2(1) == 2 by {
      SmallPowers(0, 2);
    }
    DivisionUnique(n, Pow2(256), 0, n);
  }

  lemma MultiplesOnCurve(g: Scheme, e: int)
    requires Proper(g)
    ensures OnCurve(g.c, MultB(g, e))
  {
    hide Good;
    hide OnCurve;
    hide ToAffine;
    hide AtBits;
    hide Doubled;
    TableMultiplies(g.c, g.b, g.table, e);
  }

  /** What the check makes of a signature's two halves. */
  lemma CheckedHalves(g: Scheme, r: Point, a: Point, n: nat, m: seq<byte>)
    requires Proper(g) && n < ORDER && OnCurve(g.c, r) && OnCurve(g.c, a)
    ensures var pk, h := EncodePoint(g.c, a), Challenge(g, r, m, EncodePoint(g.c, a));
            (CheckValid(g, EncodePoint(g.c, r) + Encode(n), m, pk) == Valid
             <==> Agree(g.c, MultB(g, n), Add(g.c, r, ScalarMult.ScalarMult(g.c, a, h))))
  {
    hide Good;
    hide OnCurve;
    hide ToAffine;
    hide AtBits;
    hide Doubled;
    hide Agree;
    hide Add;
    hide EncodePoint;
    hide DecodePoint;
    hide Encode;
    hide Decode;
    hide Pow2;
    hide HashedInt;
    hide Plain;
    hide AffineAdd;
    hide AffineScalarMult;
    hide ScalarMult.ScalarMult;
    assert Usable(g);
    hide BaseTable;
    var s := EncodePoint(g.c, r) + Encode(n);
    assert s[..WIDTH] == EncodePoint(g.c, r) && s[WIDTH..] == Encode(n);
    ScalarFits(n);
    DecodesEncoded(g.c, r);
    DecodesEncoded(g.c, a);
    EncodesDecoded(g.c, r);
    EncodesDecoded(g.c, a);
    var h := Challenge(g, r, m, EncodePoint(g.c, a));
    ChecksAgree(g.c, g.b, g.table, r, a, n, h);
    ChecksAgree(g.c, g.b, g.table, Plain(g.c, ToAffine(g.c, r)), Plain(g.c, ToAffine(g.c, a)), n, h);
  }

  /** The check on points accepts the two halves that signing computes, for every nonce and scalar. */
  lemma HalvesAgree(g: Scheme, k: nat, a: nat, h: nat)
    requires Proper(g)
    ensures OnCurve(g.c, MultB(g, k)) && OnCurve(g.c, MultB(g, a))
    ensures Response(k, h, a) < ORDER
    ensures Agree(g.c, MultB(g, Response(k, h, a)),
                  Add(g.c, MultB(g, k), ScalarMult.ScalarMult(g.c, MultB(g, a), h)))
  {
    hide Good;
    hide OnCurve;
    hide AtBits;
    hide Doubled;
    hide Agree;
    hide Add;
    hide ScalarMult.ScalarMult;
    MultiplesOnCurve(g, k);
    MultiplesOnCurve(g, a);
    SignedIsAccepted(g.c, g.b, g.table, k, a, h);
  }

  /** Whatever the key and the message, the signature made with the key is accepted. */
  lemma SignatureAccepted(g: Scheme, m: seq<byte>, sk: seq<byte>)
    requires Proper(g)
    ensures CheckValid(g, Sign(g, m, sk, PublicKey(g, sk)), m, PublicKey(g, sk)) == Valid
  {
    assert Usable(g);
    hide Proper;
    hide MultB;
    hide OnCurve;
    hide Agree;
    hide Add;
    hide EncodePoint;
    hide CheckValid;
    hide Encode;
    hide HashedInt;
    hide Challenge;
    hide SecretScalar;
    hide Nonce;
    hide Response;
    hide ScalarMult.ScalarMult;
    var k, a := Nonce(g.hash, m, sk), SecretScalar(g.hash(sk));
    var rp, ap := MultB(g, k), MultB(g, a);
    var h := Challenge(g, rp, m, EncodePoint(g.c, ap));
    HalvesAgree(g, k, a, h);
    CheckedHalves(g, rp, ap, Response(k, h, a), m);
  }

  // ----- Ed25519 -----

  /** The table that the script fills when it is loaded. */
  function BasePowers(): (table: seq<Point>)
    ensures |table| == TABLE_SIZE
  {
    seq(TABLE_SIZE, i requires 0 <= i < TABLE_SIZE => Doubled(ED25519, BASE, i))
  }

  function Ed25519Scheme(hash: Hash): Scheme {
    Scheme(ED25519, BASE, BasePowers(), hash)
  }

  lemma Ed25519Proper(hash: Hash)
    requires IsPrime(Q)
    ensures Proper(Ed25519Scheme(hash))
  {
    hide Good;
    hide IsPrime;
    hide OnCurve;
    hide ToAffine;
    hide Doubled;
    hide Encodable;
    hide ScalarMult.ScalarMult;
    GoodIfPrime();
    Ed25519Encodable();
    BaseOnCurve();
    BasePointOrder.OrderOfBase();
  }

  /**
   * Ed25519, if q is prime: every signature made with a key is accepted with its public key.
   */
  lemma Ed25519Accepts(hash: Hash, m: seq<byte>, sk: seq<byte>)
    requires IsPrime(Q)
    ensures var g := Ed25519Scheme(hash);
            CheckValid(g, Sign(g, m, sk, PublicKey(g, sk)), m, PublicKey(g, sk)) == Valid
  {
    hide IsPrime;
    hide Proper;
    hide CheckValid;
    hide Sign;
    hide PublicKey;
    Ed25519Proper(hash);
    SignatureAccepted(Ed25519Scheme(hash), m, sk);
  }

  /**
   * And the check with the table accepts exactly what the affine check of the simple form accepts,
   * and the table gives every multiple of the base point.
   */
  lemma Ed25519ChecksAgree(c: Curve, hash: Hash, r: Point, a: Point, s: nat, h: nat)
    requires c == ED25519 && IsPrime(c.q) && OnCurve(c, r) && OnCurve(c, a)
    ensures var g := Ed25519Scheme(hash);
            && (Agree(c, MultB(g, s), Add(c, r, ScalarMult.ScalarMult(c, a, h)))
                <==> AffineScalarMult(c, Affine(BASE_X, BASE_Y), s)
                     == AffineAdd(c, ToAffine(c, r), AffineScalarMult(c, ToAffine(c, a), h)))
            && ToAffine(c, MultB(g, s)) == ToAffine(c, ScalarMult.ScalarMult(c, BASE, s))
  {
    hide IsPrime;
    hide Good;
    hide OnCurve;
    hide ToAffine;
    hide AtBits;
    hide Doubled;
    hide Agree;
    hide Add;
    hide AffineAdd;
    hide AffineScalarMult;
    hide Encodable;
    hide ScalarMult.ScalarMult;
    hide BasePowers;
    Ed25519Proper(hash);
    var table := BasePowers();
    ChecksAgree(c, BASE, table, r, a, s, h);
    BaseToAffine();
    TableAgreesIffOrder(c, BASE, table);
    assert TableAgreesAt(c, BASE, table, s);
  }
}
