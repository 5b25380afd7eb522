/**
 * The simple script over bytes, on affine points, and what the fast script makes of it: the same
 * public keys and the same signatures, byte for byte, and the same verdict wherever the first half
 * of the signature is the canonical encoding of a point.
 */
module SimpleSignatures {
  import opened Bytes
  import opened ModArith
  import opened FieldInverse
  import opened Edwards
  import opened GroupLaw
  import opened ScalarMult
  import opened Ed25519
  import opened IntegerCodec
  import opened PointCodec
  import opened SignatureCheck
  import opened Signatures

  // ----- The functions of the source -----

  /** The coordinates are encoded as they are, reduced or not. */
  function SimpleEncode(a: Affine): (s: seq<byte>)
    ensures |s| == WIDTH
  {
    EncodeBits(PointBits(a))
  }

  function SimpleDecode(c: Curve, s: seq<byte>): Option<Affine>
    requires c.q > 2 && |s| >= WIDTH
  {
    var y := YOf(s);
    var even := XRecover(c, y);
    var a := Affine(if even % 2 != BitsOf(s)(255) then c.q - even else even, y);
    if AffineOnCurve(c, a) then Some(a) else None
  }

  function SimplePublicKey(c: Curve, b: Affine, hash: Hash, sk: seq<byte>): seq<byte>
    requires c.q > 2
  {
    SimpleEncode(AffineScalarMult(c, b, SecretScalar(hash(sk))))
  }

  function SimpleSign(c: Curve, b: Affine, hash: Hash, m: seq<byte>, sk: seq<byte>, pk: seq<byte>): seq<byte>
    requires c.q > 2
  {
    var r := SimpleEncode(AffineScalarMult(c, b, Nonce(hash, m, sk)));
    r + Encode(Response(Nonce(hash, m, sk), HashedInt(hash, r + pk + m), SecretScalar(hash(sk))))
  }

  function SimpleCheck(c: Curve, b: Affine, hash: Hash, s: seq<byte>, m: seq<byte>, pk: seq<byte>): Verdict
    requires c.q > 2
  {
    if |s| != 2 * WIDTH then BadLength
    else if |pk| != WIDTH then BadLength
    else
      var r := SimpleDecode(c, s[..WIDTH]);
      if r.None? then NotOnCurve
      else
        var a := SimpleDecode(c, pk);
        if a.None? then NotOnCurve
        else
          var h := HashedInt(hash, SimpleEncode(r.value) + pk + m);
          if AffineScalarMult(c, b, Decoded(s)) == AffineAdd(c, r.value, AffineScalarMult(c, a.value, h)) then Valid
          else Mismatch
  }

  // ----- Coordinates that are not reduced -----

  ghost predicate SamePoint(c: Curve, a: Affine, b: Affine)
    requires c.q > 0
  {
    Cong(a.x, b.x, c.q) && Cong(a.y, b.y, c.q)
  }

  lemma AddSamePoints(c: Curve, p: Affine, p': Affine, r: Affine, r': Affine)
    requires c.q > 2 && SamePoint(c, p, p') && SamePoint(c, r, r')
    ensures AffineAdd(c, p, r) == AffineAdd(c, p', r')
  {
    hide Cong;
    hide Expmod;
    var m, d := c.q, c.d;
    CongMul(p.x, p'.x, r.y, r'.y, m);
    CongMul(r.x, r'.x, p.y, p'.y, m);
    CongAdd(p.x * r.y, p'.x * r'.y, r.x * p.y, r'.x * p'.y, m);
    CongMul(p.y, p'.y, r.y, r'.y, m);
    CongMul(p.x, p'.x, r.x, r'.x, m);
    CongAdd(p.y * r.y, p'.y * r'.y, p.x * r.x, p'.x * r'.x, m);
    var t, t' := d * p.x * r.x * p.y * r.y, d * p'.x * r'.x * p'.y * r'.y;
    CongMul(p.x * r.x, p'.x * r'.x, p.y * r.y, p'.y * r'.y, m);
    CongRefl(d, m);
    CongMul(d, d, p.x * r.x * (p.y * r.y), p'.x * r'.x * (p'.y * r'.y), m);
    FiveInOrder(d, p.x, r.x, p.y, r.y);
    FiveInOrder(d, p'.x, r'.x, p'.y, r'.y);
    CongRefl(1, m);
    CongAdd(1, 1, t, t', m);
    CongSub(1, 1, t, t', m);
    SameQuotient(c, p.x * r.y + r.x * p.y, p'.x * r'.y + r'.x * p'.y, 1 + t, 1 + t');
    SameQuotient(c, p.y * r.y + p.x * r.x, p'.y * r'.y + p'.x * r'.x, 1 - t, 1 - t');
  }

  lemma FiveInOrder(d: int, x1: int, x2: int, y1: int, y2: int)
    ensures d * x1 * x2 * y1 * y2 == d * (x1 * x2 * (y1 * y2))
  {
  }

  lemma SameQuotient(c: Curve, n: int, n': int, den: int, den': int)
    requires c.q > 2 && Cong(n, n', c.q) && Cong(den, den', c.q)
    ensures n * InvMod(c, den) % c.q == n' * InvMod(c, den') % c.q
  {
    ExpmodCong(den, den', c.q - 2, c.q);
    hide Expmod;
    hide Cong;
    CongTimes(n, n', InvMod(c, den), c.q);
    SameResidue(n * InvMod(c, den), n' * InvMod(c, den), c.q);
  }

  lemma SameResidue(a: int, b: int, m: int)
    requires m > 0 && Cong(a, b, m)
    ensures a % m == b % m
  {
  }

  lemma {:induction false} MultiplySamePoints(c: Curve, p: Affine, p': Affine, e: nat)
    requires c.q > 2 && SamePoint(c, p, p')
    ensures AffineScalarMult(c, p, e) == AffineScalarMult(c, p', e)
  {
    hide AffineAdd;
    hide Cong;
    if e == 0 {
    } else {
      MultiplySamePoints(c, p, p', e / 2);
      var r := AffineScalarMult(c, p, e / 2);
      SameAsItself(c, AffineAdd(c, r, r));
      AddSamePoints(c, AffineAdd(c, r, r), AffineAdd(c, r, r), p, p');
    }
  }

  lemma SameAsItself(c: Curve, p: Affine)
    requires c.q > 0
    ensures SamePoint(c, p, p)
  {
    CongRefl(p.x, c.q);
    CongRefl(p.y, c.q);
  }

  // ----- Points as bytes -----

  /** Both decoders accept the same bytes and find the same coordinates. */
  lemma DecodersAgree(c: Curve, s: seq<byte>)
    requires IsPrime(c.q) && c.q > 2 && |s| >= WIDTH
    ensures match SimpleDecode(c, s)
            case None => DecodePoint(c, s) == None
            case Some(a) => DecodePoint(c, s) == Some(Plain(c, a)) && OnCurve(c, Plain(c, a))
  {
    hide OnCurve;
    hide AffineOnCurve;
    hide XRecover;
    hide YOf;
    hide BitsOf;
    hide Equation;
    hide IsPrime;
    hide Cong;
    var y, even := YOf(s), XRecover(c, YOf(s));
    var x := if even % 2 != BitsOf(s)(255) then c.q - even else even;
    EquationOf(c, Affine(x, y));
    PlainOnCurve(c, x, y);
  }

  /** The affine point of decoded coordinates. */
  lemma PlainReduced(c: Curve, a: Affine)
    requires IsPrime(c.q) && c.q > 2
    ensures ToAffine(c, Plain(c, a)) == Affine(a.x % c.q, a.y % c.q)
    ensures SamePoint(c, a, ToAffine(c, Plain(c, a)))
  {
    hide ToAffine;
    hide IsPrime;
    PlainOnCurve(c, a.x, a.y);
    RepresentedPoint(c, Plain(c, a), a.x, a.y);
    CongMod(a.x, c.q);
    CongMod(a.y, c.q);
  }

  /** What is decoded and encoded again, without reducing, gives the bytes back. */
  lemma SimpleEncodesBack(c: Curve, s: seq<byte>)
    requires c.q > 2 && c.q % 2 == 1 && |s| == WIDTH && SimpleDecode(c, s).Some?
    ensures SimpleEncode(SimpleDecode(c, s).value) == s
  {
    hide Bit;
    hide BitsOf;
    hide SumBits;
    hide XRecover;
    hide AffineOnCurve;
    var a := SimpleDecode(c, s).value;
    var bit := PointBits(a);
    forall k: nat | k < 256
      ensures bit(k) == BitsOf(s)(k)
    {
      if k < 255 {
        BitOfSum(BitsOf(s), 255, k);
      } else {
        assert BitsOf(s)(255) in {0, 1};
      }
    }
    EncodedBits(bit, s);
  }

  /** y is reduced, and the sign bit is not set for x = 0. */
  predicate Canonical(c: Curve, s: seq<byte>)
    requires c.q > 2 && |s| == WIDTH
  {
    YOf(s) < c.q && (BitsOf(s)(255) == 1 ==> XRecover(c, YOf(s)) != 0)
  }

  /** The x that is recovered is reduced and even. */
  lemma RecoveredIsEven(c: Curve, s: seq<byte>)
    requires Encodable(c) && |s| == WIDTH && SimpleDecode(c, s).Some?
    ensures var x := XRecover(c, YOf(s)); 0 <= x < c.q && x % 2 == 0
  {
    hide XRecover;
    hide YOf;
    hide BitsOf;
    hide Good;
    hide Cong;
    hide Equation;
    hide AffineOnCurve;
    hide Pow2;
    var a, q := SimpleDecode(c, s).value, c.q;
    assert AffineOnCurve(c, a) && a.y == YOf(s);
    hide SimpleDecode;
    PrimeOfGood(c);
    assert q % 2 == 1;
    hide Encodable;
    hide IsPrime;
    EquationOf(c, a);
    CongMod(a.x, q);
    CongMul(a.x % q, a.x, a.x % q, a.x, q);
    SquaresGiveEquation(c, a.x % q, a.x, a.y);
    RecoversX(c, a.x % q, a.y);
    Opposite(a.x % q, q);
  }

  lemma CanonicalIsReduced(c: Curve, s: seq<byte>)
    requires Encodable(c) && |s| == WIDTH && SimpleDecode(c, s).Some? && Canonical(c, s)
    ensures var a := SimpleDecode(c, s).value; Affine(a.x % c.q, a.y % c.q) == a
  {
    hide XRecover;
    hide YOf;
    hide BitsOf;
    hide AffineOnCurve;
    var a := SimpleDecode(c, s).value;
    RecoveredIsEven(c, s);
    hide Encodable;
    YIsSum(s);
    hide Pow2;
    DivisionUnique(a.x, c.q, 0, a.x);
    DivisionUnique(a.y, c.q, 0, a.y);
  }

  lemma ReducedIsCanonical(c: Curve, s: seq<byte>)
    requires Encodable(c) && |s| == WIDTH && SimpleDecode(c, s).Some?
    requires var a := SimpleDecode(c, s).value; SimpleEncode(Affine(a.x % c.q, a.y % c.q)) == s
    ensures Canonical(c, s)
  {
    hide XRecover;
    hide YOf;
    hide BitsOf;
    hide AffineOnCurve;
    hide PointBits;
    hide EncodeBits;
    hide Pow2;
    var a := SimpleDecode(c, s).value;
    assert c.q > 2 && c.q < Pow2(255);
    hide Encodable;
    EncodedY(Affine(a.x % c.q, a.y % c.q));
    MultipleOfModulus(c.q);
  }

  lemma MultipleOfModulus(q: int)
    requires q > 0
    ensures q % q == 0 && (q - 0) % q == 0
  {
    DivisionUnique(q, q, 1, 0);
  }

  /** The bytes of the point that was decoded are the bytes it was decoded from exactly when these are canonical. */
  lemma CanonicalIff(c: Curve, s: seq<byte>)
    requires Encodable(c) && |s| == WIDTH && SimpleDecode(c, s).Some?
    ensures EncodePoint(c, Plain(c, SimpleDecode(c, s).value)) == s <==> Canonical(c, s)
  {
    hide Canonical;
    hide SimpleDecode;
    hide PointBits;
    hide EncodeBits;
    hide ToAffine;
    hide Good;
    hide Pow2;
    var a := SimpleDecode(c, s).value;
    PrimeOfGood(c);
    PlainReduced(c, a);
    assert c.q % 2 == 1;
    SimpleEncodesBack(c, s);
    hide Encodable;
    if Canonical(c, s) {
      CanonicalIsReduced(c, s);
    }
    if SimpleEncode(Affine(a.x % c.q, a.y % c.q)) == s {
      ReducedIsCanonical(c, s);
    }
  }

  lemma YIsSum(s: seq<byte>)
    requires |s| >= WIDTH
    ensures 0 <= YOf(s) < Pow2(255)
  {
    SumBounded(BitsOf(s), 255);
  }

  // ----- The fast script against the simple one -----

  lemma OfProper(g: Scheme)
    requires Proper(g)
    ensures Usable(g) && g.c.q > 2 && g.c.q % 2 == 1 && IsPrime(g.c.q)
    ensures Encodable(g.c) && Good(g.c) && OnCurve(g.c, g.b)
  {
    hide Encodable;
    hide OnCurve;
    hide Good;
    hide ToAffine;
    hide Doubled;
    hide ScalarMult.ScalarMult;
    OfEncodable(g.c);
  }

  lemma OfEncodable(c: Curve)
    requires Encodable(c)
    ensures Good(c) && IsPrime(c.q) && c.q > 2 && c.q % 2 == 1
  {
    hide Pow2;
    hide IsPrime;
    hide Good;
    PrimeOfGood(c);
  }

  lemma ProperWith(g: Scheme, hash: Hash)
    requires Proper(g)
    ensures Proper(g.(hash := hash)) && Usable(g.(hash := hash))
  {
    hide Encodable;
    hide Good;
    hide OnCurve;
    hide ToAffine;
    hide Doubled;
    hide ScalarMult.ScalarMult;
  }

  lemma TableGivesMultiple(g: Scheme, e: nat)
    requires Proper(g)
    ensures ToAffine(g.c, MultB(g, e)) == AffineScalarMult(g.c, ToAffine(g.c, g.b), e)
  {
    hide Encodable;
    hide Good;
    hide OnCurve;
    hide ToAffine;
    hide AtBits;
    hide Doubled;
    hide AffineAdd;
    hide ScalarMult.ScalarMult;
    TableAgreesIffOrder(g.c, g.b, g.table);
    assert TableAgreesAt(g.c, g.b, g.table, e);
    ScalarMultRefines(g.c, g.b, e);
  }

  /** Every key has the same public key, byte for byte. */
  lemma PublicKeysAgree(g: Scheme, sk: seq<byte>)
    requires Proper(g)
    ensures PublicKey(g, sk) == SimplePublicKey(g.c, ToAffine(g.c, g.b), g.hash, sk)
  {
    OfProper(g);
    hide Proper;
    hide Encodable;
    hide Good;
    hide IsPrime;
    hide MultB;
    hide ToAffine;
    hide AffineScalarMult;
    hide EncodeBits;
    hide SecretScalar;
    TableGivesMultiple(g, SecretScalar(g.hash(sk)));
  }

  /** Every signature is the same, byte for byte. */
  lemma SignaturesAgree(g: Scheme, m: seq<byte>, sk: seq<byte>, pk: seq<byte>)
    requires Proper(g)
    ensures Sign(g, m, sk, pk) == SimpleSign(g.c, ToAffine(g.c, g.b), g.hash, m, sk, pk)
  {
    OfProper(g);
    hide Proper;
    hide Encodable;
    hide Good;
    hide IsPrime;
    hide MultB;
    hide ToAffine;
    hide AffineScalarMult;
    hide EncodeBits;
    hide SecretScalar;
    hide Nonce;
    hide HashedInt;
    hide Response;
    hide Encode;
    TableGivesMultiple(g, Nonce(g.hash, m, sk));
  }

  /** A signature with its first half encoded again from the point it decodes to. */
  function Reencoded(c: Curve, s: seq<byte>): (r: seq<byte>)
    requires c.q > 2 && |s| == 2 * WIDTH
    ensures |r| == |s|
  {
    match DecodePoint(c, s[..WIDTH])
    case None => s
    case Some(r) => EncodePoint(c, r) + s[WIDTH..]
  }

  lemma Halves(r: seq<byte>, s: seq<byte>)
    requires |r| == WIDTH
    ensures (r + s)[..WIDTH] == r && (r + s)[WIDTH..] == s
  {
  }

  /** The last comparison, for coordinates of A as they were decoded. */
  lemma ComparisonAgrees(g: Scheme, r: Point, a: Affine, n: nat, h: nat)
    requires Proper(g) && OnCurve(g.c, r) && OnCurve(g.c, Plain(g.c, a))
    ensures Agree(g.c, MultB(g, n), Add(g.c, r, ScalarMult.ScalarMult(g.c, Plain(g.c, a), h)))
            <==> AffineScalarMult(g.c, ToAffine(g.c, g.b), n)
                 == AffineAdd(g.c, ToAffine(g.c, r), AffineScalarMult(g.c, a, h))
  {
    hide Encodable;
    hide Good;
    hide OnCurve;
    hide ToAffine;
    hide AtBits;
    hide Doubled;
    hide Agree;
    hide Add;
    hide AffineAdd;
    hide Plain;
    hide SamePoint;
    hide ScalarMult.ScalarMult;
    PrimeOfGood(g.c);
    hide IsPrime;
    ChecksAgree(g.c, g.b, g.table, r, Plain(g.c, a), n, h);
    PlainReduced(g.c, a);
    MultiplySamePoints(g.c, a, ToAffine(g.c, Plain(g.c, a)), h);
  }

  /**
   * For all bytes, the fast check gives the verdict that the simple check gives when the first half
   * of the signature is encoded again.
   */
  lemma CheckOfReencoded(g: Scheme, s: seq<byte>, m: seq<byte>, pk: seq<byte>)
    requires Proper(g)
    ensures CheckValid(g, s, m, pk)
            == SimpleCheck(g.c, ToAffine(g.c, g.b), g.hash, if |s| == 2 * WIDTH then Reencoded(g.c, s) else s, m, pk)
  {
    OfProper(g);
    hide Proper;
    hide Encodable;
    hide Good;
    hide IsPrime;
    if |s| == 2 * WIDTH && |pk| == WIDTH {
      DecodersAgree(g.c, s[..WIDTH]);
      DecodersAgree(g.c, pk);
      if SimpleDecode(g.c, s[..WIDTH]).Some? && SimpleDecode(g.c, pk).Some? {
        ChecksOfPoints(g, s, m, pk);
      } else if SimpleDecode(g.c, s[..WIDTH]).Some? {
        ReencodedDecodes(g, s);
        hide SimpleDecode;
        hide DecodePoint;
      }
    }
  }

  /** Encoded again, the first half decodes to the reduced point. */
  lemma ReencodedDecodes(g: Scheme, s: seq<byte>)
    requires Proper(g) && |s| == 2 * WIDTH && DecodePoint(g.c, s[..WIDTH]).Some?
    ensures var r := DecodePoint(g.c, s[..WIDTH]).value;
            && OnCurve(g.c, r) && Reencoded(g.c, s)[..WIDTH] == EncodePoint(g.c, r)
            && Reencoded(g.c, s)[WIDTH..] == s[WIDTH..]
            && SimpleDecode(g.c, EncodePoint(g.c, r)) == Some(ToAffine(g.c, r))
  {
    hide OnCurve;
    hide Good;
    hide ToAffine;
    hide EncodePoint;
    hide XRecover;
    hide YOf;
    hide BitsOf;
    hide Encodable;
    OfProper(g);
    hide Proper;
    hide IsPrime;
    var r := DecodePoint(g.c, s[..WIDTH]).value;
    assert OnCurve(g.c, r);
    hide DecodePoint;
    hide SimpleDecode;
    Halves(EncodePoint(g.c, r), s[WIDTH..]);
    DecodesEncoded(g.c, r);
    DecodersAgree(g.c, EncodePoint(g.c, r));
  }

  lemma FastVerdict(g: Scheme, s: seq<byte>, m: seq<byte>, pk: seq<byte>, r: Point, a: Point)
    requires Usable(g) && |s| == 2 * WIDTH && |pk| == WIDTH
    requires DecodePoint(g.c, s[..WIDTH]) == Some(r) && DecodePoint(g.c, pk) == Some(a)
    ensures CheckValid(g, s, m, pk)
            == if Agree(g.c, MultB(g, Decoded(s)), Add(g.c, r, ScalarMult.ScalarMult(g.c, a, Challenge(g, r, m, pk))))
               then Valid else Mismatch
  {
    hide DecodePoint;
    hide Agree;
    hide MultB;
    hide Add;
    hide Challenge;
    hide Decoded;
  }

  lemma SimpleVerdict(c: Curve, b: Affine, hash: Hash, s: seq<byte>, m: seq<byte>, pk: seq<byte>, r: Affine, a: Affine)
    requires c.q > 2 && |s| == 2 * WIDTH && |pk| == WIDTH
    requires SimpleDecode(c, s[..WIDTH]) == Some(r) && SimpleDecode(c, pk) == Some(a)
    ensures var h := HashedInt(hash, SimpleEncode(r) + pk + m);
            SimpleCheck(c, b, hash, s, m, pk)
            == if AffineScalarMult(c, b, Decoded(s)) == AffineAdd(c, r, AffineScalarMult(c, a, h)) then Valid
               else Mismatch
  {
    hide SimpleDecode;
    hide SimpleEncode;
    hide AffineAdd;
    hide AffineScalarMult;
    hide HashedInt;
    hide Decoded;
  }

  lemma SameDecoded(s: seq<byte>, s': seq<byte>)
    requires |s| == |s'| == 2 * WIDTH && s[WIDTH..] == s'[WIDTH..]
    ensures Decoded(s) == Decoded(s')
  {
  }

  lemma ChecksOfPoints(g: Scheme, s: seq<byte>, m: seq<byte>, pk: seq<byte>)
    requires Proper(g) && |s| == 2 * WIDTH && |pk| == WIDTH && g.c.q > 2
    requires SimpleDecode(g.c, s[..WIDTH]).Some? && SimpleDecode(g.c, pk).Some?
    ensures CheckValid(g, s, m, pk)
            == SimpleCheck(g.c, ToAffine(g.c, g.b), g.hash, Reencoded(g.c, s), m, pk)
  {
    OfProper(g);
    hide Proper;
    hide Encodable;
    hide Good;
    hide IsPrime;
    hide OnCurve;
    hide ToAffine;
    hide Agree;
    hide Add;
    hide AffineAdd;
    hide AffineScalarMult;
    hide EncodeBits;
    hide PointBits;
    hide DecodePoint;
    hide SimpleDecode;
    hide Reencoded;
    hide HashedInt;
    hide Decoded;
    hide Plain;
    hide MultB;
    hide CheckValid;
    hide SimpleCheck;
    hide ScalarMult.ScalarMult;
    DecodersAgree(g.c, s[..WIDTH]);
    DecodersAgree(g.c, pk);
    ReencodedDecodes(g, s);
    var r, a := DecodePoint(g.c, s[..WIDTH]).value, SimpleDecode(g.c, pk).value;
    SameDecoded(Reencoded(g.c, s), s);
    FastVerdict(g, s, m, pk, r, Plain(g.c, a));
    SimpleVerdict(g.c, ToAffine(g.c, g.b), g.hash, Reencoded(g.c, s), m, pk, ToAffine(g.c, r), a);
    ComparisonAgrees(g, r, a, Decoded(s), Challenge(g, r, m, pk));
  }

  lemma CanonicalReencodes(c: Curve, s: seq<byte>)
    requires Encodable(c) && |s| == 2 * WIDTH && DecodePoint(c, s[..WIDTH]).Some? && Canonical(c, s[..WIDTH])
    ensures Reencoded(c, s) == s
  {
    hide Good;
    hide Canonical;
    hide OnCurve;
    hide EncodePoint;
    hide Pow2;
    PrimeOfGood(c);
    DecodersAgree(c, s[..WIDTH]);
    hide DecodePoint;
    hide SimpleDecode;
    hide IsPrime;
    CanonicalIff(c, s[..WIDTH]);
    assert s[..WIDTH] + s[WIDTH..] == s;
  }

  /**
   * Where the first half of a signature is canonical, or no point, or a length is wrong, the two
   * checks give one verdict, whatever the message and the key.
   */
  lemma ChecksOfCanonical(g: Scheme, s: seq<byte>, m: seq<byte>, pk: seq<byte>)
    requires Proper(g)
    requires |s| == 2 * WIDTH && DecodePoint(g.c, s[..WIDTH]).Some? ==> Canonical(g.c, s[..WIDTH])
    ensures CheckValid(g, s, m, pk) == SimpleCheck(g.c, ToAffine(g.c, g.b), g.hash, s, m, pk)
  {
    hide CheckValid;
    hide SimpleCheck;
    hide ToAffine;
    hide Canonical;
    hide DecodePoint;
    hide EncodePoint;
    hide Encodable;
    hide Good;
    hide OnCurve;
    hide IsPrime;
    OfProper(g);
    hide Proper;
    CheckOfReencoded(g, s, m, pk);
    if |s| == 2 * WIDTH && DecodePoint(g.c, s[..WIDTH]).Some? {
      CanonicalReencodes(g.c, s);
    }
  }

  // ----- Exactly where the checks agree -----

  /** A digest that gives the number k. */
  function SmallDigest(k: nat): Digest
    requires k <= 1
  {
    [k as byte] + Zeros(63)
  }

  lemma SmallDigestGives(hash: Hash, z: seq<byte>, k: nat)
    requires k <= 1 && hash(z) == SmallDigest(k)
    ensures HashedInt(hash, z) == k
  {
    hide Bit;
    hide Pow2;
    hide SumBits;
    var bit := BitsOf(hash(z));
    forall i: nat | i < 512
      ensures bit(i) == Bit(k, i)
    {
      BitOfSmall(k, i);
      BitOfSmall(hash(z)[i / 8], i % 8);
    }
    SumIsResidue(bit, k, 512);
    BelowPower(512);
    DivisionUnique(k, Pow2(512), 0, k);
  }

  lemma BitOfSmall(k: nat, i: nat)
    requires k <= 1
    ensures Bit(k, i) == if i == 0 then k else 0
  {
    if i > 0 {
      BelowPower(i);
      DivisionUnique(k, Pow2(i), 0, k);
    }
  }

  lemma BelowPower(i: nat)
    requires i > 0
    ensures 1 < Pow2(i)
  {
  }

  /** Over different inputs a hash can give any two numbers; here 0 and 1, either way round. */
  function Separating(z: seq<byte>, k: nat): Hash
    requires k <= 1
  {
    (x: seq<byte>) => if x == z then SmallDigest(k) else SmallDigest(1 - k)
  }

  /** The public key point for which exactly one of the multiples 0 and 1 makes n B = R + h A true. */
  function Telling(c: Curve, x: Affine, r: Affine, b: Affine): Affine
    requires c.q > 2
  {
    var t := AffineAdd(c, x, Negated(c, r));
    if t == ZERO then b else t
  }

  lemma TellingTells(c: Curve, x: Affine, r: Affine, b: Affine)
    requires Good(c) && Element(c, x) && Element(c, r) && Element(c, b) && b != ZERO
    ensures var a := Telling(c, x, r, b);
            && Element(c, a)
            && (AffineAdd(c, r, ZERO) == x <==> x == r)
            && (AffineAdd(c, r, a) == x <==> x != r)
  {
    hide AffineAdd;
    hide Element;
    PrimeOfGood(c);
    hide Good;
    var n := Negated(c, r);
    var t := AffineAdd(c, x, n);
    NegatedAdds(c, r);
    SumIsElement(c, x, n);
    AddZero(c, r);
    AddZero(c, x);
    AddZero(c, b);
    // r + (x - r) = x
    Commutative(c, r, t);
    AdditionAssociates(c, x, n, r);
    Commutative(c, n, r);
    if t == ZERO {
      Commutative(c, ZERO, r);
      assert x == r;
      // r + b = r only for b = 0
      Commutative(c, r, b);
      AdditionAssociates(c, b, r, n);
    }
  }

  lemma OnceIs(c: Curve, a: Affine)
    requires Good(c) && Element(c, a)
    ensures AffineScalarMult(c, a, 1) == a && AffineScalarMult(c, a, 0) == ZERO
  {
    hide AffineAdd;
    hide Element;
    PrimeOfGood(c);
    ZeroIsElement(c);
    AddZero(c, ZERO);
    AddZero(c, a);
    assert AffineScalarMult(c, a, 0) == ZERO;
  }

  lemma EncodedElement(c: Curve, a: Affine)
    requires Encodable(c) && Element(c, a)
    ensures SimpleDecode(c, SimpleEncode(a)) == Some(a)
  {
    hide Good;
    hide Element;
    hide OnCurve;
    hide ToAffine;
    hide EncodeBits;
    hide PointBits;
    hide Pow2;
    PrimeOfGood(c);
    PlainIsSame(c, a);
    DecodesEncoded(c, Plain(c, a));
    hide DecodePoint;
    hide SimpleDecode;
    hide IsPrime;
    DecodersAgree(c, SimpleEncode(a));
  }

  /** For a first half that is not canonical there are a hash, a message and a key on which the checks differ. */
  lemma ChecksDiffer(g: Scheme, s: seq<byte>) returns (hash: Hash, m: seq<byte>, pk: seq<byte>)
    requires Proper(g) && ToAffine(g.c, g.b) != ZERO
    requires |s| == 2 * WIDTH && DecodePoint(g.c, s[..WIDTH]).Some? && !Canonical(g.c, s[..WIDTH])
    ensures Usable(g.(hash := hash))
    ensures CheckValid(g.(hash := hash), s, m, pk)
            != SimpleCheck(g.c, ToAffine(g.c, g.b), hash, s, m, pk)
  {
    hide Good;
    hide Element;
    hide OnCurve;
    hide ToAffine;
    hide EncodeBits;
    hide PointBits;
    hide DecodePoint;
    hide SimpleDecode;
    hide Canonical;
    hide CheckValid;
    hide SimpleCheck;
    hide AffineAdd;
    hide AffineScalarMult;
    hide Decoded;
    hide Reencoded;
    hide Telling;
    hide HashedInt;
    hide SmallDigest;
    hide Plain;
    hide Pow2;
    hide Doubled;
    OfProper(g);
    hide Proper;
    hide Encodable;
    hide IsPrime;
    var c, b := g.c, ToAffine(g.c, g.b);
    DecodersAgree(c, s[..WIDTH]);
    var raw := SimpleDecode(c, s[..WIDTH]).value;
    var r := ToAffine(c, Plain(c, raw));
    PlainReduced(c, raw);
    ToAffineIsElement(c, g.b);
    ToAffineIsElement(c, Plain(c, raw));
    MultipleIsElement(c, b, Decoded(s));
    var x := AffineScalarMult(c, b, Decoded(s));
    var a := Telling(c, x, r, b);
    TellingTells(c, x, r, b);
    m, pk := [], SimpleEncode(a);
    var first, second := SimpleEncode(raw) + pk + m, SimpleEncode(r) + pk + m;
    hash := Separating(first, 0);
    FirstHalvesDiffer(c, s[..WIDTH], raw, pk, m);
    SmallDigestGives(hash, first, 0);
    SmallDigestGives(hash, second, 1);
    EncodedElement(c, a);
    OnceIs(c, a);
    SimpleVerdict(c, b, hash, s, m, pk, raw, a);
    SameAsItself(c, ZERO);
    AddSamePoints(c, raw, r, ZERO, ZERO);
    var g' := g.(hash := hash);
    ProperWith(g, hash);
    CheckOfReencoded(g', s, m, pk);
    ReencodedDecodes(g', s);
    SameDecoded(Reencoded(c, s), s);
    SimpleVerdict(c, b, hash, Reencoded(c, s), m, pk, r, a);
  }

  lemma FirstHalvesDiffer(c: Curve, s: seq<byte>, raw: Affine, pk: seq<byte>, m: seq<byte>)
    requires Encodable(c) && |s| == WIDTH && SimpleDecode(c, s) == Some(raw) && !Canonical(c, s)
    ensures SimpleEncode(raw) + pk + m != SimpleEncode(ToAffine(c, Plain(c, raw))) + pk + m
  {
    hide Good;
    hide SimpleDecode;
    hide Canonical;
    hide ToAffine;
    hide EncodeBits;
    hide PointBits;
    hide Pow2;
    PrimeOfGood(c);
    SimpleEncodesBack(c, s);
    CanonicalIff(c, s);
    var x, y := SimpleEncode(raw), SimpleEncode(ToAffine(c, Plain(c, raw)));
    assert (x + pk + m)[..WIDTH] == x && (y + pk + m)[..WIDTH] == y;
  }

  lemma MultipleIsElement(c: Curve, p: Affine, e: nat)
    requires Good(c) && Element(c, p)
    ensures Element(c, AffineScalarMult(c, p, e))
  {
    hide Good;
    hide Element;
    hide AffineAdd;
    ScalarMultIsTimes(c, p, e);
    TimesIsElement(c, p, e);
  }

  /** Both scripts give one verdict, with the hash function given. */
  ghost predicate OneVerdict(g: Scheme, hash: Hash, s: seq<byte>, m: seq<byte>, pk: seq<byte>)
    requires Usable(g)
  {
    CheckValid(g.(hash := hash), s, m, pk) == SimpleCheck(g.c, ToAffine(g.c, g.b), hash, s, m, pk)
  }

  /**
   * For a signature whose first half decodes to a point, the two checks agree on every message, key
   * and hash exactly when that half is canonical.
   */
  lemma ChecksAgreeExactly(g: Scheme, s: seq<byte>)
    requires Proper(g) && ToAffine(g.c, g.b) != ZERO
    requires |s| == 2 * WIDTH && DecodePoint(g.c, s[..WIDTH]).Some?
    ensures (forall hash: Hash, m: seq<byte>, pk: seq<byte> :: OneVerdict(g, hash, s, m, pk))
            <==> Canonical(g.c, s[..WIDTH])
  {
    hide ToAffine;
    hide Canonical;
    hide DecodePoint;
    OfProper(g);
    hide Proper;
    hide Encodable;
    hide Good;
    hide IsPrime;
    hide OnCurve;
    hide CheckValid;
    hide SimpleCheck;
    hide OneVerdict;
    if Canonical(g.c, s[..WIDTH]) {
      forall hash: Hash, m: seq<byte>, pk: seq<byte>
        ensures OneVerdict(g, hash, s, m, pk)
      {
        OneVerdictOfCanonical(g, hash, s, m, pk);
      }
    } else {
      var hash, m, pk := TwoVerdicts(g, s);
    }
  }

  lemma OneVerdictOfCanonical(g: Scheme, hash: Hash, s: seq<byte>, m: seq<byte>, pk: seq<byte>)
    requires Proper(g) && |s| == 2 * WIDTH && Canonical(g.c, s[..WIDTH])
    ensures Usable(g) && OneVerdict(g, hash, s, m, pk)
  {
    hide CheckValid;
    hide SimpleCheck;
    hide ToAffine;
    hide Canonical;
    hide DecodePoint;
    OfProper(g);
    ProperWith(g, hash);
    hide Proper;
    ChecksOfCanonical(g.(hash := hash), s, m, pk);
  }

  lemma TwoVerdicts(g: Scheme, s: seq<byte>) returns (hash: Hash, m: seq<byte>, pk: seq<byte>)
    requires Proper(g) && ToAffine(g.c, g.b) != ZERO
    requires |s| == 2 * WIDTH && DecodePoint(g.c, s[..WIDTH]).Some? && !Canonical(g.c, s[..WIDTH])
    ensures Usable(g) && !OneVerdict(g, hash, s, m, pk)
  {
    hide CheckValid;
    hide SimpleCheck;
    hide ToAffine;
    hide Canonical;
    hide DecodePoint;
    OfProper(g);
    hide Proper;
    hash, m, pk := ChecksDiffer(g, s);
  }

  // ----- A first half that is not canonical -----

  /** y = 1, for which x = 0, with the sign bit set: it decodes, to x = q, and is not canonical. */
  lemma SignedZero(c: Curve)
    requires Encodable(c)
    ensures var s := SimpleEncode(Affine(1, 1));
            && SimpleDecode(c, s) == Some(Affine(c.q, 1)) && DecodePoint(c, s).Some?
            && !Canonical(c, s)
  {
    hide XRecover;
    hide YOf;
    hide BitsOf;
    hide PointBits;
    hide EncodeBits;
    hide Cong;
    OfEncodable(c);
    hide Good;
    hide IsPrime;
    BelowPower(255);
    hide Pow2;
    var s := SimpleEncode(Affine(1, 1));
    EncodedY(Affine(1, 1));
    NeutralEquation(c);
    RecoversX(c, 0, 1);
    EquationOf(c, Affine(c.q, 1));
    hide AffineOnCurve;
    hide Equation;
    assert SimpleDecode(c, s) == Some(Affine(c.q, 1));
    DecodersAgree(c, s);
  }

  lemma NeutralEquation(c: Curve)
    requires c.q > 0
    ensures Cong(Equation(c.d, 0, 1), 0, c.q) && Cong(Equation(c.d, c.q, 1), 0, c.q)
  {
    CongRefl(0, c.q);
    assert Equation(c.d, 0, 1) == 0;
    SquareOfOpposite(0, c.q);
    SquaresGiveEquation(c, c.q, 0, 1);
  }
}
