/** The two scripts on the curve of Ed25519, as each of them computes its constants. */
module Ed25519Scripts {
  import opened Bytes
  import opened ModArith
  import opened FieldInverse
  import opened Edwards
  import opened GroupLaw
  import opened ScalarMult
  import opened Ed25519
  import opened IntegerCodec
  import opened PointCodec
  import opened Signatures
  import opened SimpleSignatures

  // ----- The simple script keeps d unreduced -----

  lemma {:induction false} MultiplyReducesD(c: Curve, d: int, p: Affine, e: nat)
    requires c.q > 2 && Cong(d, c.d, c.q)
    ensures AffineScalarMult(Curve(c.q, d), p, e) == AffineScalarMult(c, p, e)
  {
    hide AffineAdd;
    hide Cong;
    if e == 0 {
    } else {
      MultiplyReducesD(c, d, p, e / 2);
      var r := AffineScalarMult(c, p, e / 2);
      AffineAddReducesD(c, d, r, r);
      AffineAddReducesD(c, d, AffineAdd(c, r, r), p);
    }
  }

  lemma DecodeReducesD(c: Curve, d: int, s: seq<byte>)
    requires c.q > 2 && Cong(d, c.d, c.q) && |s| >= WIDTH
    ensures SimpleDecode(Curve(c.q, d), s) == SimpleDecode(c, s)
  {
    hide AffineOnCurve;
    hide YOf;
    hide BitsOf;
    hide Cong;
    var y, c' := YOf(s), Curve(c.q, d);
    RecoverReducesD(c, d, y);
    hide XRecover;
    var even := XRecover(c, y);
    CurveReducesD(c, d, Affine(if even % 2 != BitsOf(s)(255) then c.q - even else even, y));
  }

  lemma RecoverReducesD(c: Curve, d: int, y: int)
    requires c.q > 2 && Cong(d, c.d, c.q)
    ensures XRecover(Curve(c.q, d), y) == XRecover(c, y)
  {
    hide Cong;
    hide Expmod;
    hide IsRoot;
    CongTimes(d, c.d, y, c.q);
    CongTimes(d * y, c.d * y, y, c.q);
    CongRefl(1, c.q);
    CongAdd(d * y * y, c.d * y * y, 1, 1, c.q);
    ExpmodCong(d * y * y + 1, c.d * y * y + 1, c.q - 2, c.q);
    assert XSquared(Curve(c.q, d), y) == XSquared(c, y);
    hide XSquared;
  }

  lemma CurveReducesD(c: Curve, d: int, a: Affine)
    requires c.q > 0 && Cong(d, c.d, c.q)
    ensures AffineOnCurve(Curve(c.q, d), a) <==> AffineOnCurve(c, a)
  {
    hide AffineOnCurve;
    hide Cong;
    EquationOf(Curve(c.q, d), a);
    EquationOf(c, a);
    var w, z := a.x * a.x, a.y * a.y;
    CongTimes(d, c.d, w, c.q);
    CongTimes(d * w, c.d * w, z, c.q);
    CongRefl(z - w - 1, c.q);
    CongSub(z - w - 1, z - w - 1, d * w * z, c.d * w * z, c.q);
    SameZero(Equation(d, a.x, a.y), Equation(c.d, a.x, a.y), c.q);
  }

  lemma SimpleReducesD(c: Curve, d: int, b: Affine, hash: Hash,
                       sk: seq<byte>, m: seq<byte>, pk: seq<byte>, s: seq<byte>)
    requires c.q > 2 && Cong(d, c.d, c.q)
    ensures SimplePublicKey(Curve(c.q, d), b, hash, sk) == SimplePublicKey(c, b, hash, sk)
    ensures SimpleSign(Curve(c.q, d), b, hash, m, sk, pk) == SimpleSign(c, b, hash, m, sk, pk)
    ensures SimpleCheck(Curve(c.q, d), b, hash, s, m, pk) == SimpleCheck(c, b, hash, s, m, pk)
  {
    hide SimpleEncode;
    hide AffineScalarMult;
    hide SecretScalar;
    hide Nonce;
    hide HashedInt;
    hide Response;
    hide Encode;
    hide Cong;
    MultiplyReducesD(c, d, b, SecretScalar(hash(sk)));
    MultiplyReducesD(c, d, b, Nonce(hash, m, sk));
    CheckReducesD(c, d, b, hash, m, pk, s);
    hide SimpleCheck;
  }

  lemma CheckReducesD(c: Curve, d: int, b: Affine, hash: Hash, m: seq<byte>, pk: seq<byte>, s: seq<byte>)
    requires c.q > 2 && Cong(d, c.d, c.q)
    ensures SimpleCheck(Curve(c.q, d), b, hash, s, m, pk) == SimpleCheck(c, b, hash, s, m, pk)
  {
    hide SimpleEncode;
    hide SimpleDecode;
    hide AffineScalarMult;
    hide AffineAdd;
    hide HashedInt;
    hide Decoded;
    hide Cong;
    if |s| == 2 * WIDTH && |pk| == WIDTH {
      DecodeReducesD(c, d, s[..WIDTH]);
      DecodeReducesD(c, d, pk);
      if SimpleDecode(c, s[..WIDTH]).Some? && SimpleDecode(c, pk).Some? {
        var r, a := SimpleDecode(c, s[..WIDTH]).value, SimpleDecode(c, pk).value;
        var h := HashedInt(hash, SimpleEncode(r) + pk + m);
        MultiplyReducesD(c, d, b, Decoded(s));
        MultiplyReducesD(c, d, a, h);
        AffineAddReducesD(c, d, r, AffineScalarMult(c, a, h));
      }
    }
  }

  // ----- Ed25519 -----

  /** The curve as the simple script computes it. */
  function SimpleCurve(): Curve {
    Curve(Q, -121665 * Expmod(121666, Q - 2, Q))
  }

  lemma SimpleCurveIs()
    requires IsPrime(Q)
    ensures SimpleCurve().q == Q && Cong(SimpleCurve().d, D, Q)
  {
    hide Inv;
    hide Expmod;
    hide IsPrime;
    Constants();
    InversesAgree(121666);
    CongMod(SimpleCurve().d, Q);
    CongSymm(D, SimpleCurve().d, Q);
  }

  /**
   * Ed25519, if q is prime: the two scripts compute the same public key and the same signature from
   * every key and message, and the fast check of a signature is the simple check of the signature
   * with its first half encoded again.
   */
  lemma Ed25519ScriptsAgree(hash: Hash, sk: seq<byte>, m: seq<byte>, pk: seq<byte>, s: seq<byte>)
    requires IsPrime(Q)
    ensures var g, c, b := Ed25519Scheme(hash), SimpleCurve(), Affine(BASE_X, BASE_Y);
            && PublicKey(g, sk) == SimplePublicKey(c, b, hash, sk)
            && Sign(g, m, sk, pk) == SimpleSign(c, b, hash, m, sk, pk)
            && CheckValid(g, s, m, pk)
               == SimpleCheck(c, b, hash, if |s| == 2 * WIDTH then Reencoded(ED25519, s) else s, m, pk)
  {
    hide IsPrime;
    hide Proper;
    hide SimpleCurve;
    hide SimplePublicKey;
    hide SimpleSign;
    hide SimpleCheck;
    hide PublicKey;
    hide Sign;
    hide CheckValid;
    hide Reencoded;
    hide ToAffine;
    hide BasePowers;
    hide Cong;
    var g := Ed25519Scheme(hash);
    Ed25519Proper(hash);
    BaseToAffine();
    SimpleCurveIs();
    PublicKeysAgree(g, sk);
    SignaturesAgree(g, m, sk, pk);
    CheckOfReencoded(g, s, m, pk);
    SimpleReducesD(ED25519, SimpleCurve().d, Affine(BASE_X, BASE_Y), hash, sk, m, pk,
                   if |s| == 2 * WIDTH then Reencoded(ED25519, s) else s);
  }

  /**
   * And for every signature whose first half decodes to a point, the two checks agree on all hash
   * functions, messages and keys exactly when that half is canonical.
   */
  lemma Ed25519ChecksAgreeExactly(s: seq<byte>)
    requires IsPrime(Q)
    requires |s| == 2 * WIDTH && DecodePoint(ED25519, s[..WIDTH]).Some?
    ensures (forall hash: Hash, m: seq<byte>, pk: seq<byte> :: Ed25519OneVerdict(hash, s, m, pk))
            <==> Canonical(ED25519, s[..WIDTH])
  {
    hide IsPrime;
    hide Proper;
    hide OneVerdict;
    hide Ed25519OneVerdict;
    hide Canonical;
    hide DecodePoint;
    hide ToAffine;
    hide BasePowers;
    var g := Ed25519Scheme(_ => SmallDigest(0));
    Ed25519Proper(g.hash);
    BaseToAffine();
    BaseNotZero();
    ChecksAgreeExactly(g, s);
    forall hash: Hash, m: seq<byte>, pk: seq<byte>
      ensures OneVerdict(g, hash, s, m, pk) <==> Ed25519OneVerdict(hash, s, m, pk)
    {
      VerdictOfEd25519(g, hash, s, m, pk);
    }
  }

  ghost predicate Ed25519OneVerdict(hash: Hash, s: seq<byte>, m: seq<byte>, pk: seq<byte>) {
    CheckValid(Ed25519Scheme(hash), s, m, pk) == SimpleCheck(SimpleCurve(), Affine(BASE_X, BASE_Y), hash, s, m, pk)
  }

  lemma BaseNotZero()
    ensures Affine(BASE_X, BASE_Y) != ZERO
  {
  }

  lemma VerdictOfEd25519(g: Scheme, hash: Hash, s: seq<byte>, m: seq<byte>, pk: seq<byte>)
    requires IsPrime(Q) && g == Ed25519Scheme(g.hash) && Usable(g)
    ensures OneVerdict(g, hash, s, m, pk) <==> Ed25519OneVerdict(hash, s, m, pk)
  {
    hide IsPrime;
    hide SimpleCurve;
    hide SimpleCheck;
    hide CheckValid;
    hide ToAffine;
    hide BasePowers;
    hide Cong;
    BaseToAffine();
    SimpleCurveIs();
    CheckReducesD(ED25519, SimpleCurve().d, Affine(BASE_X, BASE_Y), hash, m, pk, s);
  }

  /**
   * There are a hash function, a signature, a message and a key for which the two scripts give different
   * verdicts: the first half of the signature has y = 1 and the sign bit.
   */
  lemma Ed25519ScriptsDiffer() returns (hash: Hash, s: seq<byte>, m: seq<byte>, pk: seq<byte>)
    requires IsPrime(Q)
    ensures |s| == 2 * WIDTH && s[..WIDTH] == SimpleEncode(Affine(1, 1))
    ensures !Ed25519OneVerdict(hash, s, m, pk)
  {
    hide IsPrime;
    hide Proper;
    hide OneVerdict;
    hide Ed25519OneVerdict;
    hide Canonical;
    hide DecodePoint;
    hide SimpleDecode;
    hide SimpleEncode;
    hide Encode;
    hide ToAffine;
    hide BasePowers;
    hide Encodable;
    var first := SimpleEncode(Affine(1, 1));
    s := first + Encode(0);
    assert s[..WIDTH] == first;
    var g := Ed25519Scheme(_ => SmallDigest(0));
    Ed25519Proper(g.hash);
    Ed25519Encodable();
    BaseToAffine();
    BaseNotZero();
    SignedZero(ED25519);
    hash, m, pk := TwoVerdicts(g, s);
    VerdictOfEd25519(g, hash, s, m, pk);
  }
}
