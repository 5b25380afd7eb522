/** The curve of Ed25519: what has to be assumed of it is that its modulus is prime. */
module Ed25519 {
  import opened ModArith
  import opened FieldInverse
  import opened Edwards
  import opened QuadraticResidues
  import opened ScalarMult

  const D: int := 0x52036cee_2b6ffe73_8cc74079_7779e898_00700a4d_4141d8ab_75eb4dca_135978a3

  const BASE_X: int := 0x216936d3_cd6e53fe_c0a4e231_fdd6dc5c_692cc760_9525a7b2_c9562d60_8f25d51a
  const BASE_Y: int := 0x66666666_66666666_66666666_66666666_66666666_66666666_66666666_66666658

  const BASE_T: int := 0x67875f0f_d78b7665_66ea4e8e_64abe37d_20f09f80_775152f5_6dde8ab3_a5b7dda3

  const ED25519 := Curve(Q, D)
  const BASE := Point(BASE_X, BASE_Y, 1, BASE_T)

  const ROOT_OF_MINUS_ONE: int := 0x2b832480_4fc1df0b_2b4d0099_3dfbd7a7_2f431806_ad2fe478_c4ee1b27_4a0ea0b0
  const ROOT_OF_2D: int := 0x7aace324_fd0ac689_10cb40c6_304ab6b7_dbb63fe1_a1c15dad_5c477a1b_914298b0

  /** What is computed with these numbers alone. */
  lemma Roots()
    ensures Cong(ROOT_OF_MINUS_ONE * ROOT_OF_MINUS_ONE, -1, Q)
    ensures Cong(ROOT_OF_2D * ROOT_OF_2D, 2 * D, Q) && !Cong(ROOT_OF_2D, 0, Q)
  {
  }

  lemma ConstantFractions()
    ensures Cong(D * 121666, -121665, Q) && !Cong(121666, 0, Q)
    ensures Cong(BASE_Y * 5, 4, Q) && !Cong(5, 0, Q)
    ensures 0 <= D < Q && 0 <= BASE_X < Q && 0 <= BASE_Y < Q && BASE_X % 2 == 0
  {
  }

  lemma BaseEquation()
    ensures Cong(Equation(D, BASE_X, BASE_Y), 0, Q)
  {
  }

  predicate IsProduct(q: int, x: int, y: int, t: int)
    requires q > 0
  {
    t == x * y % q
  }

  lemma BaseProduct()
    ensures IsProduct(Q, BASE_X, BASE_Y, BASE_T)
  {
  }

  lemma ModulusClass()
    ensures Q % 8 == 5 && Q > 16
  {
  }

  // ----- The constants are what the source computes -----

  /** A residue that gives the other when multiplied by an invertible number is its quotient. */
  lemma IsQuotient(r: int, x: int, z: int, q: int)
    requires IsPrime(q) && q > 2 && !Cong(z, 0, q)
    requires 0 <= r < q && Cong(r * z, x, q)
    ensures r == x * Expmod(z, q - 2, q) % q
  {
    hide Expmod;
    var zi := Expmod(z, q - 2, q);
    ExpmodInverts(z, q);
    CongMul(r * z, x, zi, zi, q);
    CongMul(r, r, z * zi, 1, q);
    assert r * z * zi == r * (z * zi);
    DivisionUnique(r, q, 0, r);
  }

  /** d is -121665 / 121666 and the base point has y = 4 / 5. */
  lemma Constants()
    requires IsPrime(Q)
    ensures D == -121665 * Inv(121666, Q) % Q
    ensures BASE_Y == 4 * Inv(5, Q) % Q
  {
    hide Inv;
    hide Expmod;
    hide IsPrime;
    hide Cong;
    ConstantFractions();
    IsQuotient(D, -121665, 121666, Q);
    IsQuotient(BASE_Y, 4, 5, Q);
    InversesAgree(121666);
    InversesAgree(5);
  }

  lemma PlainOnCurve(c: Curve, x: int, y: int)
    requires IsPrime(c.q) && c.q > 2
    ensures OnCurve(c, Point(x, y, 1, x * y % c.q)) <==> Cong(Equation(c.d, x, y), 0, c.q)
    ensures Represents(c.q, Point(x, y, 1, x * y % c.q), x, y)
  {
    UnitNotZero(c.q, 1);
    CongMod(x * y, c.q);
    OnCurveEquation(c, Point(x, y, 1, x * y % c.q), x, y);
  }

  lemma BaseOnCurve()
    requires IsPrime(Q)
    ensures OnCurve(ED25519, BASE)
  {
    hide IsPrime;
    hide OnCurve;
    hide Equation;
    hide Cong;
    hide IsProduct;
    BaseEquation();
    BaseProduct();
    PointOnCurve(ED25519, BASE_X, BASE_Y, BASE_T);
  }

  lemma PointOnCurve(c: Curve, x: int, y: int, t: int)
    requires IsPrime(c.q) && c.q > 2 && IsProduct(c.q, x, y, t)
    ensures OnCurve(c, Point(x, y, 1, t)) <==> Cong(Equation(c.d, x, y), 0, c.q)
    ensures Represents(c.q, Point(x, y, 1, t), x, y)
  {
    PlainOnCurve(c, x, y);
  }

  /** All that is asked of the curve holds of Ed25519, exactly if q is prime. */
  lemma GoodIfPrime()
    ensures Good(ED25519) <==> IsPrime(Q)
    ensures IsPrime(Q) ==> FiveModEight(Q)
  {
    hide Cong;
    hide IsPrime;
    hide SquareTimes;
    Roots();
    ModulusClass();
    assert RootOfMinusOne(ED25519, ROOT_OF_MINUS_ONE);
    if IsPrime(Q) {
      forall a, b | SquareTimes(ED25519, a, b)
        ensures Cong(b, 0, Q)
      {
        NoSquareTimes(ED25519, ROOT_OF_MINUS_ONE, ROOT_OF_2D, a, b);
      }
    }
  }

  lemma NoSquareTimes(c: Curve, i: int, s: int, a: int, b: int)
    requires FiveModEight(c.q) && Cong(i * i, -1, c.q) && Cong(s * s, 2 * c.d, c.q) && !Cong(s, 0, c.q)
    requires SquareTimes(c, a, b)
    ensures Cong(b, 0, c.q)
  {
    NoSquareMultiple(i, s, c.d, a, b, c.q);
  }

  // ----- What that gives -----

  /**
   * If q is prime, the fast multiplication by any scalar refines the affine one on Ed25519,
   * starting from the base point.
   */
  lemma BaseMultiples(e: nat)
    requires IsPrime(Q)
    ensures OnCurve(ED25519, ScalarMult.ScalarMult(ED25519, BASE, e))
    ensures ToAffine(ED25519, ScalarMult.ScalarMult(ED25519, BASE, e))
            == AffineScalarMult(ED25519, Affine(BASE_X, BASE_Y), e)
  {
    hide OnCurve;
    hide ToAffine;
    hide IsPrime;
    hide Good;
    GoodIfPrime();
    BaseOnCurve();
    ScalarMultRefines(ED25519, BASE, e);
    BaseToAffine();
  }

  lemma BaseToAffine()
    requires IsPrime(Q)
    ensures ToAffine(ED25519, BASE) == Affine(BASE_X, BASE_Y)
  {
    hide ToAffine;
    hide IsPrime;
    hide Represents;
    hide OnCurve;
    hide Equation;
    hide IsProduct;
    BaseProduct();
    PointOnCurve(ED25519, BASE_X, BASE_Y, BASE_T);
    RepresentedPoint(ED25519, BASE, BASE_X, BASE_Y);
  }

  // ----- The unreduced d of the affine form -----

  lemma ExpmodCong(a: int, b: int, e: nat, m: int)
    requires m > 0 && e > 0 && Cong(a, b, m)
    ensures Expmod(a, e, m) == Expmod(b, e, m)
  {
    ExpmodIsPower(a, e, m);
    ExpmodIsPower(b, e, m);
    CongPow(a, b, e, m);
    DivisionUnique(Expmod(a, e, m), m, 0, Expmod(a, e, m));
    DivisionUnique(Expmod(b, e, m), m, 0, Expmod(b, e, m));
  }

  /** The affine form keeps d unreduced, which makes no difference to any sum. */
  lemma AffineAddReducesD(c: Curve, d: int, p: Affine, r: Affine)
    requires c.q > 2 && Cong(d, c.d, c.q)
    ensures AffineAdd(Curve(c.q, d), p, r) == AffineAdd(c, p, r)
  {
    hide Cong;
    var m, w := c.q, p.x * r.x * p.y * r.y;
    CongRefl(w, m);
    CongRefl(1, m);
    CongMul(d, c.d, w, w, m);
    CongAdd(1, 1, d * w, c.d * w, m);
    CongSub(1, 1, d * w, c.d * w, m);
    assert d * p.x * r.x * p.y * r.y == d * w && c.d * p.x * r.x * p.y * r.y == c.d * w;
    ExpmodCong(1 + d * w, 1 + c.d * w, m - 2, m);
    ExpmodCong(1 - d * w, 1 - c.d * w, m - 2, m);
  }
}
