/** The last step of checking a signature, on points: S B = R + h A, in both forms of the arithmetic. */
module SignatureCheck {
  import opened ModArith
  import opened Edwards
  import opened GroupLaw
  import opened ScalarMult

  /** Both points are on the curve and their coordinates agree after multiplying out the denominators. */
  predicate Agree(c: Curve, p: Point, q: Point)
    requires c.q > 0
  {
    && OnCurve(c, p) && OnCurve(c, q)
    && (p.x * q.z - q.x * p.z) % c.q == 0
    && (p.y * q.z - q.y * p.z) % c.q == 0
  }

  method CheckPoints(c: Curve, table: Table, r: Point, a: Point, s: nat, h: nat) returns (ok: bool)
    requires c.q > 0 && |table.bpow| >= TABLE_SIZE
    ensures ok == Agree(c, AtBits(c, table.bpow, s % ORDER, TABLE_SIZE), Add(c, r, ScalarMult.ScalarMult(c, a, h)))
  {
    var p := table.ScalarMultB(c, s);
    var q := Add(c, r, ScalarMult.ScalarMult(c, a, h));
    ok := OnCurve(c, p) && OnCurve(c, q)
          && (p.x * q.z - q.x * p.z) % c.q == 0 && (p.y * q.z - q.y * p.z) % c.q == 0;
  }

  lemma Commuted(u: int, y: int, z: int)
    ensures u * y * z == y * z * u
  {
  }

  lemma CrossCoordinate(m: int, x1: int, z1: int, u1: int, x2: int, z2: int, u2: int)
    requires IsPrime(m) && !Cong(z1, 0, m) && !Cong(z2, 0, m)
    requires Cong(x1, u1 * z1, m) && Cong(x2, u2 * z2, m)
    ensures (x1 * z2 - x2 * z1) % m == 0 <==> Cong(u1, u2, m)
  {
    hide Cong;
    var w := z1 * z2;
    CongRefl(z1, m);
    CongRefl(z2, m);
    CongMul(x1, u1 * z1, z2, z2, m);
    CongMul(x2, u2 * z2, z1, z1, m);
    Commuted(u1, z1, z2);
    Commuted(u2, z2, z1);
    assert z2 * z1 == w;
    CongSub(x1 * z2, w * u1, x2 * z1, w * u2, m);
    SameZero(x1 * z2 - x2 * z1, w * u1 - w * u2, m);
    ZeroIsMultiple(x1 * z2 - x2 * z1, m);
    ZeroIsMultiple(w * u1 - w * u2, m);
    CongZero(w * u1, w * u2, m);
    if Cong(w * u1, w * u2, m) {
      if Cong(w, 0, m) {
        Euclid(z1, z2, m);
      }
      Cancel(w, u1, u2, m);
    }
    if Cong(u1, u2, m) {
      CongRefl(w, m);
      CongMul(w, w, u1, u2, m);
    }
  }

  lemma ZeroIsMultiple(a: int, m: int)
    requires m > 0
    ensures Cong(a, 0, m) <==> a % m == 0
  {
    DivisionUnique(0, m, 0, 0);
  }

  /**
   * Multiplying out the denominators compares exactly the affine points; whatever is not on the curve agrees with
   * nothing.
   */
  lemma AgreeIsEqual(c: Curve, p: Point, q: Point)
    requires IsPrime(c.q) && c.q > 2
    ensures Agree(c, p, q) <==> OnCurve(c, p) && OnCurve(c, q) && ToAffine(c, p) == ToAffine(c, q)
  {
    if OnCurve(c, p) && OnCurve(c, q) {
      hide InvMod;
      var m, a1, a2 := c.q, ToAffine(c, p), ToAffine(c, q);
      OnCurveRepresents(c, p);
      OnCurveRepresents(c, q);
      CrossCoordinate(m, p.x, p.z, a1.x, q.x, q.z, a2.x);
      CrossCoordinate(m, p.y, p.z, a1.y, q.y, q.z, a2.y);
      DivisionUnique(a1.x, m, 0, a1.x);
      DivisionUnique(a1.y, m, 0, a1.y);
      DivisionUnique(a2.x, m, 0, a2.x);
      DivisionUnique(a2.y, m, 0, a2.y);
    }
  }

  ghost predicate BaseTable(c: Curve, b: Point, table: seq<Point>)
    requires c.q > 2
  {
    && Good(c) && OnCurve(c, b)
    && |table| >= TABLE_SIZE && (forall i :: 0 <= i < TABLE_SIZE ==> table[i] == Doubled(c, b, i))
    && ToAffine(c, ScalarMult.ScalarMult(c, b, ORDER)) == ZERO
  }

  /**
   * The check over extended coordinates, with the table, accepts exactly what the check with affine
   * points accepts, whatever R and A on the curve and whatever the scalars.
   */
  lemma ChecksAgree(c: Curve, b: Point, table: seq<Point>, r: Point, a: Point, s: nat, h: nat)
    requires c.q > 2 && BaseTable(c, b, table) && OnCurve(c, r) && OnCurve(c, a)
    ensures Agree(c, AtBits(c, table, s % ORDER, TABLE_SIZE), Add(c, r, ScalarMult.ScalarMult(c, a, h)))
            <==> AffineScalarMult(c, ToAffine(c, b), s)
                 == AffineAdd(c, ToAffine(c, r), AffineScalarMult(c, ToAffine(c, a), h))
  {
    hide OnCurve;
    hide ToAffine;
    hide Add;
    hide AffineAdd;
    hide AtBits;
    hide Doubled;
    hide Agree;
    PrimeOfGood(c);
    hide Good;
    TableAgreesIffOrder(c, b, table);
    assert TableAgreesAt(c, b, table, s);
    TableMultiplies(c, b, table, s);
    ScalarMultRefines(c, b, s);
    ScalarMultRefines(c, a, h);
    AddRefines(c, r, ScalarMult.ScalarMult(c, a, h));
    AgreeIsEqual(c, AtBits(c, table, s % ORDER, TABLE_SIZE), Add(c, r, ScalarMult.ScalarMult(c, a, h)));
  }

  lemma {:induction false} TimesMul(c: Curve, p: Affine, a: nat, h: nat)
    requires c.q > 2 && Good(c) && Element(c, p)
    ensures Times(c, Times(c, p, a), h) == Times(c, p, h * a)
  {
    hide AffineAdd;
    hide Element;
    if h == 0 {
      assert 0 * a == 0;
    } else {
      TimesMul(c, p, a, h - 1);
      TimesAdd(c, p, (h - 1) * a, a);
      assert (h - 1) * a + a == h * a;
    }
  }

  /** Multiples depend on the scalar modulo the order only. */
  lemma TimesReduced(c: Curve, p: Affine, e: nat)
    requires c.q > 2 && Good(c) && Element(c, p) && Times(c, p, ORDER) == ZERO
    ensures Times(c, p, e) == Times(c, p, e % ORDER)
  {
    hide AffineAdd;
    hide Element;
    hide Times;
    PrimeOfGood(c);
    hide Good;
    var k, r := e / ORDER, e % ORDER;
    TimesOrder(c, p, k);
    TimesAdd(c, p, k * ORDER, r);
    TimesIsElement(c, p, r);
    AddZero(c, Times(c, p, r));
    assert k * ORDER + r == e;
  }

  /**
   * A signature verifies: with R = r B, A = a B and S = (r + h a) mod l, all computed from the
   * table, the check accepts, whatever r, a and h.
   */
  lemma SignedIsAccepted(c: Curve, b: Point, table: seq<Point>, r: nat, a: nat, h: nat)
    requires c.q > 2 && BaseTable(c, b, table)
    ensures var rp, ap := AtBits(c, table, r % ORDER, TABLE_SIZE), AtBits(c, table, a % ORDER, TABLE_SIZE);
            var s := (r + h * a) % ORDER;
            Agree(c, AtBits(c, table, s % ORDER, TABLE_SIZE), Add(c, rp, ScalarMult.ScalarMult(c, ap, h)))
  {
    hide OnCurve;
    hide ToAffine;
    hide Add;
    hide AffineAdd;
    hide AtBits;
    hide Doubled;
    hide Agree;
    hide Times;
    hide Element;
    hide AffineScalarMult;
    hide ScalarMult.ScalarMult;
    PrimeOfGood(c);
    hide Good;
    var rp, ap := AtBits(c, table, r % ORDER, TABLE_SIZE), AtBits(c, table, a % ORDER, TABLE_SIZE);
    var s, p := (r + h * a) % ORDER, ToAffine(c, b);
    ToAffineIsElement(c, b);
    ScalarMultRefines(c, b, ORDER);
    ScalarMultIsTimes(c, p, ORDER);
    TableMultiplies(c, b, table, r);
    TableMultiplies(c, b, table, a);
    ChecksAgree(c, b, table, rp, ap, s, h);
    TimesReduced(c, p, r);
    TimesReduced(c, p, a);
    TimesReduced(c, p, r + h * a);
    ScalarMultIsTimes(c, p, s);
    TimesIsElement(c, p, a);
    ScalarMultIsTimes(c, Times(c, p, a), h);
    TimesMul(c, p, a, h);
    TimesAdd(c, p, r, h * a);
  }
}
