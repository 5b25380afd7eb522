/**
 * The coordinates of the table of powers. The comment beside the table says that entry i equals the
 * scalar multiple by 2^i: of the points it does, of the coordinates it never does.
 */
module TableCoordinates {
  import opened Bytes
  import opened ModArith
  import opened FieldInverse
  import opened Edwards
  import opened GroupLaw
  import opened QuadraticResidues
  import opened ScalarMult
  import opened Ed25519

  /** The coordinates of p are k times those of r. */
  ghost predicate Multiple(m: int, p: Point, k: int, r: Point)
    requires m > 0
  {
    Cong(p.x, k * r.x, m) && Cong(p.y, k * r.y, m) && Cong(p.z, k * r.z, m) && Cong(p.t, k * r.t, m)
  }

  // ----- Doubling multiplies a common factor by its cube -----

  lemma ProductOfMultiples(m: int, x: int, y: int, k: int, a: int, b: int)
    requires m > 0 && Cong(x, k * a, m) && Cong(y, k * b, m)
    ensures Cong(x * y, k * k * (a * b), m)
  {
    hide Cong;
    CongMul(x, k * a, y, k * b, m);
    PairProduct(k, a, k, b);
  }

  /** Doubling without the reductions of its intermediate values. */
  function Unreduced(p: Point): Point {
    var e, g := 2 * (p.x * p.y), p.y * p.y - p.x * p.x;
    var f, h := p.y * p.y - p.x * p.x - 2 * (p.z * p.z), -(p.x * p.x) - p.y * p.y;
    Point(e * f, g * h, f * g, e * h)
  }

  lemma DoubleIsUnreduced(c: Curve, p: Point)
    requires c.q > 0
    ensures Multiple(c.q, Edwards.Double(c, p), 1, Unreduced(p))
  {
    hide Cong;
    var m := c.q;
    var a, b, cc := p.x * p.x % m, p.y * p.y % m, 2 * p.z * p.z % m;
    var e := ((p.x + p.y) * (p.x + p.y) - a - b) % m;
    DoubleValues(m, p);
    ProductsMod(m, e, -a + b - cc, -a + b, -a - b, 2 * (p.x * p.y), p.y * p.y - p.x * p.x - 2 * (p.z * p.z),
                p.y * p.y - p.x * p.x, -(p.x * p.x) - p.y * p.y);
  }

  /** The intermediate values of doubling, for coordinates with a common factor. */
  lemma ScaledValues(m: int, p: Point, k: int, r: Point)
    requires m > 0 && Multiple(m, p, k, r)
    ensures Cong(2 * (p.x * p.y), k * k * (2 * (r.x * r.y)), m)
    ensures Cong(p.y * p.y - p.x * p.x, k * k * (r.y * r.y - r.x * r.x), m)
    ensures Cong(p.y * p.y - p.x * p.x - 2 * (p.z * p.z), k * k * (r.y * r.y - r.x * r.x - 2 * (r.z * r.z)), m)
    ensures Cong(-(p.x * p.x) - p.y * p.y, k * k * (-(r.x * r.x) - r.y * r.y), m)
  {
    hide Cong;
    var w := k * k;
    var xx, yy, zz, xy := r.x * r.x, r.y * r.y, r.z * r.z, r.x * r.y;
    ProductOfMultiples(m, p.x, p.x, k, r.x, r.x);
    ProductOfMultiples(m, p.y, p.y, k, r.y, r.y);
    ProductOfMultiples(m, p.z, p.z, k, r.z, r.z);
    ProductOfMultiples(m, p.x, p.y, k, r.x, r.y);
    CongRefl(2, m);
    CongRefl(0, m);
    CongMul(2, 2, p.x * p.y, w * xy, m);
    CongMul(2, 2, p.z * p.z, w * zz, m);
    CongSub(p.y * p.y, w * yy, p.x * p.x, w * xx, m);
    CongSub(p.y * p.y - p.x * p.x, w * yy - w * xx, 2 * (p.z * p.z), 2 * (w * zz), m);
    CongSub(0, 0, p.x * p.x, w * xx, m);
    CongSub(0 - p.x * p.x, 0 - w * xx, p.y * p.y, w * yy, m);
    FactorOut(w, xx, yy, zz, xy);
  }

  lemma FactorOut(w: int, xx: int, yy: int, zz: int, xy: int)
    ensures 2 * (w * xy) == w * (2 * xy)
    ensures w * yy - w * xx == w * (yy - xx)
    ensures w * yy - w * xx - 2 * (w * zz) == w * (yy - xx - 2 * zz)
    ensures 0 - w * xx - w * yy == w * (-xx - yy)
  {
  }

  /** A common factor of the coordinates is raised to the fourth power. */
  lemma UnreducedScales(m: int, p: Point, k: int, r: Point)
    requires m > 0 && Multiple(m, p, k, r)
    ensures Multiple(m, Unreduced(p), k * k * (k * k), Unreduced(r))
  {
    hide Cong;
    var w := k * k;
    var e, g := 2 * (p.x * p.y), p.y * p.y - p.x * p.x;
    var f, h := p.y * p.y - p.x * p.x - 2 * (p.z * p.z), -(p.x * p.x) - p.y * p.y;
    var e', g' := 2 * (r.x * r.y), r.y * r.y - r.x * r.x;
    var f', h' := r.y * r.y - r.x * r.x - 2 * (r.z * r.z), -(r.x * r.x) - r.y * r.y;
    ScaledValues(m, p, k, r);
    ProductOfMultiples(m, e, f, w, e', f');
    ProductOfMultiples(m, g, h, w, g', h');
    ProductOfMultiples(m, f, g, w, f', g');
    ProductOfMultiples(m, e, h, w, e', h');
  }

  lemma ChainOfMultiples(m: int, x: int, y: int, k: int, z: int, w: int)
    requires m > 0 && Cong(x, y, m) && Cong(y, k * z, m) && Cong(w, z, m)
    ensures Cong(x, k * w, m)
  {
    hide Cong;
    CongTrans(x, y, k * z, m);
    CongRefl(k, m);
    CongMul(k, k, w, z, m);
    BothCong(x, k * w, k * z, m);
  }

  lemma DoubleScales(c: Curve, p: Point, k: int, r: Point)
    requires c.q > 0 && Multiple(c.q, p, k, r)
    ensures Multiple(c.q, Edwards.Double(c, p), k * k * (k * k), Edwards.Double(c, r))
  {
    hide Cong;
    hide Edwards.Double;
    hide Unreduced;
    var m, w := c.q, k * k * (k * k);
    var a, b, x, y := Edwards.Double(c, p), Edwards.Double(c, r), Unreduced(p), Unreduced(r);
    DoubleIsUnreduced(c, p);
    DoubleIsUnreduced(c, r);
    UnreducedScales(m, p, k, r);
    ChainOfMultiples(m, a.x, x.x, w, y.x, b.x);
    ChainOfMultiples(m, a.y, x.y, w, y.y, b.y);
    ChainOfMultiples(m, a.z, x.z, w, y.z, b.z);
    ChainOfMultiples(m, a.t, x.t, w, y.t, b.t);
  }

  // ----- Scalar multiplication by 1 does not give the point back -----

  lemma TwiceNegated(m: int, x: int, y: int)
    requires m > 0
    ensures Cong((m - 1) * y, -y, m)
    ensures Cong((m - 1) * (y + x) % m - (m - 1) * (y - x) % m, -2 * x, m)
    ensures Cong((m - 1) * (y + x) % m + (m - 1) * (y - x) % m, -2 * y, m)
  {
    MinusOneTimes(m, y);
    MinusOneTimes(m, y + x);
    MinusOneTimes(m, y - x);
    var b, a := (m - 1) * (y + x), (m - 1) * (y - x);
    CongModOf(b, -(y + x), m);
    CongModOf(a, -(y - x), m);
    CongSub(b % m, -(y + x), a % m, -(y - x), m);
    CongAdd(b % m, -(y + x), a % m, -(y - x), m);
  }

  lemma MinusOneTimes(m: int, y: int)
    requires m > 0
    ensures Cong((m - 1) * y, -y, m)
  {
    assert (m - 1) * y == -y + y * m;
    CongByMultiple((m - 1) * y, -y, y, m);
  }

  /** The products of the addition formula when the first point is the doubled identity. */
  lemma FourTimes(m: int, x: int, y: int, z: int)
    requires m > 0
    ensures var e := (m - 1) * (y + x) % m - (m - 1) * (y - x) % m;
            var h := (m - 1) * (y + x) % m + (m - 1) * (y - x) % m;
            var dd := (m - 1) * 2 * z % m;
            && Cong(e * dd % m, 4 * z * x, m) && Cong(dd * h % m, 4 * z * y, m)
            && Cong(dd * dd % m, 4 * z * z, m) && Cong(e * h % m, 4 * (x * y), m)
  {
    hide Cong;
    TwiceNegated(m, x, y);
    MinusOneTimes(m, 2 * z);
    assert (m - 1) * 2 * z == (m - 1) * (2 * z);
    CongModOf((m - 1) * (2 * z), -(2 * z), m);
    ProductsMod(m, (m - 1) * (y + x) % m - (m - 1) * (y - x) % m, (m - 1) * 2 * z % m, (m - 1) * 2 * z % m,
                (m - 1) * (y + x) % m + (m - 1) * (y - x) % m, -2 * x, -(2 * z), -(2 * z), -2 * y);
    FourProductsOf(x, y, z);
  }

  /** Adding to the doubled identity multiplies the coordinates by 4 z. */
  lemma OnceIsFourTimes(c: Curve, b: Point)
    requires c.q > 2 && OnCurve(c, b)
    ensures Multiple(c.q, ScalarMult.ScalarMult(c, b, 1), 4 * b.z, b)
  {
    hide Cong;
    hide Add;
    hide Edwards.Double;
    hide OnCurve;
    var m := c.q;
    DoubledIdentity(c);
    assert ScalarMult.ScalarMult(c, b, 0) == IDENT;
    var s := ScalarMult.ScalarMult(c, b, 1);
    AddToDoubledIdentity(c, b);
    FourTimes(m, b.x, b.y, b.z);
    CurveProduct(c, b);
    CongRefl(4, m);
    CongMul(4, 4, b.x * b.y, b.z * b.t, m);
    Regrouped(b.z, b.t);
    CongTrans(s.t, 4 * (b.x * b.y), 4 * (b.z * b.t), m);
  }

  lemma Regrouped(z: int, t: int)
    ensures 4 * (z * t) == 4 * z * t
  {
  }

  lemma CurveProduct(c: Curve, b: Point)
    requires c.q > 0 && OnCurve(c, b)
    ensures Cong(b.x * b.y, b.z * b.t, c.q)
  {
  }

  lemma DoubledIdentity(c: Curve)
    requires c.q > 2
    ensures Edwards.Double(c, IDENT) == Point(0, c.q - 1, c.q - 1, 0)
  {
    var m := c.q;
    DivisionUnique(0, m, 0, 0);
    DivisionUnique(1, m, 0, 1);
    DivisionUnique(2, m, 0, 2);
    DivisionUnique(-1, m, -1, m - 1);
  }

  lemma AddToDoubledIdentity(c: Curve, b: Point)
    requires c.q > 2
    ensures var m := c.q;
            var e := (m - 1) * (b.y + b.x) % m - (m - 1) * (b.y - b.x) % m;
            var h := (m - 1) * (b.y + b.x) % m + (m - 1) * (b.y - b.x) % m;
            var dd := (m - 1) * 2 * b.z % m;
            Add(c, Point(0, m - 1, m - 1, 0), b) == Point(e * dd % m, dd * h % m, dd * dd % m, e * h % m)
  {
    var m := c.q;
    assert 0 * 2 * c.d * b.t == 0;
    DivisionUnique(0, m, 0, 0);
  }

  lemma FourProductsOf(x: int, y: int, z: int)
    ensures -2 * x * -(2 * z) == 4 * z * x && -(2 * z) * (-2 * y) == 4 * z * y
    ensures -(2 * z) * -(2 * z) == 4 * z * z && -2 * x * (-2 * y) == 4 * (x * y)
  {
  }

  // ----- The factor of entry i -----

  function Factor(z: int, i: nat): int {
    if i == 0 then 4 * z
    else
      var k := Factor(z, i - 1);
      k * k * (k * k)
  }

  /** The coordinates of the scalar multiple by 2^i are a known factor times those of entry i. */
  lemma {:induction false} EntryFactor(c: Curve, b: Point, i: nat)
    requires c.q > 2 && OnCurve(c, b)
    ensures Multiple(c.q, ScalarMult.ScalarMult(c, b, Pow2(i)), Factor(b.z, i), Doubled(c, b, i))
  {
    hide Multiple;
    hide OnCurve;
    hide Edwards.Double;
    if i == 0 {
      OnceIsFourTimes(c, b);
    } else {
      EntryFactor(c, b, i - 1);
      assert Pow2(i) / 2 == Pow2(i - 1) && Pow2(i) % 2 == 0;
      DoubleScales(c, ScalarMult.ScalarMult(c, b, Pow2(i - 1)), Factor(b.z, i - 1), Doubled(c, b, i - 1));
    }
  }

  predicate Reduced(c: Curve, p: Point) {
    0 <= p.x < c.q && 0 <= p.y < c.q && 0 <= p.z < c.q && 0 <= p.t < c.q
  }

  lemma OperationsReduce(c: Curve, p: Point, r: Point)
    requires c.q > 0
    ensures Reduced(c, Edwards.Double(c, p)) && Reduced(c, Add(c, p, r))
  {
  }

  lemma UnitFactor(m: int, x: int, k: int, y: int)
    requires m > 0 && Cong(x, k * y, m) && Cong(k, 1, m)
    ensures Cong(x, y, m)
  {
    hide Cong;
    CongRefl(y, m);
    CongMul(k, 1, y, y, m);
    CongTrans(x, k * y, y, m);
  }

  lemma ReducedEqual(x: int, y: int, m: int)
    requires m > 0 && 0 <= x < m && 0 <= y < m && Cong(x, y, m)
    ensures x == y
  {
    DivisionUnique(x, m, 0, x);
    DivisionUnique(y, m, 0, y);
  }

  lemma MultipleIsEqual(c: Curve, p: Point, k: int, r: Point)
    requires IsPrime(c.q) && !Cong(r.z, 0, c.q)
    requires Multiple(c.q, p, k, r) && Reduced(c, p) && Reduced(c, r)
    ensures p == r <==> Cong(k, 1, c.q)
  {
    hide Cong;
    var m := c.q;
    if Cong(k, 1, m) {
      UnitFactor(m, p.x, k, r.x);
      UnitFactor(m, p.y, k, r.y);
      UnitFactor(m, p.z, k, r.z);
      UnitFactor(m, p.t, k, r.t);
      ReducedEqual(p.x, r.x, m);
      ReducedEqual(p.y, r.y, m);
      ReducedEqual(p.z, r.z, m);
      ReducedEqual(p.t, r.t, m);
    }
    if p == r {
      CongRefl(k * r.z, m);
      BothCong(r.z * 1, r.z * k, k * r.z, m);
      Cancel(r.z, 1, k, m);
      CongRefl(k, m);
      BothCong(k, 1, k, m);
    }
  }

  /** On a good curve, entry i has the coordinates of the scalar multiple by 2^i exactly when the factor is 1. */
  lemma EntriesAgreeIff(c: Curve, b: Point, i: nat)
    requires Good(c) && OnCurve(c, b) && Reduced(c, b)
    ensures ScalarMult.ScalarMult(c, b, Pow2(i)) == Doubled(c, b, i) <==> Cong(Factor(b.z, i), 1, c.q)
  {
    hide Multiple;
    hide Cong;
    hide Good;
    hide OnCurve;
    hide Edwards.Double;
    hide Add;
    PrimeOfGood(c);
    EntryFactor(c, b, i);
    EntryRefines(c, b, i);
    NotAtInfinity(c, Doubled(c, b, i));
    if i > 0 {
      OperationsReduce(c, Doubled(c, b, i - 1), b);
    }
    MultipleReduced(c, b, Pow2(i));
    MultipleIsEqual(c, ScalarMult.ScalarMult(c, b, Pow2(i)), Factor(b.z, i), Doubled(c, b, i));
  }

  lemma NotAtInfinity(c: Curve, p: Point)
    requires c.q > 0 && OnCurve(c, p)
    ensures !Cong(p.z, 0, c.q)
  {
    DivisionUnique(0, c.q, 0, 0);
  }

  lemma MultipleReduced(c: Curve, b: Point, e: nat)
    requires c.q > 1
    ensures Reduced(c, ScalarMult.ScalarMult(c, b, e))
  {
    hide Edwards.Double;
    hide Add;
    if e > 0 {
      var r := ScalarMult.ScalarMult(c, b, e / 2);
      OperationsReduce(c, r, b);
      OperationsReduce(c, Edwards.Double(c, r), b);
    }
  }

  // ----- No entry of Ed25519's table -----

  /** 2 to the power 2^n. */
  function Tower(n: nat): int {
    if n == 0 then 2 else Tower(n - 1) * Tower(n - 1)
  }

  lemma {:induction false} FactorIsTower(i: nat)
    ensures Factor(1, i) == Tower(2 * i + 1)
  {
    if i == 0 {
      assert Tower(1) == Tower(0) * Tower(0);
    } else {
      FactorIsTower(i - 1);
      var k := Tower(2 * i - 1);
      assert Tower(2 * i) == k * k;
    }
  }

  /** No power of 2 whose exponent is a power of 2 is 1 modulo the prime. */
  lemma {:induction false} TowerNotOne(n: nat, p: int)
    requires FiveModEight(p) && p > 16
    ensures !Cong(Tower(n), 1, p)
  {
    if n <= 2 {
      SmallTower(n, p);
    } else {
      TowerNotOne(n - 1, p);
      NextTower(n, p);
    }
  }

  lemma SmallTower(n: nat, p: int)
    requires n <= 2 && p > 16
    ensures !Cong(Tower(n), 1, p)
  {
    assert Tower(1) == Tower(0) * Tower(0) && Tower(2) == Tower(1) * Tower(1);
    DivisionUnique(1, p, 0, 1);
    DivisionUnique(Tower(n), p, 0, Tower(n));
  }

  lemma NextTower(n: nat, p: int)
    requires FiveModEight(p) && n > 2 && !Cong(Tower(n - 1), 1, p)
    ensures !Cong(Tower(n), 1, p)
  {
    hide Cong;
    if Cong(Tower(n), 1, p) {
      RootOfOne(Tower(n - 1), p);
      FourthPowerOfTower(n - 3);
      UnitPower(4);
      hide Tower;
      hide Pow;
      NoFourthRoot(Tower(n - 3), 1, p / 4, p);
      UnitNotZero(p, 1);
    }
  }

  lemma FourthPowerOfTower(n: nat)
    ensures Tower(n + 2) == Pow(Tower(n), 4)
  {
    FourthPower(Tower(n));
    assert Tower(n + 1) == Tower(n) * Tower(n);
  }

  lemma {:induction false} UnitPower(n: nat)
    ensures Pow(1, n) == 1
  {
    if n == 0 {
    } else {
      UnitPower(n - 1);
    }
  }

  /** If q is prime, no entry of the table has the coordinates that the comment beside it promises. */
  lemma NoEntryAgrees(i: nat)
    requires IsPrime(Q)
    ensures ScalarMult.ScalarMult(ED25519, BASE, Pow2(i)) != Doubled(ED25519, BASE, i)
  {
    hide Cong;
    hide OnCurve;
    hide Good;
    hide IsPrime;
    hide Factor;
    hide Tower;
    GoodIfPrime();
    ModulusClass();
    BaseOnCurve();
    BaseReduced();
    EntriesAgreeIff(ED25519, BASE, i);
    FactorIsTower(i);
    TowerNotOne(2 * i + 1, Q);
  }

  lemma BaseReduced()
    ensures Reduced(ED25519, BASE)
  {
  }
}
