/**
 * The polynomials behind the associativity of affine addition: both sides are fractions, and their
 * cross products differ by four monomials in the coordinates, each times a coefficient in the squares
 * of the coordinates, which the curve equations make zero.
 */
module CrossProducts {
  import opened ModArith
  import opened Edwards

  /** What every coefficient comes down to, for squares a and b of coordinates with d a b = t. */
  function Middle(a1: int, b1: int, t1: int, a2: int, b2: int, t2: int, a3: int, b3: int, t3: int): int {
    b2 * (t1 * (1 - (a3 + b3)) - t3 * (1 + (a1 + b1)))
    + (b1 * (a3 + b3 - 1) - a3 * (a1 + b1 + 1))
    + (t2 + (a2 + b2)) * (b1 * t3 + a3 * t1)
  }

  datatype Terms = Terms(t1: int, t2: int, t3: int, s1: int, s2: int, s3: int)

  function PartC(w: Terms, e: int, g: int): int {
    w.t1 * w.t2 - w.t2 * w.t3 + e * (w.t1 * w.t2 * w.s3) - g * (w.t2 * w.t3 * w.s1)
  }
  function PartT(w: Terms, e: int, g: int): int {
    w.s3 + e * (1 - w.t2 * w.t3) - g * (w.t3 * w.s2)
  }
  function PartU(w: Terms, e: int, g: int): int {
    -w.s1 + e * (w.t1 * w.s2) - g * (1 - w.t1 * w.t2)
  }
  function Coefficient(w: Terms, e: int, g: int, ct: int, cu: int): int {
    PartC(w, e, g) + ct * PartT(w, e, -g) + cu * PartU(w, -e, g)
  }

  lemma Inner(t: int, u: int, v: int, w: Terms, e: int, g: int)
    requires t * t == w.t1 * w.t2 && u * u == w.t2 * w.t3 && t * v == w.t1 * u && u * v == w.t3 * t
    ensures var den, den' := 1 - w.t1 * w.t2 + v * w.s2 + u * w.s1, 1 - w.t2 * w.t3 + v * w.s2 + t * w.s3;
            (1 + e * t) * den' - (1 + g * u) * den == PartC(w, e, g) + t * PartT(w, e, g) + u * PartU(w, e, g)
  {
    var p, r := w.t1 * w.t2, w.t2 * w.t3;
    var den, den' := 1 - p + v * w.s2 + u * w.s1, 1 - r + v * w.s2 + t * w.s3;
    assert t * den' == t - t * r + u * (w.t1 * w.s2) + p * w.s3 by {
      assert t * (v * w.s2) == t * v * w.s2 && t * (t * w.s3) == t * t * w.s3;
      assert w.t1 * u * w.s2 == u * (w.t1 * w.s2);
    }
    assert u * den == u - u * p + t * (w.t3 * w.s2) + r * w.s1 by {
      assert u * (v * w.s2) == u * v * w.s2 && u * (u * w.s1) == u * u * w.s1;
      assert w.t3 * t * w.s2 == t * (w.t3 * w.s2);
    }
    Distribute(t, u, v, w, e, g, p, r, den, den');
  }

  lemma Scale(e: int, t: int, r: int, u: int, x: int, k: int)
    ensures e * (t - t * r + u * x + k) == t * (e * (1 - r)) + u * (e * x) + e * k
  {
  }

  lemma Shares(t: int, u: int, w: Terms, e: int, g: int)
    ensures t * PartT(w, e, g) == t * w.s3 + t * (e * (1 - w.t2 * w.t3)) - t * (g * (w.t3 * w.s2))
    ensures u * PartU(w, e, g) == -(u * w.s1) + u * (e * (w.t1 * w.s2)) - u * (g * (1 - w.t1 * w.t2))
  {
  }

  lemma Distribute(t: int, u: int, v: int, w: Terms, e: int, g: int, p: int, r: int, den: int, den': int)
    requires p == w.t1 * w.t2 && r == w.t2 * w.t3
    requires den == 1 - p + v * w.s2 + u * w.s1 && den' == 1 - r + v * w.s2 + t * w.s3
    requires t * den' == t - t * r + u * (w.t1 * w.s2) + p * w.s3
    requires u * den == u - u * p + t * (w.t3 * w.s2) + r * w.s1
    ensures (1 + e * t) * den' - (1 + g * u) * den == PartC(w, e, g) + t * PartT(w, e, g) + u * PartU(w, e, g)
  {
    Scale(e, t, r, u, w.t1 * w.s2, p * w.s3);
    Scale(g, u, p, t, w.t3 * w.s2, r * w.s1);
    Shares(t, u, w, e, g);
    hide PartT;
    hide PartU;
    assert (1 + e * t) * den' == den' + e * (t * den');
    assert (1 + g * u) * den == den + g * (u * den);
  }

  /** The eight products of a monomial and t or u, which are the other monomials times a coefficient. */
  datatype Swaps = Swaps(tab: int, tba: int, tcd: int, tdc: int, uac: int, uca: int, ubd: int, udb: int)

  ghost predicate Swapped(al: int, be: int, ga: int, de: int, t: int, u: int, k: Swaps) {
    && al * t == k.tab * be && be * t == k.tba * al && ga * t == k.tcd * de && de * t == k.tdc * ga
    && al * u == k.uac * ga && ga * u == k.uca * al && be * u == k.ubd * de && de * u == k.udb * be
  }

  lemma MonomialTimes(m: int, t: int, u: int, v: int, w: Terms, e: int, g: int, mt: int, mu: int)
    requires t * t == w.t1 * w.t2 && u * u == w.t2 * w.t3 && t * v == w.t1 * u && u * v == w.t3 * t
    requires m * t == mt && m * u == mu
    ensures var den, den' := 1 - w.t1 * w.t2 + v * w.s2 + u * w.s1, 1 - w.t2 * w.t3 + v * w.s2 + t * w.s3;
            m * (1 + e * t) * den' - m * (1 + g * u) * den
            == m * PartC(w, e, g) + mt * PartT(w, e, g) + mu * PartU(w, e, g)
  {
    var den, den' := 1 - w.t1 * w.t2 + v * w.s2 + u * w.s1, 1 - w.t2 * w.t3 + v * w.s2 + t * w.s3;
    Inner(t, u, v, w, e, g);
    ShareOut(m, t, u, 1 + e * t, den', 1 + g * u, den, PartC(w, e, g), PartT(w, e, g), PartU(w, e, g), mt, mu);
  }

  lemma ShareOut(m: int, t: int, u: int, x: int, den': int, y: int, den: int,
                 pc: int, pt: int, pu: int, mt: int, mu: int)
    requires x * den' - y * den == pc + t * pt + u * pu && m * t == mt && m * u == mu
    ensures m * x * den' - m * y * den == m * pc + mt * pt + mu * pu
  {
    Share(m, t, u, x * den', y * den, pc, pt, pu);
  }

  lemma Share(m: int, t: int, u: int, x: int, y: int, pc: int, pt: int, pu: int)
    requires x - y == pc + t * pt + u * pu
    ensures m * x - m * y == m * pc + m * t * pt + m * u * pu
  {
    assert m * x - m * y == m * (pc + t * pt + u * pu);
  }

  lemma Collect(al: int, be: int, ga: int, de: int, w: Terms, k: Swaps)
    ensures al * PartC(w, -1, 1) + k.tab * be * PartT(w, -1, 1) + k.uac * ga * PartU(w, -1, 1)
            + (be * PartC(w, -1, -1) + k.tba * al * PartT(w, -1, -1) + k.ubd * de * PartU(w, -1, -1))
            + (ga * PartC(w, 1, 1) + k.tcd * de * PartT(w, 1, 1) + k.uca * al * PartU(w, 1, 1))
            + (de * PartC(w, 1, -1) + k.tdc * ga * PartT(w, 1, -1) + k.udb * be * PartU(w, 1, -1))
            == al * Coefficient(w, -1, 1, k.tba, k.uca) + be * Coefficient(w, -1, -1, k.tab, k.udb)
               + ga * Coefficient(w, 1, 1, k.tdc, k.uac) + de * Coefficient(w, 1, -1, k.tcd, k.ubd)
  {
    hide PartC;
    hide PartT;
    hide PartU;
  }

  lemma Combine(al: int, be: int, ga: int, de: int, t: int, u: int, v: int, w: Terms, k: Swaps)
    requires t * t == w.t1 * w.t2 && u * u == w.t2 * w.t3 && t * v == w.t1 * u && u * v == w.t3 * t
    requires Swapped(al, be, ga, de, t, u, k)
    ensures var den, den' := 1 - w.t1 * w.t2 + v * w.s2 + u * w.s1, 1 - w.t2 * w.t3 + v * w.s2 + t * w.s3;
            ((al + be) * (1 - t) + (ga + de) * (1 + t)) * den' - ((al + ga) * (1 + u) + (be + de) * (1 - u)) * den
            == al * Coefficient(w, -1, 1, k.tba, k.uca) + be * Coefficient(w, -1, -1, k.tab, k.udb)
               + ga * Coefficient(w, 1, 1, k.tdc, k.uac) + de * Coefficient(w, 1, -1, k.tcd, k.ubd)
  {
    hide PartC;
    hide PartT;
    hide PartU;
    hide Coefficient;
    MonomialTimes(al, t, u, v, w, -1, 1, k.tab * be, k.uac * ga);
    MonomialTimes(be, t, u, v, w, -1, -1, k.tba * al, k.ubd * de);
    MonomialTimes(ga, t, u, v, w, 1, 1, k.tcd * de, k.uca * al);
    MonomialTimes(de, t, u, v, w, 1, -1, k.tdc * ga, k.udb * be);
    Collect(al, be, ga, de, w, k);
    var den, den' := 1 - w.t1 * w.t2 + v * w.s2 + u * w.s1, 1 - w.t2 * w.t3 + v * w.s2 + t * w.s3;
    Grouping(al, be, ga, de, 1 - t, 1 + t, 1 + u, 1 - u, den, den');
  }

  lemma Grouping(al: int, be: int, ga: int, de: int, tm: int, tp: int, up: int, um: int, den: int, den': int)
    ensures ((al + be) * tm + (ga + de) * tp) * den' - ((al + ga) * up + (be + de) * um) * den
            == (al * tm * den' - al * up * den) + (be * tm * den' - be * um * den)
               + (ga * tp * den' - ga * up * den) + (de * tp * den' - de * um * den)
  {
  }

  /** Each coefficient is a multiple of the middle form, at points whose squares may have traded places. */
  lemma CoefficientA(c: int, a1: int, b1: int, a2: int, b2: int, a3: int, b3: int, t1: int, t3: int)
    ensures var w := Terms(t1, c * b2, t3, a1 + b1, a2 + b2, a3 + b3);
            Coefficient(w, -1, 1, c * b1, c * a3) == c * Middle(a1, b1, t1, a2, b2, c * b2, a3, b3, t3)
  {
    var t2, s1, s2, s3 := c * b2, a1 + b1, a2 + b2, a3 + b3;
    var w, z := Terms(t1, t2, t3, s1, s2, s3), t2 + s2;
    ShareC(c, b2, t1, t3, s1, s3);
    ShareT(c, b1, t2, t3, s2, s3);
    ShareU(c, a3, t1, t2, s1, s2);
    Regrouped(c, b2 * (t1 * (1 - s3) - t3 * (1 + s1)), b1, a3, t1, t3, s1, s3, z);
    assert PartC(w, -1, 1) == t1 * t2 - t2 * t3 - t1 * t2 * s3 - t2 * t3 * s1;
    assert PartT(w, -1, -1) == s3 - (1 - t2 * t3) + t3 * s2;
    assert PartU(w, 1, 1) == -s1 + t1 * s2 - (1 - t1 * t2);
    hide PartC;
    hide PartT;
    hide PartU;
  }

  lemma ShareC(c: int, b2: int, t1: int, t3: int, s1: int, s3: int)
    ensures var t2 := c * b2;
            t1 * t2 - t2 * t3 - t1 * t2 * s3 - t2 * t3 * s1 == c * (b2 * (t1 * (1 - s3) - t3 * (1 + s1)))
  {
    var r := t1 * (1 - s3) - t3 * (1 + s1);
    assert c * b2 * r == c * (b2 * r);
  }

  lemma ShareT(c: int, b1: int, t2: int, t3: int, s2: int, s3: int)
    ensures c * b1 * (s3 - (1 - t2 * t3) + t3 * s2) == c * (b1 * (s3 - 1 + t3 * (t2 + s2)))
  {
    assert s3 - (1 - t2 * t3) + t3 * s2 == s3 - 1 + t3 * (t2 + s2);
    Associated(c, b1, s3 - 1 + t3 * (t2 + s2));
  }

  lemma ShareU(c: int, a3: int, t1: int, t2: int, s1: int, s2: int)
    ensures c * a3 * (-s1 + t1 * s2 - (1 - t1 * t2)) == c * (a3 * (t1 * (t2 + s2) - s1 - 1))
  {
    assert -s1 + t1 * s2 - (1 - t1 * t2) == t1 * (t2 + s2) - s1 - 1;
    Associated(c, a3, t1 * (t2 + s2) - s1 - 1);
  }

  lemma Associated(a: int, b: int, c: int)
    ensures a * b * c == a * (b * c)
  {
  }

  lemma Regrouped(c: int, r: int, b1: int, a3: int, t1: int, t3: int, s1: int, s3: int, z: int)
    ensures c * r + c * (b1 * (s3 - 1 + t3 * z)) + c * (a3 * (t1 * z - s1 - 1))
            == c * (r + (b1 * (s3 - 1) - a3 * (s1 + 1)) + z * (b1 * t3 + a3 * t1))
  {
    var x, y := b1 * (s3 - 1 + t3 * z), a3 * (t1 * z - s1 - 1);
    assert x == b1 * (s3 - 1) + z * (b1 * t3);
    assert y == z * (a3 * t1) - a3 * (s1 + 1);
    assert z * (b1 * t3 + a3 * t1) == z * (b1 * t3) + z * (a3 * t1);
    assert c * r + c * x + c * y == c * (r + x + y);
  }

  lemma CoefficientB(c: int, a1: int, b1: int, a2: int, b2: int, a3: int, b3: int, t1: int, t3: int)
    ensures var w := Terms(t1, c * a2, t3, a1 + b1, a2 + b2, a3 + b3);
            Coefficient(w, -1, -1, c * a1, c * a3) == -c * Middle(-b1, -a1, t1, -b2, -a2, c * a2, a3, b3, t3)
  {
    hide Coefficient;
    hide Middle;
    var w := Terms(t1, c * a2, t3, a1 + b1, a2 + b2, a3 + b3);
    CoefficientA(-c, -b1, -a1, -b2, -a2, a3, b3, t1, t3);
    TradedB(w, c * a1, c * a3);
    assert -c * -a1 == c * a1 && -c * -a2 == c * a2 && -c * a3 == -(c * a3);
    assert Terms(t1, c * a2, t3, -b1 + -a1, -b2 + -a2, a3 + b3) == w.(s1 := -w.s1, s2 := -w.s2);
  }

  lemma CoefficientC(c: int, a1: int, b1: int, a2: int, b2: int, a3: int, b3: int, t1: int, t3: int)
    ensures var w := Terms(t1, c * a2, t3, a1 + b1, a2 + b2, a3 + b3);
            Coefficient(w, 1, 1, c * b1, c * b3) == -c * Middle(a1, b1, t1, -b2, -a2, c * a2, -b3, -a3, t3)
  {
    hide Coefficient;
    hide Middle;
    var w := Terms(t1, c * a2, t3, a1 + b1, a2 + b2, a3 + b3);
    CoefficientA(-c, a1, b1, -b2, -a2, -b3, -a3, t1, t3);
    TradedC(w, c * b1, c * b3);
    assert -c * -a2 == c * a2 && -c * b1 == -(c * b1) && -c * -b3 == c * b3;
    assert Terms(t1, c * a2, t3, a1 + b1, -b2 + -a2, -b3 + -a3) == w.(s2 := -w.s2, s3 := -w.s3);
  }

  lemma CoefficientD(c: int, a1: int, b1: int, a2: int, b2: int, a3: int, b3: int, t1: int, t3: int)
    ensures var w := Terms(t1, c * b2, t3, a1 + b1, a2 + b2, a3 + b3);
            Coefficient(w, 1, -1, c * a1, c * b3) == c * Middle(-b1, -a1, t1, a2, b2, c * b2, -b3, -a3, t3)
  {
    hide Coefficient;
    hide Middle;
    var w := Terms(t1, c * b2, t3, a1 + b1, a2 + b2, a3 + b3);
    CoefficientA(c, -b1, -a1, a2, b2, -b3, -a3, t1, t3);
    TradedD(w, c * a1, c * b3);
    assert c * -a1 == -(c * a1) && c * -b3 == -(c * b3);
    assert Terms(t1, c * b2, t3, -b1 + -a1, a2 + b2, -b3 + -a3) == w.(s1 := -w.s1, s3 := -w.s3);
  }

  lemma TradedB(w: Terms, ct: int, cu: int)
    ensures Coefficient(w, -1, -1, ct, cu) == Coefficient(w.(s1 := -w.s1, s2 := -w.s2), -1, 1, ct, -cu)
  {
  }

  lemma TradedC(w: Terms, ct: int, cu: int)
    ensures Coefficient(w, 1, 1, ct, cu) == Coefficient(w.(s2 := -w.s2, s3 := -w.s3), -1, 1, -ct, cu)
  {
  }

  lemma TradedD(w: Terms, ct: int, cu: int)
    ensures Coefficient(w, 1, -1, ct, cu) == Coefficient(w.(s1 := -w.s1, s3 := -w.s3), -1, 1, -ct, -cu)
  {
  }

  // ----- The coefficients are zero on the curve -----

  lemma MiddleZero(a1: int, b1: int, a2: int, b2: int, a3: int, b3: int)
    ensures Middle(a1, b1, b1 - a1 - 1, a2, b2, b2 - a2 - 1, a3, b3, b3 - a3 - 1) == 0
  {
    var t1, t3, k := b1 - a1 - 1, b3 - a3 - 1, b1 * b3 - b1 - a3 - a1 * a3;
    FirstPart(a1, b1, a3, b3);
    assert b1 * (a3 + b3 - 1) - a3 * (a1 + b1 + 1) == k;
    assert b1 * t3 + a3 * t1 == k;
    assert b2 * (-2 * k) + k + (2 * b2 - 1) * k == 0;
  }

  lemma FirstPart(a1: int, b1: int, a3: int, b3: int)
    ensures (b1 - a1 - 1) * (1 - (a3 + b3)) - (b3 - a3 - 1) * (1 + (a1 + b1)) == -2 * (b1 * b3 - b1 - a3 - a1 * a3)
  {
  }

  lemma MiddleCong(m: int, a1: int, b1: int, t1: int, w1: int, a2: int, b2: int, t2: int, w2: int,
                   a3: int, b3: int, t3: int, w3: int)
    requires m > 0 && Cong(t1, w1, m) && Cong(t2, w2, m) && Cong(t3, w3, m)
    ensures Cong(Middle(a1, b1, t1, a2, b2, t2, a3, b3, t3), Middle(a1, b1, w1, a2, b2, w2, a3, b3, w3), m)
  {
    hide Cong;
    var s1, s2, s3 := a1 + b1, a2 + b2, a3 + b3;
    var k := b1 * (a3 + b3 - 1) - a3 * (a1 + b1 + 1);
    CongTimes(t1, w1, 1 - s3, m);
    CongTimes(t3, w3, 1 + s1, m);
    CongSub(t1 * (1 - s3), w1 * (1 - s3), t3 * (1 + s1), w3 * (1 + s1), m);
    CongRefl(b2, m);
    CongMul(b2, b2, t1 * (1 - s3) - t3 * (1 + s1), w1 * (1 - s3) - w3 * (1 + s1), m);
    CongRefl(b1, m);
    CongMul(b1, b1, t3, w3, m);
    CongRefl(a3, m);
    CongMul(a3, a3, t1, w1, m);
    CongAdd(b1 * t3, b1 * w3, a3 * t1, a3 * w1, m);
    CongRefl(s2, m);
    CongAdd(t2, w2, s2, s2, m);
    CongMul(t2 + s2, w2 + s2, b1 * t3 + a3 * t1, b1 * w3 + a3 * w1, m);
    CongRefl(k, m);
    var x, y := b2 * (t1 * (1 - s3) - t3 * (1 + s1)), b2 * (w1 * (1 - s3) - w3 * (1 + s1));
    CongAdd(x, y, k, k, m);
    CongAdd(x + k, y + k, (t2 + s2) * (b1 * t3 + a3 * t1), (w2 + s2) * (b1 * w3 + a3 * w1), m);
  }

  /** Squares a and b of coordinates with d a b = t: the curve equation in these terms. */
  ghost predicate Squares(m: int, a: int, b: int, t: int)
    requires m > 0
  {
    Cong(t, b - a - 1, m)
  }

  lemma MiddleVanishes(m: int, a1: int, b1: int, t1: int, a2: int, b2: int, t2: int, a3: int, b3: int, t3: int)
    requires m > 0 && Squares(m, a1, b1, t1) && Squares(m, a2, b2, t2) && Squares(m, a3, b3, t3)
    ensures Cong(Middle(a1, b1, t1, a2, b2, t2, a3, b3, t3), 0, m)
  {
    hide Middle;
    MiddleCong(m, a1, b1, t1, b1 - a1 - 1, a2, b2, t2, b2 - a2 - 1, a3, b3, t3, b3 - a3 - 1);
    MiddleZero(a1, b1, a2, b2, a3, b3);
  }

  lemma MultipleVanishes(c: int, x: int, m: int)
    requires m > 0 && Cong(x, 0, m)
    ensures Cong(c * x, 0, m) && Cong(-c * x, 0, m)
  {
    CongRefl(c, m);
    CongMul(c, c, x, 0, m);
    CongRefl(-c, m);
    CongMul(-c, -c, x, 0, m);
  }

  // ----- The fractions of a double sum -----

  /** Numerators and denominators of (P + Q) + R, where l has those of P + Q and R = (x, y). */
  function NumX(l: Law, x: int, y: int): int {
    l.n1 * l.d2 * y + x * (l.n2 * l.d1)
  }

  function NumY(l: Law, x: int, y: int): int {
    l.n2 * l.d1 * y + l.n1 * l.d2 * x
  }

  function DenX(d: int, l: Law, x: int, y: int): int {
    l.d1 * l.d2 + d * l.n1 * l.n2 * x * y
  }

  function DenY(d: int, l: Law, x: int, y: int): int {
    l.d1 * l.d2 - d * l.n1 * l.n2 * x * y
  }

  lemma NumeratorForms(d: int, x1: int, y1: int, x2: int, y2: int, x3: int, y3: int)
    ensures var l, t := LawOf(d, 1, 1, x1, y1, x2, y2), d * x1 * x2 * y1 * y2;
            && NumX(l, x3, y3)
               == (x1 * y2 * y3 + y1 * x2 * y3) * (1 - t) + (x1 * x2 * x3 + y1 * y2 * x3) * (1 + t)
            && NumY(l, x3, y3)
               == (x1 * y2 * x3 + y1 * x2 * x3) * (1 - t) + (x1 * x2 * y3 + y1 * y2 * y3) * (1 + t)
  {
    var t := d * x1 * x2 * y1 * y2;
    Factored(x1 * y2, x2 * y1, 1 - t, y3);
    Factored(y1 * y2, x1 * x2, 1 + t, x3);
    Factored(x1 * y2, x2 * y1, 1 - t, x3);
    Factored(y1 * y2, x1 * x2, 1 + t, y3);
  }

  lemma Factored(a: int, b: int, c: int, z: int)
    ensures (a + b) * c * z == (a * z + b * z) * c
    ensures z * ((a + b) * c) == (a * z + b * z) * c
  {
  }

  lemma DenominatorForms(d: int, x1: int, y1: int, x2: int, y2: int, x3: int, y3: int)
    ensures var l := LawOf(d, 1, 1, x1, y1, x2, y2);
            var tt := d * (x1 * x1) * (y1 * y1) * (d * (x2 * x2) * (y2 * y2));
            var e := d * x1 * y1 * x3 * y3 * (x2 * x2 + y2 * y2) + d * x2 * y2 * x3 * y3 * (x1 * x1 + y1 * y1);
            DenX(d, l, x3, y3) == 1 - tt + e && DenY(d, l, x3, y3) == 1 - tt - e
  {
    SquareOfT(d, x1, y1, x2, y2);
    CrossProduct(d, x1, y1, x2, y2, x3, y3);
  }

  lemma SquareOfT(d: int, x1: int, y1: int, x2: int, y2: int)
    ensures var t := d * x1 * x2 * y1 * y2;
            (1 + t) * (1 - t) == 1 - d * (x1 * x1) * (y1 * y1) * (d * (x2 * x2) * (y2 * y2))
  {
    var t := d * x1 * x2 * y1 * y2;
    assert (1 + t) * (1 - t) == 1 - t * t;
    assert t * t == d * (x1 * x1) * (y1 * y1) * (d * (x2 * x2) * (y2 * y2));
  }

  lemma CrossProduct(d: int, x1: int, y1: int, x2: int, y2: int, x3: int, y3: int)
    ensures d * (x1 * y2 + x2 * y1) * (y1 * y2 + x1 * x2) * x3 * y3
            == d * x1 * y1 * x3 * y3 * (x2 * x2 + y2 * y2) + d * x2 * y2 * x3 * y3 * (x1 * x1 + y1 * y1)
  {
    var n1, n2, f := x1 * y2 + x2 * y1, y1 * y2 + x1 * x2, d * x3 * y3;
    FiveFactors(d, n1, n2, x3, y3);
    CrossTerms(x1, y1, x2, y2);
    TwoShares(f, x1 * y1, x2 * x2 + y2 * y2, x2 * y2, x1 * x1 + y1 * y1);
    FiveFactors(d, x1, y1, x3, y3);
    FiveFactors(d, x2, y2, x3, y3);
  }

  lemma FiveFactors(d: int, a: int, b: int, x: int, y: int)
    ensures d * a * b * x * y == d * x * y * (a * b)
  {
  }

  lemma CrossTerms(x1: int, y1: int, x2: int, y2: int)
    ensures (x1 * y2 + x2 * y1) * (y1 * y2 + x1 * x2) == x1 * y1 * (x2 * x2 + y2 * y2) + x2 * y2 * (x1 * x1 + y1 * y1)
  {
  }

  lemma TwoShares(f: int, a: int, b: int, c: int, e: int)
    ensures f * (a * b + c * e) == f * a * b + f * c * e
  {
  }

  // ----- The cross products agree -----

  /** num den' - num' den for the fractions in terms of the four monomials. */
  function Cross(al: int, be: int, ga: int, de: int, t: int, u: int, v: int, w: Terms): int {
    var den, den' := 1 - w.t1 * w.t2 + v * w.s2 + u * w.s1, 1 - w.t2 * w.t3 + v * w.s2 + t * w.s3;
    ((al + be) * (1 - t) + (ga + de) * (1 + t)) * den' - ((al + ga) * (1 + u) + (be + de) * (1 - u)) * den
  }

  /** The coefficients of the swaps, where e = d a2 and f = d b2. */
  function SwapsOf(e: int, f: int, a1: int, b1: int, a3: int, b3: int): Swaps {
    Swaps(f * a1, e * b1, e * a1, f * b1, f * b3, e * a3, e * b3, f * a3)
  }

  lemma CrossVanishes(m: int, e: int, f: int, a1: int, b1: int, t1: int, a2: int, b2: int, t2: int,
                      a3: int, b3: int, t3: int, al: int, be: int, ga: int, de: int, t: int, u: int, v: int)
    requires m > 0 && Squares(m, a1, b1, t1) && Squares(m, a2, b2, t2) && Squares(m, a3, b3, t3)
    requires t2 == e * b2 && t2 == f * a2
    requires t * t == t1 * t2 && u * u == t2 * t3 && t * v == t1 * u && u * v == t3 * t
    requires Swapped(al, be, ga, de, t, u, SwapsOf(e, f, a1, b1, a3, b3))
    ensures Cong(Cross(al, be, ga, de, t, u, v, Terms(t1, t2, t3, a1 + b1, a2 + b2, a3 + b3)), 0, m)
  {
    hide Cong;
    hide Coefficient;
    hide Swapped;
    hide Middle;
    var w, k := Terms(t1, t2, t3, a1 + b1, a2 + b2, a3 + b3), SwapsOf(e, f, a1, b1, a3, b3);
    Combine(al, be, ga, de, t, u, v, w, k);
    CoefficientA(e, a1, b1, a2, b2, a3, b3, t1, t3);
    CoefficientB(f, a1, b1, a2, b2, a3, b3, t1, t3);
    CoefficientC(f, a1, b1, a2, b2, a3, b3, t1, t3);
    CoefficientD(e, a1, b1, a2, b2, a3, b3, t1, t3);
    AllMiddlesVanish(m, a1, b1, t1, a2, b2, t2, a3, b3, t3);
    MultipleVanishes(e, Middle(a1, b1, t1, a2, b2, t2, a3, b3, t3), m);
    MultipleVanishes(f, Middle(-b1, -a1, t1, -b2, -a2, t2, a3, b3, t3), m);
    MultipleVanishes(f, Middle(a1, b1, t1, -b2, -a2, t2, -b3, -a3, t3), m);
    MultipleVanishes(e, Middle(-b1, -a1, t1, a2, b2, t2, -b3, -a3, t3), m);
    SumVanishes(m, al, be, ga, de, Coefficient(w, -1, 1, k.tba, k.uca), Coefficient(w, -1, -1, k.tab, k.udb),
                Coefficient(w, 1, 1, k.tdc, k.uac), Coefficient(w, 1, -1, k.tcd, k.ubd));
  }

  lemma AllMiddlesVanish(m: int, a1: int, b1: int, t1: int, a2: int, b2: int, t2: int, a3: int, b3: int, t3: int)
    requires m > 0 && Squares(m, a1, b1, t1) && Squares(m, a2, b2, t2) && Squares(m, a3, b3, t3)
    ensures Cong(Middle(a1, b1, t1, a2, b2, t2, a3, b3, t3), 0, m)
    ensures Cong(Middle(-b1, -a1, t1, -b2, -a2, t2, a3, b3, t3), 0, m)
    ensures Cong(Middle(a1, b1, t1, -b2, -a2, t2, -b3, -a3, t3), 0, m)
    ensures Cong(Middle(-b1, -a1, t1, a2, b2, t2, -b3, -a3, t3), 0, m)
  {
    hide Cong;
    hide Middle;
    assert -a1 - -b1 - 1 == b1 - a1 - 1 && -a2 - -b2 - 1 == b2 - a2 - 1 && -a3 - -b3 - 1 == b3 - a3 - 1;
    MiddleVanishes(m, a1, b1, t1, a2, b2, t2, a3, b3, t3);
    MiddleVanishes(m, -b1, -a1, t1, -b2, -a2, t2, a3, b3, t3);
    MiddleVanishes(m, a1, b1, t1, -b2, -a2, t2, -b3, -a3, t3);
    MiddleVanishes(m, -b1, -a1, t1, a2, b2, t2, -b3, -a3, t3);
  }

  lemma SumVanishes(m: int, al: int, be: int, ga: int, de: int, p: int, q: int, r: int, s: int)
    requires m > 0 && Cong(p, 0, m) && Cong(q, 0, m) && Cong(r, 0, m) && Cong(s, 0, m)
    ensures Cong(al * p + be * q + ga * r + de * s, 0, m)
  {
    hide Cong;
    MultipleVanishes(al, p, m);
    MultipleVanishes(be, q, m);
    MultipleVanishes(ga, r, m);
    MultipleVanishes(de, s, m);
    CongAdd(al * p, 0, be * q, 0, m);
    CongAdd(al * p + be * q, 0, ga * r, 0, m);
    CongAdd(al * p + be * q + ga * r, 0, de * s, 0, m);
  }

  lemma SquaresOf(m: int, d: int, x: int, y: int)
    requires m > 0 && Cong(Equation(d, x, y), 0, m)
    ensures Squares(m, x * x, y * y, d * (x * x) * (y * y))
    ensures Squares(m, -(y * y), -(x * x), d * (x * x) * (y * y))
  {
    var a, b := x * x, y * y;
    var t := d * a * b;
    assert Equation(d, x, y) == b - a - 1 - t;
    CongRefl(t, m);
    hide Cong;
    CongAdd(b - a - 1 - t, 0, t, t, m);
    CongSymm(b - a - 1, t, m);
    assert -a - -b - 1 == b - a - 1;
  }

  lemma Products(d: int, x1: int, y1: int, x2: int, y2: int)
    ensures d * x1 * x2 * y1 * y2 == d * (x1 * y2) * (y1 * x2)
    ensures d * x1 * x2 * y1 * y2 == d * (y1 * x2) * (x1 * y2)
    ensures d * x1 * x2 * y1 * y2 == d * (x1 * x2) * (y1 * y2)
    ensures d * x1 * x2 * y1 * y2 == d * (y1 * y2) * (x1 * x2)
  {
  }

  /** A product of three coordinates and t takes the other coordinates of the first two points. */
  lemma SwapFirst(d: int, a: int, b: int, c: int, e: int, z: int, t: int)
    requires t == d * (a * b) * (c * e)
    ensures a * b * z * t == d * (b * b) * (a * a) * (c * e * z)
  {
    var p, q := a * b, c * e;
    assert p * z * (d * p * q) == d * (p * p) * (q * z);
    assert p * p == b * b * (a * a);
  }

  /** And one with u those of the last two. */
  lemma SwapLast(d: int, a: int, b: int, c: int, e: int, z: int, u: int)
    requires u == d * (a * b) * (c * e)
    ensures z * b * a * u == d * (b * b) * (a * a) * (z * e * c)
  {
    var p, q := a * b, c * e;
    assert z * b * a == p * z && z * e * c == q * z;
    assert p * z * (d * p * q) == d * (p * p) * (q * z);
    assert p * p == b * b * (a * a);
  }

  lemma SwapsT(d: int, x1: int, y1: int, x2: int, y2: int, z: int)
    ensures x1 * y2 * z * (d * x1 * x2 * y1 * y2) == d * (y2 * y2) * (x1 * x1) * (y1 * x2 * z)
    ensures x1 * x2 * z * (d * x1 * x2 * y1 * y2) == d * (x2 * x2) * (x1 * x1) * (y1 * y2 * z)
  {
    var t := d * x1 * x2 * y1 * y2;
    Products(d, x1, y1, x2, y2);
    SwapFirst(d, x1, y2, y1, x2, z, t);
    SwapFirst(d, x1, x2, y1, y2, z, t);
  }

  lemma SwapsT'(d: int, x1: int, y1: int, x2: int, y2: int, z: int)
    ensures y1 * x2 * z * (d * x1 * x2 * y1 * y2) == d * (x2 * x2) * (y1 * y1) * (x1 * y2 * z)
    ensures y1 * y2 * z * (d * x1 * x2 * y1 * y2) == d * (y2 * y2) * (y1 * y1) * (x1 * x2 * z)
  {
    var t := d * x1 * x2 * y1 * y2;
    Products(d, x1, y1, x2, y2);
    SwapFirst(d, y1, x2, x1, y2, z, t);
    SwapFirst(d, y1, y2, x1, x2, z, t);
  }

  lemma SwapsU(d: int, x2: int, y2: int, x3: int, y3: int, z: int)
    ensures z * y2 * y3 * (d * x2 * x3 * y2 * y3) == d * (y2 * y2) * (y3 * y3) * (z * x2 * x3)
    ensures z * x2 * y3 * (d * x2 * x3 * y2 * y3) == d * (x2 * x2) * (y3 * y3) * (z * y2 * x3)
  {
    var u := d * x2 * x3 * y2 * y3;
    Products(d, x2, y2, x3, y3);
    assert u == d * (y3 * y2) * (x3 * x2) && u == d * (y3 * x2) * (x3 * y2);
    SwapLast(d, y3, y2, x3, x2, z, u);
    SwapLast(d, y3, x2, x3, y2, z, u);
  }

  lemma SwapsU'(d: int, x2: int, y2: int, x3: int, y3: int, z: int)
    ensures z * x2 * x3 * (d * x2 * x3 * y2 * y3) == d * (x2 * x2) * (x3 * x3) * (z * y2 * y3)
    ensures z * y2 * x3 * (d * x2 * x3 * y2 * y3) == d * (y2 * y2) * (x3 * x3) * (z * x2 * y3)
  {
    var u := d * x2 * x3 * y2 * y3;
    Products(d, x2, y2, x3, y3);
    assert u == d * (x3 * x2) * (y3 * y2) && u == d * (x3 * y2) * (y3 * x2);
    SwapLast(d, x3, x2, y3, y2, z, u);
    SwapLast(d, x3, y2, y3, x2, z, u);
  }

  lemma SwapX(d: int, x1: int, y1: int, x2: int, y2: int, x3: int, y3: int)
    ensures Swapped(x1 * y2 * y3, y1 * x2 * y3, x1 * x2 * x3, y1 * y2 * x3,
                    d * x1 * x2 * y1 * y2, d * x2 * x3 * y2 * y3,
                    SwapsOf(d * (x2 * x2), d * (y2 * y2), x1 * x1, y1 * y1, x3 * x3, y3 * y3))
  {
    SwapsT(d, x1, y1, x2, y2, y3);
    SwapsT(d, x1, y1, x2, y2, x3);
    SwapsT'(d, x1, y1, x2, y2, y3);
    SwapsT'(d, x1, y1, x2, y2, x3);
    SwapsU(d, x2, y2, x3, y3, x1);
    SwapsU(d, x2, y2, x3, y3, y1);
    SwapsU'(d, x2, y2, x3, y3, x1);
    SwapsU'(d, x2, y2, x3, y3, y1);
  }

  lemma SwapY(d: int, x1: int, y1: int, x2: int, y2: int, x3: int, y3: int)
    ensures Swapped(x1 * y2 * x3, y1 * x2 * x3, x1 * x2 * y3, y1 * y2 * y3,
                    d * x1 * x2 * y1 * y2, -(d * x2 * x3 * y2 * y3),
                    SwapsOf(d * (x2 * x2), d * (y2 * y2), x1 * x1, y1 * y1, -(y3 * y3), -(x3 * x3)))
  {
    SwapX(d, x1, y1, x2, y2, y3, x3);
    var e, f, u := d * (x2 * x2), d * (y2 * y2), d * x2 * x3 * y2 * y3;
    assert u == d * x2 * y3 * y2 * x3;
    NegatedSwap(x1 * y2 * x3, x1 * x2 * y3, f, x3 * x3, u);
    NegatedSwap(x1 * x2 * y3, x1 * y2 * x3, e, y3 * y3, u);
    NegatedSwap(y1 * x2 * x3, y1 * y2 * y3, e, x3 * x3, u);
    NegatedSwap(y1 * y2 * y3, y1 * x2 * x3, f, y3 * y3, u);
  }

  lemma NegatedSwap(p: int, q: int, e: int, a: int, u: int)
    requires p * u == e * a * q
    ensures p * -u == e * -a * q
  {
    assert e * -a == -(e * a);
  }

  lemma Permuted(d: int, x1: int, y1: int, x2: int, y2: int, x3: int, y3: int)
    ensures var t, u, v := d * x1 * x2 * y1 * y2, d * x2 * x3 * y2 * y3, d * x1 * y1 * x3 * y3;
            var t1, t2, t3 := d * (x1 * x1) * (y1 * y1), d * (x2 * x2) * (y2 * y2), d * (x3 * x3) * (y3 * y3);
            && t * t == t1 * t2 && u * u == t2 * t3 && t * v == t1 * u && u * v == t3 * t
            && t2 == d * (y2 * y2) * (x2 * x2)
  {
    SquaredPair(d, x1, y1);
    SquaredPair(d, x2, y2);
    SquaredPair(d, x3, y3);
    Paired(d, x1, y1, x2, y2);
    Paired(d, x2, y2, x3, y3);
    PairedInOrder(d, x1, y1, x3, y3);
    PermutedPairs(d, x1 * y1, x2 * y2, x3 * y3, d * x1 * x2 * y1 * y2, d * x2 * x3 * y2 * y3, d * x1 * y1 * x3 * y3,
                  d * (x1 * x1) * (y1 * y1), d * (x2 * x2) * (y2 * y2), d * (x3 * x3) * (y3 * y3));
  }

  lemma PermutedPairs(d: int, p: int, q: int, r: int, t: int, u: int, v: int, t1: int, t2: int, t3: int)
    requires t == d * (p * q) && u == d * (q * r) && v == d * (p * r)
    requires t1 == d * (p * p) && t2 == d * (q * q) && t3 == d * (r * r)
    ensures t * t == t1 * t2 && u * u == t2 * t3 && t * v == t1 * u && u * v == t3 * t
  {
    SharedFactor(d, p, q, q);
    SharedFactor(d, q, r, r);
    SharedFactor(d, p, q, r);
    SharedFactor(d, r, q, p);
    assert r * q == q * r && r * p == p * r && q * p == p * q;
  }

  lemma PairedInOrder(d: int, x: int, y: int, u: int, v: int)
    ensures d * x * y * u * v == d * (x * y * (u * v))
  {
  }

  lemma SquaredPair(d: int, x: int, y: int)
    ensures d * (x * x) * (y * y) == d * (x * y * (x * y)) && d * (y * y) * (x * x) == d * (x * y * (x * y))
  {
  }

  lemma Paired(d: int, x: int, y: int, u: int, v: int)
    ensures d * x * u * y * v == d * (x * y * (u * v))
  {
  }

  lemma SharedFactor(d: int, p: int, q: int, r: int)
    ensures d * (p * q) * (d * (p * r)) == d * (p * p) * (d * (q * r))
  {
  }

  lemma CrossX(m: int, d: int, x1: int, y1: int, x2: int, y2: int, x3: int, y3: int)
    requires m > 0 && Cong(Equation(d, x1, y1), 0, m) && Cong(Equation(d, x2, y2), 0, m)
    requires Cong(Equation(d, x3, y3), 0, m)
    ensures var l, r := LawOf(d, 1, 1, x1, y1, x2, y2), LawOf(d, 1, 1, x2, y2, x3, y3);
            Cong(NumX(l, x3, y3) * DenX(d, r, x1, y1) - NumX(r, x1, y1) * DenX(d, l, x3, y3), 0, m)
  {
    hide Cong;
    hide Swapped;
    hide Squares;
    var a1, b1, a2, b2, a3, b3 := x1 * x1, y1 * y1, x2 * x2, y2 * y2, x3 * x3, y3 * y3;
    var t, u, v := d * x1 * x2 * y1 * y2, d * x2 * x3 * y2 * y3, d * x1 * y1 * x3 * y3;
    SquaresOf(m, d, x1, y1);
    SquaresOf(m, d, x2, y2);
    SquaresOf(m, d, x3, y3);
    Permuted(d, x1, y1, x2, y2, x3, y3);
    SwapX(d, x1, y1, x2, y2, x3, y3);
    CrossVanishes(m, d * a2, d * b2, a1, b1, d * a1 * b1, a2, b2, d * a2 * b2, a3, b3, d * a3 * b3,
                  x1 * y2 * y3, y1 * x2 * y3, x1 * x2 * x3, y1 * y2 * x3, t, u, v);
    hide Equation;
    IsCrossX(d, x1, y1, x2, y2, x3, y3);
  }

  lemma IsCrossX(d: int, x1: int, y1: int, x2: int, y2: int, x3: int, y3: int)
    ensures var l, r := LawOf(d, 1, 1, x1, y1, x2, y2), LawOf(d, 1, 1, x2, y2, x3, y3);
            var w := TermsOf(d, x1, y1, x2, y2, x3, y3);
            NumX(l, x3, y3) * DenX(d, r, x1, y1) - NumX(r, x1, y1) * DenX(d, l, x3, y3)
            == Cross(x1 * y2 * y3, y1 * x2 * y3, x1 * x2 * x3, y1 * y2 * x3,
                     d * x1 * x2 * y1 * y2, d * x2 * x3 * y2 * y3, d * x1 * y1 * x3 * y3, w)
  {
    hide LawOf;
    hide NumX;
    hide DenX;
    NumeratorForms(d, x1, y1, x2, y2, x3, y3);
    NumeratorForms(d, x2, y2, x3, y3, x1, y1);
    DenominatorForms(d, x1, y1, x2, y2, x3, y3);
    DenominatorForms(d, x2, y2, x3, y3, x1, y1);
    Rotated(d, x1, y1, x2, y2, x3, y3);
  }

  function TermsOf(d: int, x1: int, y1: int, x2: int, y2: int, x3: int, y3: int): Terms {
    Terms(d * (x1 * x1) * (y1 * y1), d * (x2 * x2) * (y2 * y2), d * (x3 * x3) * (y3 * y3),
          x1 * x1 + y1 * y1, x2 * x2 + y2 * y2, x3 * x3 + y3 * y3)
  }

  /** The same products with the points in the order 2, 3, 1. */
  lemma Rotated(d: int, x1: int, y1: int, x2: int, y2: int, x3: int, y3: int)
    ensures x2 * y3 * y1 == y1 * x2 * y3 && y2 * x3 * y1 == y1 * y2 * x3
    ensures x2 * x3 * x1 == x1 * x2 * x3 && y2 * y3 * x1 == x1 * y2 * y3
    ensures x2 * y3 * x1 == x1 * x2 * y3 && y2 * x3 * x1 == x1 * y2 * x3
    ensures x2 * x3 * y1 == y1 * x2 * x3 && y2 * y3 * y1 == y1 * y2 * y3
    ensures d * x2 * y2 * x1 * y1 == d * x1 * x2 * y1 * y2
    ensures d * x3 * y3 * x1 * y1 == d * x1 * y1 * x3 * y3
    ensures d * x2 * y2 * x3 * y3 == d * x2 * x3 * y2 * y3
  {
    RotatedFactors(x2, y3, y1);
    RotatedFactors(y2, x3, y1);
    RotatedFactors(x2, x3, x1);
    RotatedFactors(y2, y3, x1);
    RotatedFactors(x2, y3, x1);
    RotatedFactors(y2, x3, x1);
    RotatedFactors(x2, x3, y1);
    RotatedFactors(y2, y3, y1);
    PairsTraded(d, x2, y2, x1, y1);
    PairsTraded(d, x3, y3, x1, y1);
    PairsTraded(d, x2, y2, x3, y3);
  }

  lemma RotatedFactors(a: int, b: int, c: int)
    ensures a * b * c == c * a * b
  {
  }

  lemma PairsTraded(d: int, x: int, y: int, u: int, v: int)
    ensures d * x * y * u * v == d * u * x * v * y == d * u * v * x * y == d * x * u * y * v
  {
    PairedInOrder(d, x, y, u, v);
    PairedInOrder(d, u, v, x, y);
    Paired(d, x, y, u, v);
    Paired(d, u, v, x, y);
    assert x * y * (u * v) == u * v * (x * y);
  }

  lemma CrossY(m: int, d: int, x1: int, y1: int, x2: int, y2: int, x3: int, y3: int)
    requires m > 0 && Cong(Equation(d, x1, y1), 0, m) && Cong(Equation(d, x2, y2), 0, m)
    requires Cong(Equation(d, x3, y3), 0, m)
    ensures var l, r := LawOf(d, 1, 1, x1, y1, x2, y2), LawOf(d, 1, 1, x2, y2, x3, y3);
            Cong(NumY(l, x3, y3) * DenY(d, r, x1, y1) - NumY(r, x1, y1) * DenY(d, l, x3, y3), 0, m)
  {
    hide Cong;
    hide Swapped;
    hide Squares;
    var a1, b1, a2, b2, a3, b3 := x1 * x1, y1 * y1, x2 * x2, y2 * y2, -(y3 * y3), -(x3 * x3);
    var t, u, v := d * x1 * x2 * y1 * y2, -(d * x2 * x3 * y2 * y3), -(d * x1 * y1 * x3 * y3);
    var t1, t2, t3 := d * a1 * b1, d * a2 * b2, d * (x3 * x3) * (y3 * y3);
    SquaresOf(m, d, x1, y1);
    SquaresOf(m, d, x2, y2);
    SquaresOf(m, d, x3, y3);
    Permuted(d, x1, y1, x2, y2, x3, y3);
    NegatedPermuted(t, -u, -v, t1, t2, t3);
    SwapY(d, x1, y1, x2, y2, x3, y3);
    CrossVanishes(m, d * a2, d * b2, a1, b1, t1, a2, b2, t2, a3, b3, t3,
                  x1 * y2 * x3, y1 * x2 * x3, x1 * x2 * y3, y1 * y2 * y3, t, u, v);
    hide Equation;
    IsCrossY(d, x1, y1, x2, y2, x3, y3);
    assert a3 + b3 == -(x3 * x3 + y3 * y3);
  }

  lemma NegatedPermuted(t: int, u: int, v: int, t1: int, t2: int, t3: int)
    requires t * t == t1 * t2 && u * u == t2 * t3 && t * v == t1 * u && u * v == t3 * t
    ensures -u * -u == t2 * t3 && t * -v == t1 * -u && -u * -v == t3 * t
  {
  }

  lemma IsCrossY(d: int, x1: int, y1: int, x2: int, y2: int, x3: int, y3: int)
    ensures var l, r := LawOf(d, 1, 1, x1, y1, x2, y2), LawOf(d, 1, 1, x2, y2, x3, y3);
            var w := TermsOf(d, x1, y1, x2, y2, x3, y3);
            NumY(l, x3, y3) * DenY(d, r, x1, y1) - NumY(r, x1, y1) * DenY(d, l, x3, y3)
            == Cross(x1 * y2 * x3, y1 * x2 * x3, x1 * x2 * y3, y1 * y2 * y3,
                     d * x1 * x2 * y1 * y2, -(d * x2 * x3 * y2 * y3), -(d * x1 * y1 * x3 * y3), w.(s3 := -w.s3))
  {
    hide LawOf;
    hide NumY;
    hide DenY;
    NumeratorForms(d, x1, y1, x2, y2, x3, y3);
    NumeratorForms(d, x2, y2, x3, y3, x1, y1);
    NegatedDenominators(d, x1, y1, x2, y2, x3, y3);
    Rotated(d, x1, y1, x2, y2, x3, y3);
  }

  lemma NegatedDenominators(d: int, x1: int, y1: int, x2: int, y2: int, x3: int, y3: int)
    ensures var l, r := LawOf(d, 1, 1, x1, y1, x2, y2), LawOf(d, 1, 1, x2, y2, x3, y3);
            var w := TermsOf(d, x1, y1, x2, y2, x3, y3);
            var t, u, v := d * x1 * x2 * y1 * y2, d * x2 * x3 * y2 * y3, d * x1 * y1 * x3 * y3;
            && DenY(d, l, x3, y3) == 1 - w.t1 * w.t2 + -v * w.s2 + -u * w.s1
            && DenY(d, r, x1, y1) == 1 - w.t2 * w.t3 + -v * w.s2 + t * -w.s3
  {
    hide LawOf;
    hide DenY;
    DenominatorForms(d, x1, y1, x2, y2, x3, y3);
    DenominatorForms(d, x2, y2, x3, y3, x1, y1);
    Rotated(d, x1, y1, x2, y2, x3, y3);
    var w := TermsOf(d, x1, y1, x2, y2, x3, y3);
    var t, u, v := d * x1 * x2 * y1 * y2, d * x2 * x3 * y2 * y3, d * x1 * y1 * x3 * y3;
    var l, r := LawOf(d, 1, 1, x1, y1, x2, y2), LawOf(d, 1, 1, x2, y2, x3, y3);
    BothNegated(DenY(d, l, x3, y3), w.t1 * w.t2, v, w.s2, u, w.s1);
    OneOfEachNegated(DenY(d, r, x1, y1), w.t2 * w.t3, v, w.s2, t, w.s3);
  }

  lemma BothNegated(den: int, p: int, v: int, s: int, u: int, r: int)
    requires den == 1 - p - (v * s + u * r)
    ensures den == 1 - p + -v * s + -u * r
  {
    NegatedFactor(v, s);
    NegatedFactor(u, r);
  }

  lemma OneOfEachNegated(den: int, p: int, v: int, s: int, t: int, r: int)
    requires den == 1 - p - (t * r + v * s)
    ensures den == 1 - p + -v * s + t * -r
  {
    NegatedFactor(v, s);
    NegatedFactor(r, t);
  }

  lemma NegatedFactor(a: int, b: int)
    ensures -a * b == -(a * b) && b * -a == -(a * b)
  {
  }
}
