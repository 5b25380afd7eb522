/** Scalar multiplication: by doubling and adding, and with a table of doublings of the base point. */
module ScalarMult {
  import opened Bytes
  import opened ModArith
  import opened FieldInverse
  import opened Edwards
  import opened GroupLaw

  /** The order of the base point, 2^252 + 27742317777372353535851937790883648493. */
  const ORDER: int := 0x10000000_00000000_00000000_00000000_14def9de_a2f79cd6_5812631a_5cf5d3ed

  const TABLE_SIZE := 253

  function ScalarMult(c: Curve, p: Point, e: nat): Point
    requires c.q > 0
  {
    if e == 0 then IDENT
    else
      var r := Edwards.Double(c, ScalarMult(c, p, e / 2));
      if e % 2 == 1 then Add(c, r, p) else r
  }

  function AffineScalarMult(c: Curve, p: Affine, e: nat): Affine
    requires c.q > 2
    decreases e, c.q
  {
    if e == 0 then ZERO
    else
      var r := AffineScalarMult(c, p, e / 2);
      var r2 := AffineAdd(c, r, r);
      if e % 2 == 1 then AffineAdd(c, r2, p) else r2
  }

  // ----- The fast form refines the simple one -----

  lemma IdentRepresents(c: Curve)
    requires IsPrime(c.q) && c.q > 2
    ensures Represents(c.q, IDENT, 0, 1)
    ensures OnCurve(c, IDENT) && ToAffine(c, IDENT) == ZERO
  {
    hide InvMod;
    UnitNotZero(c.q, 1);
    OnCurveEquation(c, IDENT, 0, 1);
    RepresentedPoint(c, IDENT, 0, 1);
    DivisionUnique(0, c.q, 0, 0);
    DivisionUnique(1, c.q, 0, 1);
  }

  /** No law of the group is needed for this: the two forms take the same sums in the same order. */
  lemma {:induction false} ScalarMultRefines(c: Curve, p: Point, e: nat)
    requires Good(c) && OnCurve(c, p)
    ensures OnCurve(c, ScalarMult(c, p, e))
    ensures ToAffine(c, ScalarMult(c, p, e)) == AffineScalarMult(c, ToAffine(c, p), e)
  {
    hide OnCurve;
    hide ToAffine;
    hide Add;
    hide AffineAdd;
    hide Good;
    PrimeOfGood(c);
    if e == 0 {
      IdentRepresents(c);
    } else {
      ScalarMultRefines(c, p, e / 2);
      var r := ScalarMult(c, p, e / 2);
      DoubleRefines(c, r);
      AddRefines(c, Edwards.Double(c, r), p);
    }
  }

  // ----- Multiples of a point -----

  /** The sum of n copies of a point. */
  function Times(c: Curve, p: Affine, n: nat): Affine
    requires c.q > 2
  {
    if n == 0 then ZERO else AffineAdd(c, Times(c, p, n - 1), p)
  }

  lemma {:induction false} TimesIsElement(c: Curve, p: Affine, n: nat)
    requires Good(c) && Element(c, p)
    ensures Element(c, Times(c, p, n))
  {
    hide AffineAdd;
    hide Element;
    if n == 0 {
      ZeroIsElement(c);
    } else {
      TimesIsElement(c, p, n - 1);
      SumIsElement(c, Times(c, p, n - 1), p);
    }
  }

  lemma {:induction false} TimesAdd(c: Curve, p: Affine, m: nat, n: nat)
    requires Good(c) && Element(c, p)
    ensures AffineAdd(c, Times(c, p, m), Times(c, p, n)) == Times(c, p, m + n)
  {
    hide AffineAdd;
    hide Element;
    TimesIsElement(c, p, m);
    if n == 0 {
      AddZero(c, Times(c, p, m));
    } else {
      TimesIsElement(c, p, n - 1);
      TimesAdd(c, p, m, n - 1);
      AdditionAssociates(c, Times(c, p, m), Times(c, p, n - 1), p);
    }
  }

  /** Doubling and adding computes the sum of e copies. */
  lemma {:induction false} ScalarMultIsTimes(c: Curve, p: Affine, e: nat)
    requires Good(c) && Element(c, p)
    ensures AffineScalarMult(c, p, e) == Times(c, p, e)
  {
    hide AffineAdd;
    hide Element;
    hide Good;
    if e == 0 {
    } else {
      ScalarMultIsTimes(c, p, e / 2);
      TimesAdd(c, p, e / 2, e / 2);
      assert e / 2 + e / 2 == e - e % 2;
    }
  }

  // ----- The table of doublings -----

  function Doubled(c: Curve, p: Point, i: nat): Point
    requires c.q > 0
  {
    if i == 0 then p else Edwards.Double(c, Doubled(c, p, i - 1))
  }

  /** The sum of the entries of the table at the one bits among the n low bits of e. */
  function AtBits(c: Curve, table: seq<Point>, e: nat, n: nat): Point
    requires c.q > 0 && n <= |table|
  {
    if n == 0 then IDENT
    else
      var p := AtBits(c, table, e, n - 1);
      if e / Pow2(n - 1) % 2 == 1 then Add(c, p, table[n - 1]) else p
  }

  /** The module-level table, and the operations that fill it and read it. */
  class Table {
    var bpow: seq<Point>

    constructor ()
      ensures bpow == []
    {
      bpow := [];
    }

    ghost predicate MadeFrom(c: Curve, b: Point)
      requires c.q > 0
      reads this
    {
      |bpow| == TABLE_SIZE && forall i :: 0 <= i < TABLE_SIZE ==> bpow[i] == Doubled(c, b, i)
    }

    method MakeBpow(c: Curve, b: Point)
      requires c.q > 0
      modifies this
      ensures |bpow| == |old(bpow)| + TABLE_SIZE && old(bpow) <= bpow
      ensures forall i :: 0 <= i < TABLE_SIZE ==> bpow[|old(bpow)| + i] == Doubled(c, b, i)
      ensures old(bpow) == [] ==> MadeFrom(c, b)
    {
      var p := b;
      for i := 0 to TABLE_SIZE
        invariant p == Doubled(c, b, i)
        invariant |bpow| == |old(bpow)| + i && old(bpow) <= bpow
        invariant forall k :: 0 <= k < i ==> bpow[|old(bpow)| + k] == Doubled(c, b, k)
      {
        bpow := bpow + [p];
        p := Edwards.Double(c, p);
      }
    }

    /** For every integer e; the source's assertion that no bit of e is left over never fails. */
    method ScalarMultB(c: Curve, e: int) returns (p: Point)
      requires c.q > 0 && |bpow| >= TABLE_SIZE
      ensures p == AtBits(c, bpow, e % ORDER, TABLE_SIZE)
    {
      var left := e % ORDER;
      p := IDENT;
      for i := 0 to TABLE_SIZE
        invariant 0 <= left && left == e % ORDER / Pow2(i)
        invariant p == AtBits(c, bpow, e % ORDER, i)
      {
        if left % 2 == 1 {
          p := Add(c, p, bpow[i]);
        }
        HalfOfQuotient(e % ORDER, i);
        left := left / 2;
      }
      OrderFits(e);
      assert left == 0;
    }
  }

  lemma HalfOfQuotient(e: nat, i: nat)
    ensures e / Pow2(i) / 2 == e / Pow2(i + 1)
  {
    QuotientOfQuotient(e, Pow2(i), 2);
  }

  lemma OrderFits(e: int)
    ensures e % ORDER < Pow2(TABLE_SIZE) && e % ORDER / Pow2(TABLE_SIZE) == 0
  {
    hide Pow2;
    Pow2Of128();
    Pow2Of127();
    Pow2Add(128, 125);
    Pow2Add(125, 2);
    SmallPowers(0, 2);
    assert Pow2(125) * 4 == Pow2(127);
    DivisionUnique(e % ORDER, Pow2(TABLE_SIZE), 0, e % ORDER);
  }

  // ----- What the table holds -----

  lemma {:induction false} EntryRefines(c: Curve, b: Point, i: nat)
    requires Good(c) && OnCurve(c, b)
    ensures OnCurve(c, Doubled(c, b, i))
    ensures ToAffine(c, Doubled(c, b, i)) == AffineScalarMult(c, ToAffine(c, b), Pow2(i))
  {
    hide OnCurve;
    hide ToAffine;
    hide AffineAdd;
    hide Good;
    PrimeOfGood(c);
    var a := ToAffine(c, b);
    if i == 0 {
      OnceIsSame(c, b);
    } else {
      EntryRefines(c, b, i - 1);
      DoubleRefines(c, Doubled(c, b, i - 1));
      assert Pow2(i) / 2 == Pow2(i - 1) && Pow2(i) % 2 == 0;
    }
  }

  lemma OnceIsSame(c: Curve, b: Point)
    requires Good(c) && OnCurve(c, b)
    ensures AffineScalarMult(c, ToAffine(c, b), 1) == ToAffine(c, b)
  {
    hide ToAffine;
    hide AffineAdd;
    hide Element;
    hide OnCurve;
    PrimeOfGood(c);
    ToAffineIsElement(c, b);
    ZeroIsElement(c);
    AddZero(c, ZERO);
    AddZero(c, ToAffine(c, b));
    assert AffineScalarMult(c, ToAffine(c, b), 0) == ZERO;
  }

  /** Entry i of the table is the scalar multiple by 2^i, as a point of the curve. */
  lemma EntryIsScalarMult(c: Curve, b: Point, i: nat)
    requires Good(c) && OnCurve(c, b)
    ensures ToAffine(c, Doubled(c, b, i)) == ToAffine(c, ScalarMult(c, b, Pow2(i)))
  {
    EntryRefines(c, b, i);
    ScalarMultRefines(c, b, Pow2(i));
  }

  // ----- Multiplication with the table -----

  lemma BitsSplit(e: nat, n: nat)
    requires n > 0
    ensures e % Pow2(n) == e % Pow2(n - 1) + (e / Pow2(n - 1) % 2) * Pow2(n - 1)
  {
    QuotientOfQuotient(e, Pow2(n - 1), 2);
  }

  /** The sum at the low n bits of e is the multiple by the low n bits of e. */
  lemma {:induction false} AtBitsIsTimes(c: Curve, b: Point, table: seq<Point>, e: nat, n: nat)
    requires Good(c) && OnCurve(c, b)
    requires n <= |table| && forall i :: 0 <= i < n ==> table[i] == Doubled(c, b, i)
    ensures OnCurve(c, AtBits(c, table, e, n))
    ensures ToAffine(c, AtBits(c, table, e, n)) == Times(c, ToAffine(c, b), e % Pow2(n))
  {
    hide OnCurve;
    hide ToAffine;
    hide AffineAdd;
    hide Add;
    hide Good;
    hide Times;
    hide Doubled;
    PrimeOfGood(c);
    var a := ToAffine(c, b);
    if n == 0 {
      IdentRepresents(c);
      TimesNone(c, a);
    } else {
      AtBitsIsTimes(c, b, table, e, n - 1);
      BitsSplit(e, n);
      if e / Pow2(n - 1) % 2 == 1 {
        var p := AtBits(c, table, e, n - 1);
        EntryRefines(c, b, n - 1);
        AddRefines(c, p, table[n - 1]);
        ToAffineIsElement(c, b);
        ScalarMultIsTimes(c, a, Pow2(n - 1));
        TimesAdd(c, a, e % Pow2(n - 1), Pow2(n - 1));
      }
    }
  }

  lemma TimesNone(c: Curve, p: Affine)
    requires c.q > 2
    ensures Times(c, p, 0) == ZERO
  {
  }

  /**
   * What the table gives for e is the multiple by e modulo the order, which is what scalar
   * multiplication gives for e modulo the order.
   */
  lemma TableMultiplies(c: Curve, b: Point, table: seq<Point>, e: int)
    requires Good(c) && OnCurve(c, b)
    requires |table| >= TABLE_SIZE && forall i :: 0 <= i < TABLE_SIZE ==> table[i] == Doubled(c, b, i)
    ensures var p := AtBits(c, table, e % ORDER, TABLE_SIZE);
            && OnCurve(c, p)
            && ToAffine(c, p) == Times(c, ToAffine(c, b), e % ORDER)
            && ToAffine(c, p) == ToAffine(c, ScalarMult(c, b, e % ORDER))
  {
    hide OnCurve;
    hide ToAffine;
    hide AffineAdd;
    hide Good;
    hide Times;
    hide Doubled;
    hide AtBits;
    hide ScalarMult;
    PrimeOfGood(c);
    AtBitsIsTimes(c, b, table, e % ORDER, TABLE_SIZE);
    OrderFits(e);
    DivisionUnique(e % ORDER, Pow2(TABLE_SIZE), 0, e % ORDER);
    ToAffineIsElement(c, b);
    ScalarMultRefines(c, b, e % ORDER);
    ScalarMultIsTimes(c, ToAffine(c, b), e % ORDER);
  }

  // ----- The order of the base point -----

  lemma {:induction false} TimesOrder(c: Curve, p: Affine, k: nat)
    requires Good(c) && Element(c, p)
    requires Times(c, p, ORDER) == ZERO
    ensures Times(c, p, k * ORDER) == ZERO
  {
    hide Good;
    hide Element;
    hide AffineAdd;
    hide Times;
    PrimeOfGood(c);
    if k == 0 {
      TimesNone(c, p);
    } else {
      TimesOrder(c, p, k - 1);
      TimesAdd(c, p, (k - 1) * ORDER, ORDER);
      assert (k - 1) * ORDER + ORDER == k * ORDER;
      ZeroIsElement(c);
      AddZero(c, ZERO);
    }
  }

  ghost predicate TableAgreesAt(c: Curve, b: Point, table: seq<Point>, e: nat)
    requires c.q > 2 && |table| >= TABLE_SIZE
  {
    ToAffine(c, AtBits(c, table, e % ORDER, TABLE_SIZE)) == ToAffine(c, ScalarMult(c, b, e))
  }

  /**
   * The table multiplies as scalar multiplication does, whatever the scalar, exactly when the
   * scalar multiple of the base point by the order is the identity.
   */
  lemma TableAgreesIffOrder(c: Curve, b: Point, table: seq<Point>)
    requires Good(c) && OnCurve(c, b)
    requires |table| >= TABLE_SIZE && forall i :: 0 <= i < TABLE_SIZE ==> table[i] == Doubled(c, b, i)
    ensures (forall e: nat :: TableAgreesAt(c, b, table, e)) <==> ToAffine(c, ScalarMult(c, b, ORDER)) == ZERO
  {
    hide OnCurve;
    hide ToAffine;
    hide AffineAdd;
    hide Good;
    hide Times;
    hide Doubled;
    hide AtBits;
    hide ScalarMult;
    PrimeOfGood(c);
    var a := ToAffine(c, b);
    ToAffineIsElement(c, b);
    ScalarMultRefines(c, b, ORDER);
    ScalarMultIsTimes(c, a, ORDER);
    if Times(c, a, ORDER) == ZERO {
      forall e: nat
        ensures TableAgreesAt(c, b, table, e)
      {
        var k, r := e / ORDER, e % ORDER;
        TableMultiplies(c, b, table, e);
        ScalarMultRefines(c, b, e);
        ScalarMultIsTimes(c, a, e);
        TimesOrder(c, a, k);
        TimesAdd(c, a, k * ORDER, r);
        TimesIsElement(c, a, r);
        AddZero(c, Times(c, a, r));
        assert k * ORDER + r == e;
      }
    }
    if forall e: nat :: TableAgreesAt(c, b, table, e) {
      assert TableAgreesAt(c, b, table, ORDER);
      TableMultiplies(c, b, table, ORDER);
      TimesNone(c, a);
    }
  }
}
