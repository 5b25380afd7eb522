/** Two ways to invert modulo q = 2^255 - 19: square-and-multiply, and a fixed addition chain. */
module FieldInverse {
  import opened Bytes
  import opened ModArith

  const Q: int := 0x7fffffff_ffffffff_ffffffff_ffffffff_ffffffff_ffffffff_ffffffff_ffffffed

  // ----- Square and multiply -----

  function Expmod(b: int, e: nat, m: int): int
    requires m > 0
  {
    if e == 0 then 1
    else
      var t := Expmod(b, e / 2, m);
      var t2 := t * t % m;
      if e % 2 == 1 then t2 * b % m else t2
  }

  lemma {:induction false} ExpmodIsPower(b: int, e: nat, m: int)
    requires m > 0
    ensures Cong(Expmod(b, e, m), Pow(b, e), m)
    ensures e > 0 ==> 0 <= Expmod(b, e, m) < m
  {
    if e == 0 {
    } else {
      var t, w := Expmod(b, e / 2, m), Pow(b, e / 2);
      ExpmodIsPower(b, e / 2, m);
      CongMul(t, w, t, w, m);
      CongMod(t * t, m);
      PowAdd(b, e / 2, e / 2);
      if e % 2 == 1 {
        CongMul(t * t % m, w * w, b, b, m);
        CongMod(t * t % m * b, m);
        assert Pow(b, e) == b * Pow(b, e / 2 + e / 2);
        assert w * w * b == b * (w * w);
      }
    }
  }

  // ----- The addition chain -----

  /** x squared p times modulo m. */
  function Squared(x: int, p: nat, m: int): int
    requires m > 0
    decreases p
  {
    if p == 0 then x else Squared(x * x % m, p - 1, m)
  }

  method Pow2Loop(x: int, p: nat, m: int) returns (r: int)
    requires m > 0
    ensures r == Squared(x, p, m)
    ensures Cong(r, Pow(x, Pow2(p)), m)
  {
    r := x;
    var left := p;
    while left > 0
      invariant 0 <= left <= p
      invariant Squared(r, left, m) == Squared(x, p, m)
    {
      r := r * r % m;
      left := left - 1;
    }
    SquaredIsPower(x, p, m);
  }

  function Inv(z: int, m: int): int
    requires m > 0
  {
    var z2 := z * z % m;
    var z9 := Squared(z2, 2, m) * z % m;
    var z11 := z9 * z2 % m;
    var z_5 := z11 * z11 % m * z9 % m;
    var z_10 := Squared(z_5, 5, m) * z_5 % m;
    var z_20 := Squared(z_10, 10, m) * z_10 % m;
    var z_40 := Squared(z_20, 20, m) * z_20 % m;
    var z_50 := Squared(z_40, 10, m) * z_10 % m;
    var z_100 := Squared(z_50, 50, m) * z_50 % m;
    var z_200 := Squared(z_100, 100, m) * z_100 % m;
    var z_250 := Squared(z_200, 50, m) * z_50 % m;
    Squared(z_250, 5, m) * z11 % m
  }

  lemma {:induction false} PowMul(z: int, a: nat, b: nat)
    ensures Pow(Pow(z, a), b) == Pow(z, a * b)
  {
    if b > 0 {
      PowMul(z, a, b - 1);
      PowAdd(z, a, a * (b - 1));
      assert a + a * (b - 1) == a * b;
    } else {
      assert a * b == 0;
    }
  }

  lemma {:induction false} Pow2Add(a: nat, b: nat)
    ensures Pow2(a + b) == Pow2(a) * Pow2(b)
  {
    if a == 0 {
    } else {
      Pow2Add(a - 1, b);
    }
  }

  lemma {:induction false} SquaredIsPower(x: int, p: nat, m: int)
    requires m > 0
    ensures Cong(Squared(x, p, m), Pow(x, Pow2(p)), m)
    decreases p
  {
    if p == 0 {
      assert Pow(x, 1) == x * Pow(x, 0);
    } else {
      SquaredIsPower(x * x % m, p - 1, m);
      CongMod(x * x, m);
      CongPow(x * x % m, x * x, Pow2(p - 1), m);
      assert x * x == Pow(x, 2) by {
        assert Pow(x, 1) == x * Pow(x, 0);
      }
      PowMul(x, 2, Pow2(p - 1));
    }
  }

  /** One link: square v a number of times and multiply by w, adding up their exponents. */
  lemma Link(z: int, v: int, a: nat, p: nat, w: int, b: nat, m: int)
    requires m > 0
    requires Cong(v, Pow(z, a), m) && Cong(w, Pow(z, b), m)
    ensures Cong(Squared(v, p, m) * w % m, Pow(z, a * Pow2(p) + b), m)
  {
    var s := Squared(v, p, m);
    SquaredIsPower(v, p, m);
    CongPow(v, Pow(z, a), Pow2(p), m);
    PowMul(z, a, Pow2(p));
    CongMul(s, Pow(z, a * Pow2(p)), w, Pow(z, b), m);
    PowAdd(z, a * Pow2(p), b);
    CongMod(s * w, m);
  }

  lemma OneLess(x: int, y: int)
    ensures (x - 1) * y + (y - 1) == x * y - 1
  {
  }

  /** A link between powers with exponents 2^a - 1 and 2^b - 1. */
  lemma Double(z: int, v: int, a: nat, w: int, b: nat, m: int)
    requires m > 0
    requires Cong(v, Pow(z, Pow2(a) - 1), m) && Cong(w, Pow(z, Pow2(b) - 1), m)
    ensures Cong(Squared(v, b, m) * w % m, Pow(z, Pow2(a + b) - 1), m)
  {
    Link(z, v, Pow2(a) - 1, b, w, Pow2(b) - 1, m);
    Pow2Add(a, b);
    OneLess(Pow2(a), Pow2(b));
  }

  lemma SmallPowers(z: int, m: int)
    requires m > 0
    ensures Pow2(0) == 1 && Pow2(1) == 2 && Pow2(2) == 4 && Pow2(5) == 32
    ensures Pow(z, 1) == z && Cong(z * z % m, Pow(z, 2), m)
  {
    assert Pow2(3) == 8;
    assert Pow(z, 0) == 1;
    assert Pow(z, 1) == z * Pow(z, 0);
    assert Pow(z, 2) == z * Pow(z, 1);
    CongMod(z * z, m);
  }

  lemma SquaredOnce(x: int, m: int)
    requires m > 0
    ensures Squared(x, 0, m) == x && Squared(x, 1, m) == x * x % m
  {
  }

  /** The start of the chain: exponents 2, 9, 11 and 31. */
  lemma ChainStart(z: int, m: int)
    requires m > 0
    ensures var z2 := z * z % m;
            var z9 := Squared(z2, 2, m) * z % m;
            var z11 := z9 * z2 % m;
            && Cong(z11, Pow(z, 11), m)
            && Cong(z11 * z11 % m * z9 % m, Pow(z, Pow2(5) - 1), m)
  {
    hide Pow;
    hide Pow2;
    hide Squared;
    hide Cong;
    var z2 := z * z % m;
    var z9 := Squared(z2, 2, m) * z % m;
    var z11 := z9 * z2 % m;
    SmallPowers(z, m);
    assert Cong(z, Pow(z, 1), m) by {
      CongRefl(z, m);
    }
    Link(z, z2, 2, 2, z, 1, m);
    assert 2 * Pow2(2) + 1 == 9;
    SquaredOnce(z9, m);
    Link(z, z9, 9, 0, z2, 2, m);
    assert 9 * Pow2(0) + 2 == 11;
    SquaredOnce(z11, m);
    Link(z, z11, 11, 1, z9, 9, m);
    assert 11 * Pow2(1) + 9 == 31;
  }

  lemma ChainEnd(z: int, z_50: int, z_10: int, z_40: int, z11: int, m: int)
    requires m > 0
    requires Cong(z_10, Pow(z, Pow2(10) - 1), m) && Cong(z_40, Pow(z, Pow2(40) - 1), m) && Cong(z11, Pow(z, 11), m)
    requires z_50 == Squared(z_40, 10, m) * z_10 % m
    ensures var z_100 := Squared(z_50, 50, m) * z_50 % m;
            var z_200 := Squared(z_100, 100, m) * z_100 % m;
            var z_250 := Squared(z_200, 50, m) * z_50 % m;
            Cong(Squared(z_250, 5, m) * z11 % m, Pow(z, Pow2(255) - 21), m)
  {
    hide Pow;
    hide Pow2;
    hide Squared;
    var z_100 := Squared(z_50, 50, m) * z_50 % m;
    var z_200 := Squared(z_100, 100, m) * z_100 % m;
    var z_250 := Squared(z_200, 50, m) * z_50 % m;
    Double(z, z_40, 40, z_10, 10, m);
    Double(z, z_50, 50, z_50, 50, m);
    Double(z, z_100, 100, z_100, 100, m);
    Double(z, z_200, 200, z_50, 50, m);
    Link(z, z_250, Pow2(250) - 1, 5, z11, 11, m);
    Pow2Add(250, 5);
    Pow2Of5();
    assert (Pow2(250) - 1) * 32 + 11 == Pow2(255) - 21;
  }

  lemma Pow2Of5()
    ensures Pow2(5) == 32
  {
    assert Pow2(3) == 8;
  }

  /** For every z and every modulus, the chain computes the power with exponent 2^255 - 21. */
  lemma ChainIsPower(z: int, m: int)
    requires m > 0
    ensures Cong(Inv(z, m), Pow(z, Pow2(255) - 21), m)
  {
    hide Pow;
    hide Pow2;
    hide Squared;
    var z2 := z * z % m;
    var z9 := Squared(z2, 2, m) * z % m;
    var z11 := z9 * z2 % m;
    var z_5 := z11 * z11 % m * z9 % m;
    var z_10 := Squared(z_5, 5, m) * z_5 % m;
    var z_20 := Squared(z_10, 10, m) * z_10 % m;
    var z_40 := Squared(z_20, 20, m) * z_20 % m;
    ChainStart(z, m);
    Double(z, z_5, 5, z_5, 5, m);
    Double(z, z_10, 10, z_10, 10, m);
    Double(z, z_20, 20, z_20, 20, m);
    ChainEnd(z, Squared(z_40, 10, m) * z_10 % m, z_10, z_40, z11, m);
  }

  lemma Pow2Of32()
    ensures Pow2(3) == 8 && Pow2(4) == 0x10 && Pow2(8) == 0x100 && Pow2(16) == 0x1_0000 && Pow2(32) == 0x1_0000_0000
  {
    assert Pow2(3) == 8;
    Pow2Add(4, 4);
    Pow2Add(8, 8);
    Pow2Add(16, 16);
  }

  lemma Pow2Of128()
    ensures Pow2(128) == 0x1_00000000_00000000_00000000_00000000
  {
    hide Pow2;
    Pow2Of32();
    Pow2Add(32, 32);
    Pow2Add(64, 64);
  }

  lemma Pow2Of127()
    ensures Pow2(127) == 0x80000000_00000000_00000000_00000000
  {
    Pow2Of128();
    assert Pow2(128) == 2 * Pow2(127);
  }

  lemma QIsPow2()
    ensures Q == Pow2(255) - 19
  {
    hide Pow2;
    Pow2Of128();
    Pow2Of127();
    Pow2Add(128, 127);
  }

  /** The chain and square-and-multiply give the same inverse, of every number, and no primality is needed for it. */
  lemma InversesAgree(z: int)
    ensures Inv(z, Q) == Expmod(z, Q - 2, Q)
    ensures Cong(Inv(z, Q), Pow(z, Q - 2), Q)
  {
    hide Pow;
    hide Pow2;
    hide Expmod;
    ChainIsPower(z, Q);
    QIsPow2();
    ExpmodIsPower(z, Q - 2, Q);
    InvReduced(z, Q);
    DivisionUnique(Inv(z, Q), Q, 0, Inv(z, Q));
    DivisionUnique(Expmod(z, Q - 2, Q), Q, 0, Expmod(z, Q - 2, Q));
  }

  lemma InvReduced(z: int, m: int)
    requires m > 0
    ensures 0 <= Inv(z, m) < m
  {
    hide Squared;
  }

  /** Modulo a prime, the power with exponent p - 2 is the inverse. */
  lemma ExpmodInverts(z: int, p: int)
    requires IsPrime(p) && p > 2 && !Cong(z, 0, p)
    ensures Cong(z * Expmod(z, p - 2, p), 1, p)
  {
    ExpmodIsPower(z, p - 2, p);
    CongMul(z, z, Expmod(z, p - 2, p), Pow(z, p - 2), p);
    Fermat(z, p);
  }

  /** If q is prime, the chain inverts everything that is no multiple of q. */
  lemma InvInverts(z: int)
    requires IsPrime(Q) && !Cong(z, 0, Q)
    ensures Cong(z * Inv(z, Q), 1, Q)
  {
    InversesAgree(z);
    ExpmodInverts(z, Q);
  }
}
