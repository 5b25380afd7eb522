/**
 * The multiple of the base point by l is the identity: a certificate that follows the bits of l from
 * the top, each step one doubling, or one doubling and one addition of the base point. The affine
 * points it goes through are given, and checked by multiplying out the denominators.
 */
module BasePointOrder {
  import opened ModArith
  import opened FieldInverse
  import opened Edwards
  import opened GroupLaw
  import opened ScalarMult
  import opened Ed25519

  /** The point (u, v) fits the addition law for (u1, v1) and (u2, v2), denominators multiplied out. */
  predicate Fits(q: int, d: int, u1: int, v1: int, u2: int, v2: int, u: int, v: int)
    requires q > 0
  {
    && 0 <= u < q && 0 <= v < q
    && (d * u1 * u2 * v1 * v2 * u + u - u1 * v2 - u2 * v1) % q == 0
    && (v - d * u1 * u2 * v1 * v2 * v - v1 * v2 - u1 * u2) % q == 0
  }

  // ----- What fits is the sum -----

  lemma FittingQuotient(c: Curve, n: int, den: int, u: int)
    requires IsPrime(c.q) && c.q > 2 && !Cong(den, 0, c.q) && 0 <= u < c.q && (u * den - n) % c.q == 0
    ensures n * InvMod(c, den) % c.q == u
  {
    hide InvMod;
    hide IsPrime;
    CongZero(u * den, n, c.q);
    Quotient(c, n, den, u);
    DivisionUnique(u, c.q, 0, u);
  }

  lemma FitsLaw(q: int, d: int, u1: int, v1: int, u2: int, v2: int, u: int, v: int)
    requires q > 0 && Fits(q, d, u1, v1, u2, v2, u, v)
    ensures var l := LawOf(d, 1, 1, u1, v1, u2, v2);
            (u * l.d1 - l.n1) % q == 0 && (v * l.d2 - l.n2) % q == 0
  {
    var t := d * u1 * u2 * v1 * v2;
    OneMoreTimes(u, t);
    OneMoreTimes(v, -t);
  }

  lemma OneMoreTimes(u: int, t: int)
    ensures u * (1 + t) == t * u + u
    ensures -t * u == -(t * u)
  {
  }

  lemma FitsIsSum(c: Curve, p: Affine, r: Affine, s: Affine)
    requires Good(c) && Element(c, p) && Element(c, r) && Fits(c.q, c.d, p.x, p.y, r.x, r.y, s.x, s.y)
    ensures AffineAdd(c, p, r) == s && Element(c, s)
  {
    PrimeOfGood(c);
    assert 0 <= s.x < c.q && 0 <= s.y < c.q;
    FitsLaw(c.q, c.d, p.x, p.y, r.x, r.y, s.x, s.y);
    hide Fits;
    hide IsPrime;
    hide InvMod;
    hide Cong;
    hide Good;
    hide Equation;
    var l := LawOf(c.d, 1, 1, p.x, p.y, r.x, r.y);
    EquationOf(c, p);
    EquationOf(c, r);
    Completeness(c, p.x, p.y, r.x, r.y);
    LawTerms(c, p, r);
    FittingQuotient(c, l.n1, l.d1, s.x);
    FittingQuotient(c, l.n2, l.d2, s.y);
    SumIsElement(c, p, r);
  }

  /** The multiple of a point of the curve by e is (u, v), and on the curve again. */
  ghost predicate Reached(c: Curve, b: Affine, e: nat, u: int, v: int)
    requires c.q > 2
  {
    && Good(c) && Element(c, b) && Element(c, Affine(u, v))
    && e > 0 && AffineScalarMult(c, b, e) == Affine(u, v)
  }

  lemma ReachedOne(c: Curve, b: Affine)
    requires Good(c) && Element(c, b)
    ensures Reached(c, b, 1, b.x, b.y)
  {
    hide AffineAdd;
    hide Element;
    PrimeOfGood(c);
    ZeroIsElement(c);
    AddZero(c, ZERO);
    AddZero(c, b);
    assert AffineScalarMult(c, b, 0) == ZERO;
  }

  /** A zero bit: one doubling. */
  lemma Bit0(q: int, d: int, b: Affine, e: nat, u: int, v: int, u': int, v': int)
    requires q > 2 && Reached(Curve(q, d), b, e, u, v) && Fits(q, d, u, v, u, v, u', v')
    ensures Reached(Curve(q, d), b, 2 * e, u', v')
  {
    hide Fits;
    hide Good;
    hide AffineAdd;
    hide Element;
    FitsIsSum(Curve(q, d), Affine(u, v), Affine(u, v), Affine(u', v'));
    assert 2 * e / 2 == e;
  }

  /** A one bit: one doubling, and the point added. */
  lemma Bit1(q: int, d: int, b: Affine, e: nat, u: int, v: int, w: int, z: int, u': int, v': int)
    requires q > 2 && Reached(Curve(q, d), b, e, u, v)
    requires Fits(q, d, u, v, u, v, w, z) && Fits(q, d, w, z, b.x, b.y, u', v')
    ensures Reached(Curve(q, d), b, 2 * e + 1, u', v')
  {
    hide Fits;
    hide Good;
    hide AffineAdd;
    hide Element;
    FitsIsSum(Curve(q, d), Affine(u, v), Affine(u, v), Affine(w, z));
    FitsIsSum(Curve(q, d), Affine(w, z), b, Affine(u', v'));
    assert (2 * e + 1) / 2 == e && (2 * e + 1) % 2 == 1;
  }

  const B := Affine(BASE_X, BASE_Y)

  lemma Start()
    requires IsPrime(Q)
    ensures Reached(ED25519, B, 1, BASE_X, BASE_Y)
  {
    hide OnCurve;
    hide ToAffine;
    hide IsPrime;
    hide Good;
    hide Element;
    hide Reached;
    GoodIfPrime();
    BaseOnCurve();
    BaseToAffine();
    ToAffineIsElement(ED25519, BASE);
    ReachedOne(ED25519, B);
  }

  // ----- The certificate: after k bits the point is (Xk, Yk), and (Wk, Zk) before adding -----

  // The lemmas below are data. Bit0(Q, D, B, e, X(k-1), Y(k-1), Xk, Yk) says: the k-th bit of l after the top
  // one is 0, and (Xk, Yk) is twice (X(k-1), Y(k-1)), which is e times the base point. Bit1(Q, D, B, e, X(k-1),
  // Y(k-1), Wk, Zk, Xk, Yk) says: the bit is 1, (Wk, Zk) is twice (X(k-1), Y(k-1)), and (Xk, Yk) is that plus
  // the base point. Each call has the two closed congruences of Fits for each of these sums as its
  // precondition. Reach k chains the six steps up to bit k; the last one is at e = l.

  const X1: int := 0x36ab384c9f5a046c3d043b7d1833e7ac080d8e4515d7a45f83c5a14e2843ce0e
  const Y1: int := 0x2260cdf3092329c21da25ee8c9a21f5697390f51643851560e5f46ae6af8a3c9
  const X2: int := 0x203da8db56cff1468325d4b87a3520f91a739ec193ce1547493aa657c4c9f870
  const Y2: int := 0x47d0e827cb1595e1470eb88580d5716c4cf22832ea2f0ff0df38ab61ca32112f
  const X3: int := 0x6742e15f97d771b642862d5cf84ecf93eb3ac67b80698b993b87fdbc08a584c8
  const Y3: int := 0x21d30600c9e573796ead6f09668af38f81783cfc621ee4931e2f5ba9fc37b9b4
  const X4: int := 0x23a4860627e53aeeb8e22b1508249c9109578d33e7bf237459b2596d6c28f9f8
  const Y4: int := 0x709696f2827fc3729f980f2e3aad6e78b06a11ff8e079c27d87aab37c16727eb
  const X5: int := 0x39cf6c6917421af98582561d0b39567de6033190f97852fc4fdd40f6977e4f26
  const Y5: int := 0x4434a90ee12cce6b7ade93ecc0f88b78b41205e74c8c4038f92d394f3a06d269
  const X6: int := 0x05fa64200bf829139cf290f9871d79a8b8e846fd6ad9d678f1517a0fb03ca40b
  const Y6: int := 0x3d199eeaf926002872f486796fa8aa4c99f1125e6e0d196afbd695af17da0926

  lemma Reach6()
    requires IsPrime(Q)
    ensures Reached(ED25519, B, 0x40, X6, Y6)
  {
    hide IsPrime;
    hide Reached;
    Start();
    Bit0(Q, D, B, 0x1, BASE_X, BASE_Y, X1, Y1);
    Bit0(Q, D, B, 0x2, X1, Y1, X2, Y2);
    Bit0(Q, D, B, 0x4, X2, Y2, X3, Y3);
    Bit0(Q, D, B, 0x8, X3, Y3, X4, Y4);
    Bit0(Q, D, B, 0x10, X4, Y4, X5, Y5);
    Bit0(Q, D, B, 0x20, X5, Y5, X6, Y6);
  }

  const X7: int := 0x379dbeb1a97b5f082402eabf1ad28bb78a837aa426237a405da2495bf0cfdd87
  const Y7: int := 0x28eb9fe001ce99d063f7995348559bfc233261c134094521fda0e7ee084b86fc
  const X8: int := 0x5e7e07ed4e1decbfe6e9cbc126905449d4b578fbb561576d20b8bcdd0cc2a556
  const Y8: int := 0x0f55755c51f102796bf5ebaa81d3260e7d1b3d9ac127d9a80e142031566cf6c7
  const X9: int := 0x2eecbf81b3d084733331f9eefa70d42621effd9b303961d25409333c82cd340a
  const Y9: int := 0x54d2dc2da137827c4132d9b740a119b6484d4d4849e6e074b89cf764008b93e8
  const X10: int := 0x6b113a52f9f3fd0590ac7cb6c8cbb37abcf147c44b2ae11d9151c7d55b4a2b68
  const Y10: int := 0x1aeb017159697e792eb8da1805519c06296595f4f57996c590954359f327c13d
  const X11: int := 0x3c1ae7527612d38bb541f511fcc6283d8482afe93115b345ecd2bcfbbd1317f7
  const Y11: int := 0x051c91c3f9d7e57eb786116c8545f90fa67f5e8b62c32ac4512015a20711364e
  const X12: int := 0x7d13c0248b891b47eb524f2692008e2f97b199bac426cb5902b9003a29ded6ea
  const Y12: int := 0x59a976ab2c01a81a91f1a56c75ccc77a9e1e9e878e9fe9c3952080a6805b20d5

  lemma Reach12()
    requires IsPrime(Q)
    ensures Reached(ED25519, B, 0x1000, X12, Y12)
  {
    hide IsPrime;
    hide Reached;
    Reach6();
    Bit0(Q, D, B, 0x40, X6, Y6, X7, Y7);
    Bit0(Q, D, B, 0x80, X7, Y7, X8, Y8);
    Bit0(Q, D, B, 0x100, X8, Y8, X9, Y9);
    Bit0(Q, D, B, 0x200, X9, Y9, X10, Y10);
    Bit0(Q, D, B, 0x400, X10, Y10, X11, Y11);
    Bit0(Q, D, B, 0x800, X11, Y11, X12, Y12);
  }

  const X13: int := 0x17d5a9ff7f338d8ee53c26531f9a5d4ad2718234b5d46a1435aa161031b1c9de
  const Y13: int := 0x73022287d3b73f6c43c3f9071cf0a87aac83dabd44efad1de010d564a4f6af89
  const X14: int := 0x07a8bc68bf5f3ed3bed79c11bf2d6b20cb84442dfe4ae185b0c2dabc38e74b8a
  const Y14: int := 0x7249d7c47afd427018b32d20a2a81307bddc3e039574c80329aa786a22288901
  const X15: int := 0x5b4fd9f4a9a79b1f34a4c426c1a467d36560338b1a5457e83254935c2b32ff02
  const Y15: int := 0x40ebd1230468fbf85a49aa47278ec1375a3cf9c2ecc5bbdf685b265433b08d46
  const X16: int := 0x5de7faa2ee4e70132f541f79ca07cd54a39fe1347a6844d19e9d678a8411a565
  const Y16: int := 0x2c9f23641e1c2e0aab8ea9926b432d92c0e8bc08901d6ff6df85e4cef854ec36
  const X17: int := 0x74e337a01c13b537323663602811d1d532d8747e81489415271411b172d04f27
  const Y17: int := 0x08648f02b3a4daf96ecffabdbaf3599fb2ee85dae253b2c21ce66796114e25f1
  const X18: int := 0x6a6fbd51efa6a855e82cb0142325ba473fd7554aba208a400737475464f29434
  const Y18: int := 0x16f5f8529f55fc2b7cf811161d7870ade1d1617e52c3c4f579ea06b27616d671

  lemma Reach18()
    requires IsPrime(Q)
    ensures Reached(ED25519, B, 0x40000, X18, Y18)
  {
    hide IsPrime;
    hide Reached;
    Reach12();
    Bit0(Q, D, B, 0x1000, X12, Y12, X13, Y13);
    Bit0(Q, D, B, 0x2000, X13, Y13, X14, Y14);
    Bit0(Q, D, B, 0x4000, X14, Y14, X15, Y15);
    Bit0(Q, D, B, 0x8000, X15, Y15, X16, Y16);
    Bit0(Q, D, B, 0x10000, X16, Y16, X17, Y17);
    Bit0(Q, D, B, 0x20000, X17, Y17, X18, Y18);
  }

  const X19: int := 0x243eb188de73a5549b32c39d2ef1b29623709a9ead4c0e240314e0c5f69a9634
  const Y19: int := 0x3779298951f452d801eb7a0b7eb224cca2dbef041081cfa582afb25b1f4ce2f6
  const X20: int := 0x06b349eebfed4dad4a805b63a6ed2231a565cda752d9477ff427dd9a8c9ab5ed
  const Y20: int := 0x07a09289ff3e1f9aab68aa374c48df65f550c2323607b97744dee990608b64f8
  const X21: int := 0x482a4cdf57d9eadaab1c92b8edd4d15f66a39c16b2ebaaf9ec314ac0199c4f7d
  const Y21: int := 0x7391de4381c2f7a80b3c5fc6145192983f115fa525e4fd6abd513b116e4eb04b
  const X22: int := 0x3bad86defe0d244dcc4b246c137dcc68bf6b733d1fff688f33431f2a339f8f3c
  const Y22: int := 0x2de3cdf2fa86ba8c2b899f9fc04b8d5384145c3f68ea9b6ee05373dc01815179
  const X23: int := 0x45afc85dc571ed1bd5e8115a9622d44627cf19fc4a8626e7b754b005cb75be54
  const Y23: int := 0x6c0c8abfa60bfc771e39a18f57b8142f7adbcf220b81ee2339809e4957777b40
  const X24: int := 0x0af367956af630266b1cc760154256ed79da960dddca9d72a1e8cf27d8d43a77
  const Y24: int := 0x21108d900134d3b3708dd28ace96b0b23dda9100e4b6a62a8131bd2f2ba408c5

  lemma Reach24()
    requires IsPrime(Q)
    ensures Reached(ED25519, B, 0x1000000, X24, Y24)
  {
    hide IsPrime;
    hide Reached;
    Reach18();
    Bit0(Q, D, B, 0x40000, X18, Y18, X19, Y19);
    Bit0(Q, D, B, 0x80000, X19, Y19, X20, Y20);
    Bit0(Q, D, B, 0x100000, X20, Y20, X21, Y21);
    Bit0(Q, D, B, 0x200000, X21, Y21, X22, Y22);
    Bit0(Q, D, B, 0x400000, X22, Y22, X23, Y23);
    Bit0(Q, D, B, 0x800000, X23, Y23, X24, Y24);
  }

  const X25: int := 0x2b760154fc5ceb5a64141345f55b1b57e5b0b1d6c5a07dea8ddf074fbae70d33
  const Y25: int := 0x7dc81af96fed42e0373411203fa2ced7629fb2eb6a2054e24afe3696afc20c02
  const X26: int := 0x67dbc33418bbcd3878489398639484b6d6fa42f875b8c5af23bc92c69c5bdb6b
  const Y26: int := 0x38436fdf8589a33059fc92e7ca7aa2250cc9ea48391b1e517c6fb056093af396
  const X27: int := 0x29ea44a50a4b47b8b3dffa01dc5f2271d5439ba8a82a6ec0c454e9bd19448479
  const Y27: int := 0x6c775ac8ab2eda8cbbdb4bd1196ab24630ac6c1f97389de19e9d5f63af509005
  const X28: int := 0x1e45a60140a3b2dee9b8dc6ff307154a1b410bcd38e0e38fb10b2f6da1afbe2b
  const Y28: int := 0x0e730da473dffd60d2f3241a85e68acb47d26e5043ad047d893f072c8dda0a76
  const X29: int := 0x61708161cb4660ff22c3c1eaafb1414244579864b07e73fb9bcd90aabec9935d
  const Y29: int := 0x38d6936d12e8157c0621bd2d8fdf95a1f84987ee724e0c98f5c4cd21feb9820d
  const X30: int := 0x48f451397792915909604c632c838021641749a67fb8e91301427defd951f791
  const Y30: int := 0x315385d3bd5a22b69068de89e52a3126525be7da886d693e99ff2f088322d560

  lemma Reach30()
    requires IsPrime(Q)
    ensures Reached(ED25519, B, 0x40000000, X30, Y30)
  {
    hide IsPrime;
    hide Reached;
    Reach24();
    Bit0(Q, D, B, 0x1000000, X24, Y24, X25, Y25);
    Bit0(Q, D, B, 0x2000000, X25, Y25, X26, Y26);
    Bit0(Q, D, B, 0x4000000, X26, Y26, X27, Y27);
    Bit0(Q, D, B, 0x8000000, X27, Y27, X28, Y28);
    Bit0(Q, D, B, 0x10000000, X28, Y28, X29, Y29);
    Bit0(Q, D, B, 0x20000000, X29, Y29, X30, Y30);
  }

  const X31: int := 0x7956a04df862178ee4c705ffbd30f9dcbccdfc7abe362f2c1da24b3cf9dcced8
  const Y31: int := 0x5eeac17f2e772f551e761978b395b6ddea37a16aa33cff34a30a8453baf6e782
  const X32: int := 0x4d1e116d136158c5ddabd4276832800f2c081c1072de6f2d931797a46abc0cbb
  const Y32: int := 0x6d415be49d4e35b65cc51354b5008f8c43e84b7b5e8a4b84f44e1efb10c9b91a
  const X33: int := 0x4b5bae5a77a867ddbee3944524f8e2ec8c2a6172c14bd432cd42148248127d15
  const Y33: int := 0x739476e0b38471219875a4580e6742ecb6aecba57b8c0fa0d923b8de209a77cb
  const X34: int := 0x33bfa90cc1b9df13e106ffcf6ca898d06b22d51df337243bf85b3f232869fcdf
  const Y34: int := 0x53b120db6327cae59fa5fff109017d2df4acef01d2f10981439d824fb2da81d9
  const X35: int := 0x444929347c2ded029bc19558b0f69a4492017a9c35b370711e08222bc0b9efc6
  const Y35: int := 0x77785ec5cbbdabd645a3251e7da57c8ffc39158c0d7b25a4211c2aff2e1d6245
  const X36: int := 0x2b6b892ae94b454b2c2d92bb947fc4d506d173d281779c2c153c001ded42d3d0
  const Y36: int := 0x7f1cf64e0e180fc4d6e12c1b5c5285f376e979616a52c94a0dea4d48c5880cd2

  lemma Reach36()
    requires IsPrime(Q)
    ensures Reached(ED25519, B, 0x1000000000, X36, Y36)
  {
    hide IsPrime;
    hide Reached;
    Reach30();
    Bit0(Q, D, B, 0x40000000, X30, Y30, X31, Y31);
    Bit0(Q, D, B, 0x80000000, X31, Y31, X32, Y32);
    Bit0(Q, D, B, 0x100000000, X32, Y32, X33, Y33);
    Bit0(Q, D, B, 0x200000000, X33, Y33, X34, Y34);
    Bit0(Q, D, B, 0x400000000, X34, Y34, X35, Y35);
    Bit0(Q, D, B, 0x800000000, X35, Y35, X36, Y36);
  }

  const X37: int := 0x1b9175b7fc19a618d5848c5761c2b760529e3eaaac087b51112b1fcb422e04b4
  const Y37: int := 0x1730a59fff4717e258cc853dece7c5f70ecb52cc35320a53cc3838c844ca68e8
  const X38: int := 0x01371cf67fe47f8ef91246ae0485874d601e31984d854224569ac29e56a6ee87
  const Y38: int := 0x71cad7d8350661ce798e332a98ee5b62f8431fd9ac5a4a48856ce9c4c5b64c73
  const X39: int := 0x63bd671eca1e6accd0f980845b163ca4e927d2a74d198e78cccd8fcaa6aed372
  const Y39: int := 0x0460cc32f5d27a15f4294faa20a99112392cdbdc8515e9caa1ff4887d22a6e7b
  const X40: int := 0x0f6c3a96e0032a9394337a02ffb2c83ba70efb8f566feab530fc90fa3b4710e5
  const Y40: int := 0x3d4e97e286378675038a4b58e84224ee515e1d6697ac79389f78479be167635a
  const X41: int := 0x3b13c71c2a90bd24c51df6bd138c5d16208a9ceaaa8eb34a69469fade6abb440
  const Y41: int := 0x14890a7ab24817b2bba826792e8fd342a6f705af800252616435be180d16dc54
  const X42: int := 0x184b48cb455000542259174da9a6eb83a928b2835182278abb6ec091e388a820
  const Y42: int := 0x3ee0e07a03dc33a9dd60c2682380ef736679a5e383faf453fe324dba26e77c33

  lemma Reach42()
    requires IsPrime(Q)
    ensures Reached(ED25519, B, 0x40000000000, X42, Y42)
  {
    hide IsPrime;
    hide Reached;
    Reach36();
    Bit0(Q, D, B, 0x1000000000, X36, Y36, X37, Y37);
    Bit0(Q, D, B, 0x2000000000, X37, Y37, X38, Y38);
    Bit0(Q, D, B, 0x4000000000, X38, Y38, X39, Y39);
    Bit0(Q, D, B, 0x8000000000, X39, Y39, X40, Y40);
    Bit0(Q, D, B, 0x10000000000, X40, Y40, X41, Y41);
    Bit0(Q, D, B, 0x20000000000, X41, Y41, X42, Y42);
  }

  const X43: int := 0x5a04ae1195edf508262196e9d23c259c937f81769b2258542b78e3c0fb135c34
  const Y43: int := 0x676667092118acccece87e75f0a6825c5952f92dd499943efe831f9712c5e8b9
  const X44: int := 0x52ee53b981dfbc41ddaa5ddc2754c4175f4811aa45f8e2b19a425657c238a83e
  const Y44: int := 0x7eb0a1be3400dec87b388cad51613957643cdf0595b891cc6f925fb36da7f1c3
  const X45: int := 0x501fe138924e05cc1a05129d241e6b5e9d46cd8b0bed38eb42ee20678a1d2425
  const Y45: int := 0x2f8022ecede0189c215882ca856dae0f7b4daf6675181a558ebd11e6911cee4e
  const X46: int := 0x2d8294fd94996032b73b4f09a0ff645ce8db39db5463f0fc57156a1d390a3b68
  const Y46: int := 0x3a8a6faa67c6dd905a4fdeb95ac127c9fde3ac017c847ceadb2c55f1445af624
  const X47: int := 0x56857d02674276af0099d63b04a39544a23b841cb2ef18688ba9500361e4da1d
  const Y47: int := 0x0b543a6720e318d2647915bcd619efcdedcf7fed0657be45d27db284290e72ce
  const X48: int := 0x52a837bc7a7bc9459bcc2ecf80f74d9ed99def0342e18cfbe8e799fbc504fd52
  const Y48: int := 0x50d6460185d8924e5485f23f36a98c86053514d163547adab6fe91478a411196

  lemma Reach48()
    requires IsPrime(Q)
    ensures Reached(ED25519, B, 0x1000000000000, X48, Y48)
  {
    hide IsPrime;
    hide Reached;
    Reach42();
    Bit0(Q, D, B, 0x40000000000, X42, Y42, X43, Y43);
    Bit0(Q, D, B, 0x80000000000, X43, Y43, X44, Y44);
    Bit0(Q, D, B, 0x100000000000, X44, Y44, X45, Y45);
    Bit0(Q, D, B, 0x200000000000, X45, Y45, X46, Y46);
    Bit0(Q, D, B, 0x400000000000, X46, Y46, X47, Y47);
    Bit0(Q, D, B, 0x800000000000, X47, Y47, X48, Y48);
  }

  const X49: int := 0x3f30ee695b236bc74620afb10469324b45c8201a45cbd6954239e64086f3cd53
  const Y49: int := 0x414231531dd52e5555640faeae608c4a0c205a04f56d187ba80855dbc0478370
  const X50: int := 0x0ebc38c54fd6aa12dcc60ca5c72ed865b7c35a6bfcf98778c235307d306de6e4
  const Y50: int := 0x04b3a1d9f2ef40fdb3e31ddd56a08526dbda15a4f58d78162c7bf23886763ce2
  const X51: int := 0x3b75696730dc8d8cfb7ddb23241cc7ce78a13e6a377db5da527a1058e60e49db
  const Y51: int := 0x34d031744cd2d9cfef9f9ea654000016fb3e8b4a8c44198760f46016166deaa9
  const X52: int := 0x006b2bd5d00fab38ceca21a27d6aaec82626b14b555d859527718f8ca404eba4
  const Y52: int := 0x727340c27a15f6ab3d80547f0827c56ab1ba33bc30d1ef3909ea9a3af10c67e5
  const X53: int := 0x1f4e8938dcf3a6d5907d88572bfb36a8191aa9d05bae8f68d3f120ea165b2bd8
  const Y53: int := 0x5a8b0c6f649f8e191aeeca653774a6ddfc8cf8ae3d4d232e2148433b9bda19cc
  const X54: int := 0x08fe8df51b345989553484e20f600c2e46f4ed256f3c8dcc1615b872f0c2b925
  const Y54: int := 0x2738e06810f4cec5d894c91432edeab5ba632e54d06f494b751bba44bc93abf8

  lemma Reach54()
    requires IsPrime(Q)
    ensures Reached(ED25519, B, 0x40000000000000, X54, Y54)
  {
    hide IsPrime;
    hide Reached;
    Reach48();
    Bit0(Q, D, B, 0x1000000000000, X48, Y48, X49, Y49);
    Bit0(Q, D, B, 0x2000000000000, X49, Y49, X50, Y50);
    Bit0(Q, D, B, 0x4000000000000, X50, Y50, X51, Y51);
    Bit0(Q, D, B, 0x8000000000000, X51, Y51, X52, Y52);
    Bit0(Q, D, B, 0x10000000000000, X52, Y52, X53, Y53);
    Bit0(Q, D, B, 0x20000000000000, X53, Y53, X54, Y54);
  }

  const X55: int := 0x1a2403cc5ef2ad62b4f09afac79a48a5ba8ef74f3321b65a716164d49b141c74
  const Y55: int := 0x7779fbcd8be50c9b021180ac97a544ad0c21cd1f3bd263ce5903b9afe4fd76f5
  const X56: int := 0x71dd75fe35761c01a48597ec730bc33237902fd4ad8612cbed1031eebdf40de4
  const Y56: int := 0x39674a4532078e34378667beae5cb55f814ead9bbaf7e01b3b69533e9f88a411
  const X57: int := 0x300d6b0bd6734e6170b814d2f28c82de4a2debb1c5589bc8b2671e0320587090
  const Y57: int := 0x40ca073d0343190c7f042b83c7bcabd3fa997de98f4bf0e2bdc4a7bf5c55fc81
  const X58: int := 0x42545a6a59885c28266ae07652d24503c2fb5830c85817f6963981168cbec8f9
  const Y58: int := 0x706406cdbd1ce0bdbd9ea269bab2e060b129d6da0f1e6983fb9b15672c2eb507
  const X59: int := 0x6c1262e3f8a43b517673a0ce209f76cb22d7cd7e54fce6ac235711e441703a02
  const Y59: int := 0x193841cf1e0f528b9a8d508a276202a84f1fb096c5ed013a7f486f0d269c007f
  const X60: int := 0x57426aefc21be9ccf162e23d25ac3002ba8534351e65613f870f690f2fd46cf5
  const Y60: int := 0x6b45b002fb4e8a6f59a6ffb006ed71f75434217333b266325204c7d1ac2e1f34

  lemma Reach60()
    requires IsPrime(Q)
    ensures Reached(ED25519, B, 0x1000000000000000, X60, Y60)
  {
    hide IsPrime;
    hide Reached;
    Reach54();
    Bit0(Q, D, B, 0x40000000000000, X54, Y54, X55, Y55);
    Bit0(Q, D, B, 0x80000000000000, X55, Y55, X56, Y56);
    Bit0(Q, D, B, 0x100000000000000, X56, Y56, X57, Y57);
    Bit0(Q, D, B, 0x200000000000000, X57, Y57, X58, Y58);
    Bit0(Q, D, B, 0x400000000000000, X58, Y58, X59, Y59);
    Bit0(Q, D, B, 0x800000000000000, X59, Y59, X60, Y60);
  }

  const X61: int := 0x205aa3463e7e41af60f5cff4853fbd6f748aa1b132fe5308807d22c5030b48f5
  const Y61: int := 0x320b08e8ec6153e2be9955058bd26993bf50353e040c556ef8976663448735aa
  const X62: int := 0x592c8b8843ca1f7d9ee692d5e29bc1612b0a98bea402c5c2e1e8253b65feea37
  const Y62: int := 0x42a352d8dc52fef9017cbe617cdbee3aaefed1935aa62f8679af6f2a1d00b5e0
  const X63: int := 0x041c030fbca90151ce0d0064a815e03825ed77a4ac634604ac7137bd3713af22
  const Y63: int := 0x72467625ee43fb7ac67dc71c655e5c16e4e97c2a3d4445e7e9b33fcf0780f989
  const X64: int := 0x6222bd88bf2df9d5d44b60cfb4a08a960078db7ed51a35eb3e0b6b8ff4eda202
  const Y64: int := 0x0325bb42ea4ed025dd6bdaed261b7c4f5410b608ba902b068f1efa5782e45313
  const X65: int := 0x023bc7abc84cb4c4ae5fa62b25a0a8114e8406d9bb93f2091142aa2d8bdba597
  const Y65: int := 0x4d2b97a739eceb14c95020371d7206e904f94b8f2c620dceed8511df0f29c9ee
  const X66: int := 0x6d5066cf7137b4a5980aa453b672c84797fc6856f0ef5cf0c4be33fbbd39d169
  const Y66: int := 0x54bb8cd82a0a87c883abe35abeb81857f95200b4222ea95b5cb347115219a417

  lemma Reach66()
    requires IsPrime(Q)
    ensures Reached(ED25519, B, 0x40000000000000000, X66, Y66)
  {
    hide IsPrime;
    hide Reached;
    Reach60();
    Bit0(Q, D, B, 0x1000000000000000, X60, Y60, X61, Y61);
    Bit0(Q, D, B, 0x2000000000000000, X61, Y61, X62, Y62);
    Bit0(Q, D, B, 0x4000000000000000, X62, Y62, X63, Y63);
    Bit0(Q, D, B, 0x8000000000000000, X63, Y63, X64, Y64);
    Bit0(Q, D, B, 0x10000000000000000, X64, Y64, X65, Y65);
    Bit0(Q, D, B, 0x20000000000000000, X65, Y65, X66, Y66);
  }

  const X67: int := 0x6b66159ac8702d4e34073b76629deab2d3aa50942db5b00e4a73e8be859362a9
  const Y67: int := 0x19dd4bef38efd504e49b3a5d584432b9ce630883226031e75fee1a22c8ca96c5
  const X68: int := 0x71ac99647b61b9eca6f0c23432a518f738aee708d5932d4ef0f172240250a226
  const Y68: int := 0x3a96c2c028ebe5f48913be30147e41bc5e1cab9595d5404138a9aa1b5574cf25
  const X69: int := 0x221b138a1bbb6548d2ef719bbaee436114e7cb6b3225dfb94c327667ec45772b
  const Y69: int := 0x7951b295fab7fbffa46c08f6979bb32060974fb037bf5998d0ba5a38180cad84
  const X70: int := 0x1c1b0d95db6a057eb34f28beeda9f6bbb5315285de2804d15c3b186bdb3f5c28
  const Y70: int := 0x57bd5de4e0056cbb4d98abef9d1e0ed6cab1628ac08e36073e31d00a9ac3c5d5
  const X71: int := 0x4f846fad2eefb8c948a8bd3a87d8b4dfa0a0ab643e724ebb1c91437c567c9f47
  const Y71: int := 0x0a2640ccde505da1aa9227bacaca13d49a67a199f0e16aa9f86c2a7e1bf02d2d
  const X72: int := 0x1f6a1fd8cc0e05b2742ba0fc0369b5247670543637dd033e64dbce90b2f23e9f
  const Y72: int := 0x779964401ee869a9b31c0ef874a86440ba85d25c2ce932bd31a0865869605e19

  lemma Reach72()
    requires IsPrime(Q)
    ensures Reached(ED25519, B, 0x1000000000000000000, X72, Y72)
  {
    hide IsPrime;
    hide Reached;
    Reach66();
    Bit0(Q, D, B, 0x40000000000000000, X66, Y66, X67, Y67);
    Bit0(Q, D, B, 0x80000000000000000, X67, Y67, X68, Y68);
    Bit0(Q, D, B, 0x100000000000000000, X68, Y68, X69, Y69);
    Bit0(Q, D, B, 0x200000000000000000, X69, Y69, X70, Y70);
    Bit0(Q, D, B, 0x400000000000000000, X70, Y70, X71, Y71);
    Bit0(Q, D, B, 0x800000000000000000, X71, Y71, X72, Y72);
  }

  const X73: int := 0x6f0a87af6e0f4a05fa7067cfecd4f98dada3791f714a66648dbb5cbbfd4f326c
  const Y73: int := 0x6b6013813505927dcbcb6a42e887cc1d5fca175e4cd226be6009248c6c6e36c6
  const X74: int := 0x1f90c7ef4610dd083b3d64bac47574d9da326b536b9a6eb0f6c3134a847a0564
  const Y74: int := 0x63344ccbe4169ab97a13c3ccb097c0f4fdffbcf6284412303c79a1c8ce3a2f7b
  const X75: int := 0x47ac42e7c59481a928348d7aaaade88b00b7aae4e73ebe0dd20e33092dd34e07
  const Y75: int := 0x28a6c1d1356c10ebea15cbfd161ae974f3b2a4f51ed06403c2f09bb58f7a8924
  const X76: int := 0x22e2c039067920c42980dcb3a905fc91601c2b34e819ce1532ada4a5fc39d5cc
  const Y76: int := 0x631cf9945a09bf26d7e595b3f8e3390696870512820df63c5418577089e1a8bb
  const X77: int := 0x1a62e85ba4a14a3f24f9dca8529ca842f5c7f18a3f429886d6b13673649ad53d
  const Y77: int := 0x1f6d17d9a1e5c5d8cbb98100757e5183551d00091183e6a5e1eb0dd514c8bdc5
  const X78: int := 0x36b566a2c0f8e36e760992eb83d509238731939dd9dd0d19513f52e1e9e4f9ea
  const Y78: int := 0x1bde4ad0433ee4e19e734c558978dd945ed244e38414387a43e70232ed39bb3a

  lemma Reach78()
    requires IsPrime(Q)
    ensures Reached(ED25519, B, 0x40000000000000000000, X78, Y78)
  {
    hide IsPrime;
    hide Reached;
    Reach72();
    Bit0(Q, D, B, 0x1000000000000000000, X72, Y72, X73, Y73);
    Bit0(Q, D, B, 0x2000000000000000000, X73, Y73, X74, Y74);
    Bit0(Q, D, B, 0x4000000000000000000, X74, Y74, X75, Y75);
    Bit0(Q, D, B, 0x8000000000000000000, X75, Y75, X76, Y76);
    Bit0(Q, D, B, 0x10000000000000000000, X76, Y76, X77, Y77);
    Bit0(Q, D, B, 0x20000000000000000000, X77, Y77, X78, Y78);
  }

  const X79: int := 0x0fc8f365bb4b04e275d358bd3c277745c565eedff84179ee72cbc5a3e38fe7b2
  const Y79: int := 0x16f91c8191db1e7817455b6a395de2b0f4396697920ba0cd4874e2b534937b24
  const X80: int := 0x608de273a9f6a534219d7aaede3cf65a81e4dc03d7a2765eced1d2b7be4610f4
  const Y80: int := 0x3b31d0113f98d81ab1312fb2837aa9c8dcc7960f84eb371358c6d841f67144fa
  const X81: int := 0x08d1e75a33bf363f2ef64faa0ab5f9582d1181b793ec9452ea93a3011634d581
  const Y81: int := 0x47dd939350f06a41ea9c3d889d127155d0275926d05b5bc43977b5ccae42cf1a
  const X82: int := 0x0b2fcb60a19e6a0a29bcc1e5224ee0acfd648e6ee2143f90a5f5aa1c6d51c96f
  const Y82: int := 0x6301b568e9c613866d76b4c693de25e83435344795fb78c3c5e944a1f33239dc
  const X83: int := 0x0b216ceec26c5cc827ebff75a3b41630d8925bcf8ae53c7dea348f4c0dd3ae27
  const Y83: int := 0x563053b0dec5518f24c57a3f9138916ec287602e8a557819ad77aa2a5312bac3
  const X84: int := 0x3f748617ca63ab3e44c6e34f63e7328ea56a2a146da34368a57dca181254fe02
  const Y84: int := 0x0fed89e6420fc47b3938a2891ba9acee4cbb2899ee4e9ca15a13dc527dc1641e

  lemma Reach84()
    requires IsPrime(Q)
    ensures Reached(ED25519, B, 0x1000000000000000000000, X84, Y84)
  {
    hide IsPrime;
    hide Reached;
    Reach78();
    Bit0(Q, D, B, 0x40000000000000000000, X78, Y78, X79, Y79);
    Bit0(Q, D, B, 0x80000000000000000000, X79, Y79, X80, Y80);
    Bit0(Q, D, B, 0x100000000000000000000, X80, Y80, X81, Y81);
    Bit0(Q, D, B, 0x200000000000000000000, X81, Y81, X82, Y82);
    Bit0(Q, D, B, 0x400000000000000000000, X82, Y82, X83, Y83);
    Bit0(Q, D, B, 0x800000000000000000000, X83, Y83, X84, Y84);
  }

  const X85: int := 0x08f050e6e4bbb5e43b756c82a0ffd60723f78c3fdfb49c50378a1083808c3cf3
  const Y85: int := 0x38900048f0768542b4b9354736b6880632a94601a17a15adf4f233924875ee62
  const X86: int := 0x2583374456f20c85e78e820263e1507524897a5232050bd0ebfc357d04b900bd
  const Y86: int := 0x62d1c4fffd5ac72c7e7dd52c2bc9ea4077ebb7032a39291e0212da60cbcea18f
  const X87: int := 0x05b4079d8c7a5a10bb68984233b2726bd95196ae2b50e6052441fc4e5b98881d
  const Y87: int := 0x2329432253e9aa57901c1369e57e54e4a363d2cfe69069108c833fa8d79f612f
  const X88: int := 0x69d98b5ecc35d56c97c0bf312955d199befe116b417d70f5f57e2dfd0af81ce5
  const Y88: int := 0x3e26d487fbfe36ab44e0ca3b248fe94bce92a69b8154d50e2d5481f8259f4e8e
  const X89: int := 0x62a8a839f45660759f741c7892703326e4ad11bd9e102c0770af6ad49dd4b6d9
  const Y89: int := 0x3d45d6c61b8a03c29d11cb1e9660112995fd3bc8c1553ae897448b613555bf3b
  const X90: int := 0x4e1c036204e123f311e8da4e3fa212fcf0acafbded425b71a66b0dccb2500e7e
  const Y90: int := 0x6a5908d961f00a62a2ac904fd824f6932f0e735f257a7d0d273d61736f1bb1c8

  lemma Reach90()
    requires IsPrime(Q)
    ensures Reached(ED25519, B, 0x40000000000000000000000, X90, Y90)
  {
    hide IsPrime;
    hide Reached;
    Reach84();
    Bit0(Q, D, B, 0x1000000000000000000000, X84, Y84, X85, Y85);
    Bit0(Q, D, B, 0x2000000000000000000000, X85, Y85, X86, Y86);
    Bit0(Q, D, B, 0x4000000000000000000000, X86, Y86, X87, Y87);
    Bit0(Q, D, B, 0x8000000000000000000000, X87, Y87, X88, Y88);
    Bit0(Q, D, B, 0x10000000000000000000000, X88, Y88, X89, Y89);
    Bit0(Q, D, B, 0x20000000000000000000000, X89, Y89, X90, Y90);
  }

  const X91: int := 0x7fe8906b455e9f3a49464810d3e6b8e5fef5d17226ddea3b18f08e2ff8552d6f
  const Y91: int := 0x1300ff9d28f135030203b137ea4a3ec18d5dd0dd6b29a6ee7040b97b336976d3
  const X92: int := 0x1e34443347f9e627b3531157faab6eaca1bc3114df4a1423cc12bf8417b5d622
  const Y92: int := 0x295955a5ed061eca7f87b9485666ba9489ec20a9c484224dc920350bb4a6fc79
  const X93: int := 0x4cab819c06b2f861b4be5b06a918bc314bf29f56cff389ae2ba8abd5f1f5e156
  const Y93: int := 0x1f10fb18bd5ecfe633b53936f70ce8e58b6a864e679297770f2b38160176681f
  const X94: int := 0x7c686b90cf6ff6a3a59cc7d8a5e00a2c9b2204decf83f96bb56b53ef630df083
  const Y94: int := 0x000f1deab1d3a4a3d2528d9103d118fafda873ccf0a518c45821d51a7fd71533
  const X95: int := 0x0aecf4e5a0c4c4da709921a44dca45965f89a3215bb5445cf72dddf4ade53a2c
  const Y95: int := 0x19304020c00e6169712d6050734bf5c51bd0af80b5ba4a6a0ba008e965216807
  const X96: int := 0x51f4ff8c599b1c96da82941520a9f5abf4a31eb8b84fc95056145ceb3b5775d0
  const Y96: int := 0x35ac9588d46e41f3f6f99aee3852eeb4b12e807807d4bd1b7f8406b0d7863ac1

  lemma Reach96()
    requires IsPrime(Q)
    ensures Reached(ED25519, B, 0x1000000000000000000000000, X96, Y96)
  {
    hide IsPrime;
    hide Reached;
    Reach90();
    Bit0(Q, D, B, 0x40000000000000000000000, X90, Y90, X91, Y91);
    Bit0(Q, D, B, 0x80000000000000000000000, X91, Y91, X92, Y92);
    Bit0(Q, D, B, 0x100000000000000000000000, X92, Y92, X93, Y93);
    Bit0(Q, D, B, 0x200000000000000000000000, X93, Y93, X94, Y94);
    Bit0(Q, D, B, 0x400000000000000000000000, X94, Y94, X95, Y95);
    Bit0(Q, D, B, 0x800000000000000000000000, X95, Y95, X96, Y96);
  }

  const X97: int := 0x568de690133ca63f63c08161d852682fa5696c0ee66bf8f3ec729b6a71bf9741
  const Y97: int := 0x4c48220992e8e64741dcdc433a0e65b43a5bae7f4d743e3d1bfdb123773039e8
  const X98: int := 0x3342c4717d55221def46b89fdd237cf4e9528170f9b524bc6e730cc4663403da
  const Y98: int := 0x50676cdf00c935368d54ccf1fa7dd2671cd7ea46686e61fca49dc6a85b6937c5
  const X99: int := 0x3396978bfc50b33d58eb8dccc52201ef36dfd27b914d8aa86f6ba45d29424d9a
  const Y99: int := 0x5ccf1359113c127dcb9d35bf9107cccb453eac7ca7ddbdabb1d0ca4ac8073393
  const X100: int := 0x3faa2a093a19a02424f65a10955101f4dc015c43b2dfce8e001507abd741b845
  const Y100: int := 0x7a1de10dacfda389ca663b15574bdc8ae8c5b6e7cee647e77b11ddbfc6eb8edc
  const X101: int := 0x30f9cd3076c51c96a9baeda10ec893105d920f022947716064e32717aee8e3c5
  const Y101: int := 0x2caedfaa420120c6711921684f9f5a2b8079045fbf3a4efd7e4fa7bc8cbdb095
  const X102: int := 0x6070951e96e618be7d750fa819593ecbfe9c26972471ebed72c093714b7e6e90
  const Y102: int := 0x7bb8b8086b2c8f273841de642871dc22c7adb51944d64304c0fe5f4c1d3e6689

  lemma Reach102()
    requires IsPrime(Q)
    ensures Reached(ED25519, B, 0x40000000000000000000000000, X102, Y102)
  {
    hide IsPrime;
    hide Reached;
    Reach96();
    Bit0(Q, D, B, 0x1000000000000000000000000, X96, Y96, X97, Y97);
    Bit0(Q, D, B, 0x2000000000000000000000000, X97, Y97, X98, Y98);
    Bit0(Q, D, B, 0x4000000000000000000000000, X98, Y98, X99, Y99);
    Bit0(Q, D, B, 0x8000000000000000000000000, X99, Y99, X100, Y100);
    Bit0(Q, D, B, 0x10000000000000000000000000, X100, Y100, X101, Y101);
    Bit0(Q, D, B, 0x20000000000000000000000000, X101, Y101, X102, Y102);
  }

  const X103: int := 0x1ec0eb040164dd81f57ebc3a26c3e8606154303a1e5de3af27b1afd99d27703d
  const Y103: int := 0x3df62c38b3077c694268ed7aae9a3329999e190eb81f07326e5cc3a1d1a42cda
  const X104: int := 0x1924416956ea2c1269062588569b18178011ea7cba1a3266284f48aa01d5a90f
  const Y104: int := 0x0c8e28127b7dcdd206fb6fee96eb88cfc7db7319826ac8cdb8b1fb8adaf021de
  const X105: int := 0x2898ffaab663ed49ec57038cecd898fb84076bf49bf6f5c4403aff28ce974493
  const Y105: int := 0x094f3b96ab6c9477e759d6bcb9934557e613a0f4fa4fb6c6f4b3bc46f335163d
  const X106: int := 0x34e2ddf5115701105d5d590f6617ccd7716c01b247948470c1514f12016bf75a
  const Y106: int := 0x1bdaea88b78eb71777558f7452cd868e6d7fc33a0f85c3d2038bac585c1fd926
  const X107: int := 0x4cb56bd83d7bb25558c34ece98dd878ca5fe850aa79f4bf656269fedfe165cc8
  const Y107: int := 0x5d1f6fb463251914535bd81a9f9a8aea4d5ea5309b86c4eb8fb4a7fa15a03865
  const X108: int := 0x49761c57ce3c8c4f1435d495903e2f536f3be3712e76af8d0b5a8b7d1ebc8fac
  const Y108: int := 0x3225035e1065094ef32d7f3e7a6f8ff2748025f96e0c0b44eb35576b61e150a8

  lemma Reach108()
    requires IsPrime(Q)
    ensures Reached(ED25519, B, 0x1000000000000000000000000000, X108, Y108)
  {
    hide IsPrime;
    hide Reached;
    Reach102();
    Bit0(Q, D, B, 0x40000000000000000000000000, X102, Y102, X103, Y103);
    Bit0(Q, D, B, 0x80000000000000000000000000, X103, Y103, X104, Y104);
    Bit0(Q, D, B, 0x100000000000000000000000000, X104, Y104, X105, Y105);
    Bit0(Q, D, B, 0x200000000000000000000000000, X105, Y105, X106, Y106);
    Bit0(Q, D, B, 0x400000000000000000000000000, X106, Y106, X107, Y107);
    Bit0(Q, D, B, 0x800000000000000000000000000, X107, Y107, X108, Y108);
  }

  const X109: int := 0x654b39f4650804bfb7c76a3d254377050002240e2f794f8de21de5640fdc60a9
  const Y109: int := 0x50ce7be2f1011218849a34ce62654414a8dcaea8b4db9b45dce3b76a6b121996
  const X110: int := 0x091605b338ea1bd98bdfae06ba25bd540525a3b02efa65df30de5c6e8c637d0f
  const Y110: int := 0x1df405521e9a2232baf654aa3d2f66bdd6d57fd5bac96f5aa5f8ad2864bf8cc7
  const X111: int := 0x4606fdec56d46970938a8f9fa5f24624f5b9c6f488b72cb1fc87e4feebbb1faa
  const Y111: int := 0x0f00d9e6656d8243e0350fa5b89beefa58e9af955ed650a6d90cce344ecf664e
  const X112: int := 0x4339fa86a23242851a16afc3ab05b352a7b4bf53599a49dd7e29d364fc3a757b
  const Y112: int := 0x6d07cc3462bae9160bbebb997510817040767faa9dbd13f158a5fe8a63a34b0e
  const X113: int := 0x62332ee4f8ee5e56398dd304eca6ffbcde556467ba2c0d5fabb64e9736c701eb
  const Y113: int := 0x3e1bfb3c0218cf9f7e6a2f47f179f29b0ad68235929b4921fda74bc89fb8ef65
  const X114: int := 0x7b9e0081b2e20f4f3d3f6d57f7bf977b2f192142a2a9e40b1aacd15140c88b2f
  const Y114: int := 0x093854716ef9794d2057036ff3f97da686fa3a1784c42279e8abf1fcc42b858c

  lemma Reach114()
    requires IsPrime(Q)
    ensures Reached(ED25519, B, 0x40000000000000000000000000000, X114, Y114)
  {
    hide IsPrime;
    hide Reached;
    Reach108();
    Bit0(Q, D, B, 0x1000000000000000000000000000, X108, Y108, X109, Y109);
    Bit0(Q, D, B, 0x2000000000000000000000000000, X109, Y109, X110, Y110);
    Bit0(Q, D, B, 0x4000000000000000000000000000, X110, Y110, X111, Y111);
    Bit0(Q, D, B, 0x8000000000000000000000000000, X111, Y111, X112, Y112);
    Bit0(Q, D, B, 0x10000000000000000000000000000, X112, Y112, X113, Y113);
    Bit0(Q, D, B, 0x20000000000000000000000000000, X113, Y113, X114, Y114);
  }

  const X115: int := 0x7ecfa6b215265291f32d21771e88699aac3133fdb93ef3a479f95e2fa8742940
  const Y115: int := 0x10958b5cdaf36afe557b7e60184207ce6d81883edf035bea63cb7da46c4720c6
  const X116: int := 0x6bda13918dcbaf8529d6326ae7a9c278b72417c2188c5ea4f062fc50639295fb
  const Y116: int := 0x2c3fa803b162ee887d0d97a6734866f992f846625f314117075da54bb6c20a36
  const X117: int := 0x19af956d2b5b4ac28b0c67889f19ad66a40f4bca1625e2007963e8a98a70b14a
  const Y117: int := 0x5e228bb5fbae687754307287833c3245a1ab34684a5a69174f72b460ccb69d8b
  const X118: int := 0x45bf322997c4469aac6d1e4251fb3490e60e7c0cd5cdd6f5cfb9bbc53587b9f1
  const Y118: int := 0x529d884884075753fd9a2f9ba021ff427fea7b9773f0d4885da5edc024c69e66
  const X119: int := 0x39632228d7d1471800e549128f91a680c9a64e37ae27d919a2609ce21522c607
  const Y119: int := 0x6f59557cabbd86e8e4d546e2aae6ac26b27b671ebd049539991e9ef27e00e2e8
  const X120: int := 0x4da4821314574d4fed4dcf692c8b15b99b73f13633210333ce7871359b6e6424
  const Y120: int := 0x314016034673d2d20529bc93a2dab6e462bcb5f66e1f4a6bf2170759a40a6e65

  lemma Reach120()
    requires IsPrime(Q)
    ensures Reached(ED25519, B, 0x1000000000000000000000000000000, X120, Y120)
  {
    hide IsPrime;
    hide Reached;
    Reach114();
    Bit0(Q, D, B, 0x40000000000000000000000000000, X114, Y114, X115, Y115);
    Bit0(Q, D, B, 0x80000000000000000000000000000, X115, Y115, X116, Y116);
    Bit0(Q, D, B, 0x100000000000000000000000000000, X116, Y116, X117, Y117);
    Bit0(Q, D, B, 0x200000000000000000000000000000, X117, Y117, X118, Y118);
    Bit0(Q, D, B, 0x400000000000000000000000000000, X118, Y118, X119, Y119);
    Bit0(Q, D, B, 0x800000000000000000000000000000, X119, Y119, X120, Y120);
  }

  const X121: int := 0x22423cb8e82129da6655d94354181feb5b1c789806240b135c4da1bd156d734c
  const Y121: int := 0x627dcf9be9be798eb639f6b776ce9ef34573c7a7f1d1ed220b1a23156f08cdb4
  const X122: int := 0x04230253b946f9c176ea49e7fe2b913a35738999750b1e21555104dcab320bb4
  const Y122: int := 0x04db9dd92f8d939e6e4d0b0245ef57a62d793b173e977b8fa69558741d1e5afc
  const X123: int := 0x63b06e648bf7aa8e8bbf75c0f3e0bc5d438683b063be9f4f09de91589756d7c0
  const Y123: int := 0x1b17d88ed99541bf1b2cfd50b7d4d87ffd627bb708d0c2445c68249be08bae16
  const X124: int := 0x0b2cea0029ee963c0034b61bf19e384435f14554a7d297b5144838c38e375586
  const Y124: int := 0x47ea95da28d39aaade5edb8ed941c687603cfdd1508776e96d6683199e99daea
  const X125: int := 0x06e3d157d1cd96bb4ed4cb069497e6041334d698b1640a59a44a45cde613aabd
  const Y125: int := 0x72f5ce3c9ce0c93d9339b91978f1d9c688b56b3a3850627c7d7f93c427456c7a
  const X126: int := 0x1f13202c95083f854583ff4cda13ef4b1e745a880460850e59e22c567d23ea24
  const Y126: int := 0x66336d356c381b7ef21109e7fdfd7ffa0085087eb55c4778ad42025c90275f48

  lemma Reach126()
    requires IsPrime(Q)
    ensures Reached(ED25519, B, 0x40000000000000000000000000000000, X126, Y126)
  {
    hide IsPrime;
    hide Reached;
    Reach120();
    Bit0(Q, D, B, 0x1000000000000000000000000000000, X120, Y120, X121, Y121);
    Bit0(Q, D, B, 0x2000000000000000000000000000000, X121, Y121, X122, Y122);
    Bit0(Q, D, B, 0x4000000000000000000000000000000, X122, Y122, X123, Y123);
    Bit0(Q, D, B, 0x8000000000000000000000000000000, X123, Y123, X124, Y124);
    Bit0(Q, D, B, 0x10000000000000000000000000000000, X124, Y124, X125, Y125);
    Bit0(Q, D, B, 0x20000000000000000000000000000000, X125, Y125, X126, Y126);
  }

  const X127: int := 0x1d4e70e7fa35c13ec61efe8d7b8ae9e621144c1eb2454c350920e4ac81360393
  const Y127: int := 0x7b2807a91ce09ff20a518d85be729e118ae448b51763e880abd15795ddc22e61
  const W128: int := 0x4c27afff3c45f32c952d3984e14e29a098e685c9c2e723e5fc8047ae60b7e824
  const Z128: int := 0x5f2c99e6526dc87d95f11eb626c29c3a90d0be1e51a4c49e5bbabd114bf5a66b
  const X128: int := 0x6e64e5552b88e48f8ab3c1be8cc36053b0e6ec0831ecbce6fbe2fd29680c969a
  const Y128: int := 0x383c510fa4cb58be6a9dfc9339b85145363911589ec5521025352a647bafd09b
  const X129: int := 0x655bb5ca314a7e2346f7896f50f3a0f4b83647cf80e5bcd0bf7f35ce7fdec499
  const Y129: int := 0x20f486aa7d4091f322075dc1654fb220af4386bf06e5ff04ef74d5ead3313afb
  const W130: int := 0x6f74b17702a52b46d272a98a0fc7ed4326826ac719d2e86d00bc54bb1079321b
  const Z130: int := 0x5b65c7fc4d7ed02c667f72e5edd20d1ff2aa053c2b584dda59a13834dcaec477
  const X130: int := 0x7ea78304507728dd99f0086fb9e090c5967f5f6a9c5d8fca0a1ec954baea07cb
  const Y130: int := 0x754069dc0e577bbaa4e6e641df716fef040ad634ffe944b8a97b3eb227cdd25f
  const X131: int := 0x2a43c009484b1faaf8dede6f6fe34d7fa6748fc3f5026e350d124f34823d3f0b
  const Y131: int := 0x3859dc451e6c19be1d7aa2a00dccafda2c2b74c58bf065827d8cdf29dcfe3f77
  const X132: int := 0x28e5aeef868576117d40fba6d18148a6057ad9fbe8de8d038e2742ded97176f5
  const Y132: int := 0x5b43a4a02f8caf711a26c0bef6bb06a23c670402778b076de5637978022a0142

  lemma Reach132()
    requires IsPrime(Q)
    ensures Reached(ED25519, B, 0x1000000000000000000000000000000014, X132, Y132)
  {
    hide IsPrime;
    hide Reached;
    Reach126();
    Bit0(Q, D, B, 0x40000000000000000000000000000000, X126, Y126, X127, Y127);
    Bit1(Q, D, B, 0x80000000000000000000000000000000, X127, Y127, W128, Z128, X128, Y128);
    Bit0(Q, D, B, 0x100000000000000000000000000000001, X128, Y128, X129, Y129);
    Bit1(Q, D, B, 0x200000000000000000000000000000002, X129, Y129, W130, Z130, X130, Y130);
    Bit0(Q, D, B, 0x400000000000000000000000000000005, X130, Y130, X131, Y131);
    Bit0(Q, D, B, 0x80000000000000000000000000000000a, X131, Y131, X132, Y132);
  }

  const W133: int := 0x20534e2733b0702e18c1cf7347d3802dc151b2a2422b0bf8700dbd72cf0c36ba
  const Z133: int := 0x4b080f81fc24a4b4bddde36fd00fde71c96627045563014bb46fb9a40a81ad98
  const X133: int := 0x3da2243ef89251b09e7cee395bd3fdfd30af1f0cc7e64b068ba2ff4286332cb2
  const Y133: int := 0x7cdeed1ac6878e126050b669a1890ac633a19abdd173c2f345c811c0b875defb
  const W134: int := 0x0fe09c4a8900e544e936020958905235ee23b83397332e7ab5fefba57ac0402e
  const Z134: int := 0x4299e44eb98bd72ecc4eaa24a5a639e68119abebd0d61fdc5e3c51a8b5802b41
  const X134: int := 0x7b0e8f22ec1f580d7746e9ac14a54c4bb3c96651de1465c7a85fc4719c902da0
  const Y134: int := 0x5cc0a11e4922a9c9049045bdfe524f051a0fb0ed5379e82be46378ac5dc3af91
  const X135: int := 0x643dc8dd49e334554c4b0b59d8dcf2974f418d855fa70bbf909e3f04fb850c12
  const Y135: int := 0x00315d19b6b2c4a49854d8f1959a2a7f7935ce655528bcf5d7379b14fd59567a
  const W136: int := 0x53acae5d55e1d02f8f6ef96823c2b53d34dde4819df21d4a0039546702e6bac1
  const Z136: int := 0x7b00c34a2cb493c70fe411b4661dc1885d91bebe3bc2d3ac64de9a116e441345
  const X136: int := 0x7f39e0519cde34ef435ce2a7be21029b6cf1de4d3f3113ba6b374d3672ce185c
  const Y136: int := 0x4ee68e54e99b5679cd29b673be7e929a4861e4b905d3dacc5424e7f8c8753ba1
  const W137: int := 0x386390cb42af5106c2a40ede0dd0348e110822c6bc696c39aae277271648a1fd
  const Z137: int := 0x17f3f9fbd70e2c8a0da707569cb9cf4c0c55713632fe542d1a5a182849fd5343
  const X137: int := 0x0d28853409e53c624231ca29326c0a8ccbcd4813f5982fecbb8d229daa062ece
  const Y137: int := 0x00d90c94ed07eaacf34f572f11590d0d6bba45c49f2f3a6075de2061325dc961
  const W138: int := 0x5726fee7ef018270c59e2b246f1e34e4e90f5116198f4a9979700ffdcaabf2bc
  const Z138: int := 0x7e9a0dc8e79f3f36d874344ac03a454d24aaf22f0ee85984cf0cc982f9cecd8f
  const X138: int := 0x7980936fd2e9a76cc798cbda2fc0ad541ec2744d12406939d7d51661a917c09c
  const Y138: int := 0x56d7d0975cf23a5ebb1b401d8d85891975b35e446b561079dfab669827faf080

  lemma Reach138()
    requires IsPrime(Q)
    ensures Reached(ED25519, B, 0x40000000000000000000000000000000537, X138, Y138)
  {
    hide IsPrime;
    hide Reached;
    Reach132();
    Bit1(Q, D, B, 0x1000000000000000000000000000000014, X132, Y132, W133, Z133, X133, Y133);
    Bit1(Q, D, B, 0x2000000000000000000000000000000029, X133, Y133, W134, Z134, X134, Y134);
    Bit0(Q, D, B, 0x4000000000000000000000000000000053, X134, Y134, X135, Y135);
    Bit1(Q, D, B, 0x80000000000000000000000000000000a6, X135, Y135, W136, Z136, X136, Y136);
    Bit1(Q, D, B, 0x1000000000000000000000000000000014d, X136, Y136, W137, Z137, X137, Y137);
    Bit1(Q, D, B, 0x2000000000000000000000000000000029b, X137, Y137, W138, Z138, X138, Y138);
  }

  const W139: int := 0x3f016a3cdc96dd4c45be8112d11bcdbef08a05ab0b58e4a185f58ad077459e28
  const Z139: int := 0x496c0e2d109314b8493dfbdfab624bfbbb81cc16fffca2ed3e455271a68e0f29
  const X139: int := 0x6961aaab37b03f1cfe2d3daf27a84a48d4d88a5f88cccfc80bd2ab34ac1dba56
  const Y139: int := 0x5a71785d54b24bf8d1248aa4725d8c5c82e1ccddb29e9a0b0de92fc212c9fb2c
  const X140: int := 0x75332bce246d8bfd0c9cba7fb512cd55ca2b8f98f16a2255430271d0a9e24fb0
  const Y140: int := 0x2766fdc8090fb8179e50f8965d28faa5dc7dc634642db9d90c514e6749d80076
  const W141: int := 0x1339f6e2373d1c5bcf2d2d5ba09e8d5bfe4ce052451128b6060643380649df1a
  const Z141: int := 0x6e5a9a384767243dab4263da05cdfe19b56ba6902f7f72fb9f9fcca97fa38d19
  const X141: int := 0x2c395471af15289624772acf3f8859140c9cbaa4cbd9f25e1a4b8ea3fe5d79be
  const Y141: int := 0x5c37f6bcfead4fe91825b4e540d1687dda71fcd367e3c064f425e4e36a8f5f09
  const W142: int := 0x6aebcef8f5a4418a25cf5451bc8a5b41cdaa69a6434a571fa0528223283ca351
  const Z142: int := 0x3fc8881da7870cfa0a62097c2971fad129cfaea920134d649fa976768dffadc3
  const X142: int := 0x0e6c87d81d9521f5015a9a65139d734aae08d33f7c5745783ef7d1c16570a5b3
  const Y142: int := 0x48449d43dd0f9b77425847e89acbca4a776e41ed2fd9f69e6a166fbc19206192
  const W143: int := 0x2b9b50f1a05d46fc2750d2cb6a3fabf589ebe119d644862ac86a8e585d59156e
  const Z143: int := 0x2f191a82ee304a455cc5586a8ebd45cd9fec3e5e4a7a8f63c92287ca7ad5d87c
  const X143: int := 0x0c9a58ff11b3b5a52e525da407e3f53b3f36591dd2e1a73745c5c28aa541e1fc
  const Y143: int := 0x7c7f39fab1ca12c5e9189c9212bea9a5c5304f87c76d11885cfe44c8fa32949d
  const W144: int := 0x68628e04ca4acc4de56208b8295399a2cd8a593de527073a1611af7c3f5e35a4
  const Z144: int := 0x055ea167cd0f2c2532ceae3934da1bd643a6788197660620a3db07bf8bc30894
  const X144: int := 0x1c08aa4b58e3694f3479b6cca3d7ebc1f5ce7c7be450eaa3c0e722c9ef341800
  const Y144: int := 0x4088acf7361fda921091fa4070cfba9bf90c39710760219062ecc1a30a4f85ca

  lemma Reach144()
    requires IsPrime(Q)
    ensures Reached(ED25519, B, 0x1000000000000000000000000000000014def, X144, Y144)
  {
    hide IsPrime;
    hide Reached;
    Reach138();
    Bit1(Q, D, B, 0x40000000000000000000000000000000537, X138, Y138, W139, Z139, X139, Y139);
    Bit0(Q, D, B, 0x80000000000000000000000000000000a6f, X139, Y139, X140, Y140);
    Bit1(Q, D, B, 0x1000000000000000000000000000000014de, X140, Y140, W141, Z141, X141, Y141);
    Bit1(Q, D, B, 0x2000000000000000000000000000000029bd, X141, Y141, W142, Z142, X142, Y142);
    Bit1(Q, D, B, 0x40000000000000000000000000000000537b, X142, Y142, W143, Z143, X143, Y143);
    Bit1(Q, D, B, 0x80000000000000000000000000000000a6f7, X143, Y143, W144, Z144, X144, Y144);
  }

  const W145: int := 0x793118b0db982ec4c67f9ddd89cf43fa07f5c4e1356ccd7b15bc44c7cc07d139
  const Z145: int := 0x23d62511a462a1480c21e2682985d4ec9838a6b73e1898f8bf3f9ef6d053e30f
  const X145: int := 0x146be1e7c9c842667a027ed3b759ccf6b654619648cbdad381480e7d1928b259
  const Y145: int := 0x765b7ebd7c185fdc3a12783d1239fc08a63022ca9e2305a7629225ad977a404c
  const X146: int := 0x488861f17a879db9dd07f3b38084e14834a9ef48b8213696c00dda61bff383d1
  const Y146: int := 0x596fb8cb4a08a38dac0ec16c681d395a2480ed6f83024ff7cbd7ea403238585c
  const X147: int := 0x07042b73005ce8da92016b918df700d14dcfa978c423e3af01be50e020e76538
  const Y147: int := 0x13cbe68b2e9b83e44d281aecdeda0473dc67a39263e2b3a7bceb982e8b8321b6
  const W148: int := 0x0affe8da3ef744135a1c5c7717c9e224eab9a9e0e5e97ee8e2aa1b744089b380
  const Z148: int := 0x4fe1376b3b146f90ff3f445084fa94d9c8ce2a05a1d7d25fda2b26dce231094c
  const X148: int := 0x09f00a580ed6c398da955eb2d9cdb9b8cfb11a54a2cc76b1a99b7285b07699c0
  const Y148: int := 0x2a14b220b33d055d2adec71b5b1d3b5accbe7feae883fe5d739777b2d9b5d27c
  const W149: int := 0x5e7be391ecd0bafd9e18843dcb7efcf9be85a1d5489568aedf9336673d14a773
  const Z149: int := 0x52b870ab3479404c390697f20e1bf88e184714a9f2b29ebe956885b1eed4bc74
  const X149: int := 0x03dc2ea0ebacc76dae04804e8bdd85d6794412ff27e3e1a15aed3984a215b112
  const Y149: int := 0x3ce96d976429d5a4fe155b891c79ec365ed5347333b8a3fd2b4072f131ac8fd6
  const W150: int := 0x0dfbe220d1cc8e4a6c76023936f511aff6ba542a4ea24a0baf0ff1aa8756245b
  const Z150: int := 0x51d4aac3124d2f6f0fdf823c35ea01018cb85cf19ad19d4bacc4f5a07856341a
  const X150: int := 0x6aba23904b5fa5eb01b3784da461d00839d1af16b178255c3e579464ff296d12
  const Y150: int := 0x40e3440c12b732df1f314735932f39fb016a20672461d738e44a6b873b71fc72

  lemma Reach150()
    requires IsPrime(Q)
    ensures Reached(ED25519, B, 0x40000000000000000000000000000000537be7, X150, Y150)
  {
    hide IsPrime;
    hide Reached;
    Reach144();
    Bit1(Q, D, B, 0x1000000000000000000000000000000014def, X144, Y144, W145, Z145, X145, Y145);
    Bit0(Q, D, B, 0x2000000000000000000000000000000029bdf, X145, Y145, X146, Y146);
    Bit0(Q, D, B, 0x40000000000000000000000000000000537be, X146, Y146, X147, Y147);
    Bit1(Q, D, B, 0x80000000000000000000000000000000a6f7c, X147, Y147, W148, Z148, X148, Y148);
    Bit1(Q, D, B, 0x1000000000000000000000000000000014def9, X148, Y148, W149, Z149, X149, Y149);
    Bit1(Q, D, B, 0x2000000000000000000000000000000029bdf3, X149, Y149, W150, Z150, X150, Y150);
  }

  const X151: int := 0x499ebf17c701f417859f04568833f6f35cc7443cf653be53ddb54b6b00a077ff
  const Y151: int := 0x3bc5d5a837ee0af8785449f91d8ae088c09f7de6a4a618a0a45d5287cc2e3e71
  const W152: int := 0x2ea68a6d6961e487b1bbb7c94b807e8628b45a5fef3ec47944231dc69667b172
  const Z152: int := 0x0f66975ab48f65c8aba128a65a0dfa83f04a6008d3c0689485e9070e5269de24
  const X152: int := 0x7f5192f483252e208b643b61e187013608693bd61087fff4951f925426fc37ae
  const Y152: int := 0x0d2b31ac34a0860c2fa7e82446e07ce21ff96512c04486c9ea72b3f2d66bad4f
  const W153: int := 0x2187b058d777c336b50d1dd2513885290710c23fe4d72cb5942f864055409d9a
  const Z153: int := 0x76516cf6d4abed511f465417d24ffe5967a32d394479296dc1397ab8db03191b
  const X153: int := 0x2577fdea34a5a331f40c8f9b736a9fbdabfd8be7937ebeba839b977aed4bd15e
  const Y153: int := 0x47bb03fd9a059ea671af8bf95a24f7480ed51196253207cfb4780f6ba78f34bb
  const W154: int := 0x3cf18e2dd153500ccad31a8f90c97ff317b01cb26a851b45c3da0f76b6c48a52
  const Z154: int := 0x7d1b4243b6ba39fc68c3b0f29c423cab5485d20660af7dd75d6edbca1e8e9aba
  const X154: int := 0x50e7c2166923aafb603a6a4ec2805efa92782aa176b1cf1d2da6f353d24426e1
  const Y154: int := 0x163f11e23c22179f8054d29a25ca3624a5a18acbf89aa613620114c08a58292e
  const W155: int := 0x3587cadfee1c6afc1ddf73dd92a62e4eda87ad23b6bb4bec82ce25a94099d83a
  const Z155: int := 0x01d0acffdb0e60311e566c24647610781e190080688a615abcff6e3f9648d02f
  const X155: int := 0x695610990c75daa069c813a631a6061183549d768846962090f79dcaa5dc2be9
  const Y155: int := 0x526e2356b1d33db3ee1e11c8091c11dc69fec730bdd5a0533e450c13a1c7af54
  const X156: int := 0x23afdf0d6a7e08f389d5a51847ced4f31b415ce3fa76997252d3c8042459fb4b
  const Y156: int := 0x719536c017cfa3c17acee83a1939f41c822b8db2c7ab21ebc87dbe019385bc0a

  lemma Reach156()
    requires IsPrime(Q)
    ensures Reached(ED25519, B, 0x1000000000000000000000000000000014def9de, X156, Y156)
  {
    hide IsPrime;
    hide Reached;
    Reach150();
    Bit0(Q, D, B, 0x40000000000000000000000000000000537be7, X150, Y150, X151, Y151);
    Bit1(Q, D, B, 0x80000000000000000000000000000000a6f7ce, X151, Y151, W152, Z152, X152, Y152);
    Bit1(Q, D, B, 0x1000000000000000000000000000000014def9d, X152, Y152, W153, Z153, X153, Y153);
    Bit1(Q, D, B, 0x2000000000000000000000000000000029bdf3b, X153, Y153, W154, Z154, X154, Y154);
    Bit1(Q, D, B, 0x40000000000000000000000000000000537be77, X154, Y154, W155, Z155, X155, Y155);
    Bit0(Q, D, B, 0x80000000000000000000000000000000a6f7cef, X155, Y155, X156, Y156);
  }

  const W157: int := 0x28673d4d20fa9c1da7a7d66b9bd72bb8aaccc5b432cb4fe440aa9ec94d5e4855
  const Z157: int := 0x7605e384da666ce248309556829eb2a885b2150c839606128462591cbea71253
  const X157: int := 0x09c650e9b54c7826b4cd04df52d3d23aa6117e9577163ef05d70db1da2639730
  const Y157: int := 0x29be7d8f82a6e39497d940ec819200e8771bd3e38cbeae5fba82543443a2f1e3
  const X158: int := 0x525144e31ba2780a6d75ce270b192f93323f054e3a056b1ef74ed24c0ae66c78
  const Y158: int := 0x4ef69da42f8419babf6cb6c5c20e3b913d8e6bf49649fbfb2f5d331c91d742d8
  const W159: int := 0x35465809ad5def171b2bfb58124e015b3a36aaca987e41b85e8da5afd60da6ee
  const Z159: int := 0x6bfab84c52496b9239191da5df149a62d6afdeac84cc586bd8bcdfd641fa0c30
  const X159: int := 0x0fb308074d5c933379d5a7235fb5c36717668e748ee8c9ab3485ae054b0aefce
  const Y159: int := 0x377e44a7603f8631565afac9f1e95368f51348484c1b83367c8d662d86b90ae5
  const X160: int := 0x76145e80bd944d3b04b759c1ad23a0bb149d0a3d63878e4bbf90aa12d12533b1
  const Y160: int := 0x3a8d4a424e897751a95f74c919a41bd7198083b11858e603989d2d52c2d965e3
  const X161: int := 0x18c5bfe58d2c9dd2e8bd77b4d6ea13dcab3a43cffcd0ed8c608bec658d135459
  const Y161: int := 0x51acaeb92ff3674031943f0152de2070dbe5e98e57a934c39c276e5ff2b2bb75
  const X162: int := 0x70dc9136f5e352f230cbdd689ae7d73d1ec8b4d6bf4d5888a180d27186a88c6a
  const Y162: int := 0x4ce7b00ace68ed9a47f6207b7d268b851bcbd00bc04a3d7e54b9f353f4725665

  lemma Reach162()
    requires IsPrime(Q)
    ensures Reached(ED25519, B, 0x40000000000000000000000000000000537be77a8, X162, Y162)
  {
    hide IsPrime;
    hide Reached;
    Reach156();
    Bit1(Q, D, B, 0x1000000000000000000000000000000014def9de, X156, Y156, W157, Z157, X157, Y157);
    Bit0(Q, D, B, 0x2000000000000000000000000000000029bdf3bd, X157, Y157, X158, Y158);
    Bit1(Q, D, B, 0x40000000000000000000000000000000537be77a, X158, Y158, W159, Z159, X159, Y159);
    Bit0(Q, D, B, 0x80000000000000000000000000000000a6f7cef5, X159, Y159, X160, Y160);
    Bit0(Q, D, B, 0x1000000000000000000000000000000014def9dea, X160, Y160, X161, Y161);
    Bit0(Q, D, B, 0x2000000000000000000000000000000029bdf3bd4, X161, Y161, X162, Y162);
  }

  const W163: int := 0x55007a544e5d576ea1427178a016552da596fd942529c042a7fca6e918add5e2
  const Z163: int := 0x5f910ff923bdfca6902c2c387a9fc7ac792699e52331aca00e6c0c9cf1635816
  const X163: int := 0x5026ad788f22f5ea5eb0e97d5daf3e4c91d11a375cfcc6539dc67b61b2e2cab6
  const Y163: int := 0x546a8facb0ff81e8d4b0705a56ac4d945af6f7b101a6a82025249947bc24436d
  const X164: int := 0x50a1651217095ca7c7e12be84e5ac03f02b688c8698c6d5fdb926f121027b1cb
  const Y164: int := 0x1f977756bf05d410953d32a2424b8de89f18ede292a61057f728943270dca2a8
  const W165: int := 0x5020a6fea0c7b8fb798c17dd325a8e52897fe66f911c8e52d1d04a8c51f78c81
  const Z165: int := 0x32692a0d9f6fb215678b85b7193936a23c6f44c7df6e12a0c488d03d8bd589e4
  const X165: int := 0x27bf02a76346800c883976e2ef60fe0bb4f6b8b67ca8e35ddb7c1f1b4c19e0c7
  const Y165: int := 0x34af30160732015d1afb7d6bb862609c6d7196ab27f6b2d4910969dee64f009d
  const W166: int := 0x6a37919d70889f4485b5bc45095260c5f887ea7dcbead2d0f0925040b8405b65
  const Z166: int := 0x3e117f6c4ce6a75beed28d59f25fa33384cf7e767b341c9109d5b2ca99f14058
  const X166: int := 0x0eda526805ac53315097de854cc424364de09b677c3ba5ba880d79ec99704fe9
  const Y166: int := 0x17650d0facc47c02820c5f6624c192fbe7ede447f32b132f01aed546ab842e4e
  const W167: int := 0x2f07a78e2bb067591789912f582c61f67fe0cd5b8245f5184ab2702d00f3cd0b
  const Z167: int := 0x1e49b86f7350c617577430927c7de09689e134108dc2611839ea9c6080cb1cf2
  const X167: int := 0x4578ab76527dc93b22d31fc5ec709e59dcc02f648157d651c21814c9c360147d
  const Y167: int := 0x516eee594e6efb2ac34d2f9f2df43125ce857203fb430746fee069840d6516bd
  const W168: int := 0x6fc0ff57db4468798014aeeb8a32524dc3a8ddab508a5cfb01c621eeffbfa778
  const Z168: int := 0x6bba98b582652fce7599afc865f556dee594aa5619e0db0e7218e611d4fdeab5
  const X168: int := 0x63a653cf225b7d8b742be2e38160d5436c54479fff964ff2a32adcb7b3aa7430
  const Y168: int := 0x0753a3483e7d0e045ac001ade2d762a62ba6cb8ea8cccc30f764d98d937eb76e

  lemma Reach168()
    requires IsPrime(Q)
    ensures Reached(ED25519, B, 0x1000000000000000000000000000000014def9dea2f, X168, Y168)
  {
    hide IsPrime;
    hide Reached;
    Reach162();
    Bit1(Q, D, B, 0x40000000000000000000000000000000537be77a8, X162, Y162, W163, Z163, X163, Y163);
    Bit0(Q, D, B, 0x80000000000000000000000000000000a6f7cef51, X163, Y163, X164, Y164);
    Bit1(Q, D, B, 0x1000000000000000000000000000000014def9dea2, X164, Y164, W165, Z165, X165, Y165);
    Bit1(Q, D, B, 0x2000000000000000000000000000000029bdf3bd45, X165, Y165, W166, Z166, X166, Y166);
    Bit1(Q, D, B, 0x40000000000000000000000000000000537be77a8b, X166, Y166, W167, Z167, X167, Y167);
    Bit1(Q, D, B, 0x80000000000000000000000000000000a6f7cef517, X167, Y167, W168, Z168, X168, Y168);
  }

  const X169: int := 0x495280f6f8613a4d03095785210e87cb2bf2e2f1de4fcdf53ad802d9dbdd4fe3
  const Y169: int := 0x65d3fcfa73a1fabb21e125bf9a173df3d53f195ceda109fa1dc3e7ae1c3ac966
  const W170: int := 0x53c16f123c7874cc6b0cf408431313dbef170b5d183ffdfa2984bbd4a396ce81
  const Z170: int := 0x3efc9b14d79714a54c700cba6102d9282a234c756405ac856af638c1a8088c8d
  const X170: int := 0x733c54266c4dca9986bd571ffd5d6ecdd101d795bb1bcb4e27ae488f57b1a022
  const Y170: int := 0x6dc0a5253f33f9e1634fd4341dd3da9db3257f4bdf8d5ff14e17f3c938072b35
  const W171: int := 0x47e5ccc40daaf95dd24cfbf29964f8fd1963b46a4d8ca55590d261a7013c7c84
  const Z171: int := 0x1d43893411bd1e13d99440c4aa1ca132613c53b3b114fb80392c437b4d623b6b
  const X171: int := 0x5330a79db5d675752cc8b1bb9e892ed80d49d2619840ab82770dcd321716f696
  const Y171: int := 0x5e9da6ed193932ae97fb848c876ebdce2506d9efd166695cdaf7e78b90926369
  const W172: int := 0x14b8e1244b4e7c9141c94815b3ffa7c86f45a81f523550b81eacb207d941c9e4
  const Z172: int := 0x68ec7c5d93fed0a2ce0c847f05b38660cfb9c73bf6804cbe7f4cc8f056692014
  const X172: int := 0x5deebd7de7a7545e7c203ffab7e659756f2759ff7b6b12d2fb59d02ba7301d48
  const Y172: int := 0x24ab9d0d2dfafb6515fe277ae19bc9780b2a9a157a1fb85a9071623d22c024ea
  const W173: int := 0x6da3ef297122f3458bc77dd7f62ccec2a3176c6ec99a8a5365b36c80ee256bcb
  const Z173: int := 0x2095a524a328d50cf95a570182bb35a1a0501038e3c0478006907a6d80d62ea6
  const X173: int := 0x38b134fcb2edcab14185bba354a60604e140d8f943881c570611d622154c2a75
  const Y173: int := 0x1a683ec8479e69fc479bbb93bba4d7f52469c7b35e5060e8a91040c08564705e
  const X174: int := 0x6db79d4b001f4031c020618cf2815d977a4875e0ec42eadfd8e0d3f40b9ba4ae
  const Y174: int := 0x0c277166834fbf50c3a3f59f302695df43509a3d809155095f18812ba5d721a1

  lemma Reach174()
    requires IsPrime(Q)
    ensures Reached(ED25519, B, 0x40000000000000000000000000000000537be77a8bde, X174, Y174)
  {
    hide IsPrime;
    hide Reached;
    Reach168();
    Bit0(Q, D, B, 0x1000000000000000000000000000000014def9dea2f, X168, Y168, X169, Y169);
    Bit1(Q, D, B, 0x2000000000000000000000000000000029bdf3bd45e, X169, Y169, W170, Z170, X170, Y170);
    Bit1(Q, D, B, 0x40000000000000000000000000000000537be77a8bd, X170, Y170, W171, Z171, X171, Y171);
    Bit1(Q, D, B, 0x80000000000000000000000000000000a6f7cef517b, X171, Y171, W172, Z172, X172, Y172);
    Bit1(Q, D, B, 0x1000000000000000000000000000000014def9dea2f7, X172, Y172, W173, Z173, X173, Y173);
    Bit0(Q, D, B, 0x2000000000000000000000000000000029bdf3bd45ef, X173, Y173, X174, Y174);
  }

  const X175: int := 0x45997974317248bb37daad58ae6012f4be854f783c828af1e0d942e976c6a6ea
  const Y175: int := 0x79da8f28ff1410729c2c806fd139b054472c2123f5b8d92bf0ace67d5a9e660d
  const W176: int := 0x41ade170c60897e875248a33d60aa555e9a75222888b7dd4bf6ce765854b3c48
  const Z176: int := 0x62659115f742ef046d832d96fe2cbafba859d74dd7a2f2b67a942f0814aea437
  const X176: int := 0x3deddc210c532ba05c57d46b1e1558f10711d07bef62a5e090b5de45aede3e08
  const Y176: int := 0x74857910bd0658820ce61ca81efc0ff3c8a750ce50ca5cc120227735b34afb48
  const W177: int := 0x6d1d40be71a0e772f2af0cae1c50e332d4946be466257b4e30aee75f899e669c
  const Z177: int := 0x73ac4670d7faeb7ba16f511f49122ffae46b5bb47f18a8a2a423d6551f383fb5
  const X177: int := 0x716590c94b623b246a4cea0f46af1be45b0eafb0e963b81dea34ba85519f24d7
  const Y177: int := 0x4e393f3897294ce5e4e7ed9c0947ebc3775b0ca59900128e2a67c8b68bcbc3e8
  const W178: int := 0x20f74ca0d6487756d502930e30118be838fff272f090bf9b9d80877667a550a5
  const Z178: int := 0x0bfc748d9a14c87428a0ada40a7a01dbe8860f1b86ab970429bc6d471d39c045
  const X178: int := 0x30dba84f0cd132775194b4a25926320b2b0c5f120204d8e9545d70d764fbb206
  const Y178: int := 0x01bc931a5b331adbfb5516736e78c6ee74639a8379f95208cc44233f1438ab76
  const X179: int := 0x44987df38f8a506ca81878c40461a23415d958f4f116f1f666a9dfd0617c8290
  const Y179: int := 0x525618acec7d466cf74856a317edd906f8a177cac55b5fed5aa1bbaecbe27d3e
  const X180: int := 0x567c281163625fc06276e3b75fea4870c4f3077ca5ef80dd6fdc51dcbc8afd1f
  const Y180: int := 0x7c9fe8d294d9748be92c38f17e898ccbb2b20612851621ae12c599a70a3c6518

  lemma Reach180()
    requires IsPrime(Q)
    ensures Reached(ED25519, B, 0x1000000000000000000000000000000014def9dea2f79c, X180, Y180)
  {
    hide IsPrime;
    hide Reached;
    Reach174();
    Bit0(Q, D, B, 0x40000000000000000000000000000000537be77a8bde, X174, Y174, X175, Y175);
    Bit1(Q, D, B, 0x80000000000000000000000000000000a6f7cef517bc, X175, Y175, W176, Z176, X176, Y176);
    Bit1(Q, D, B, 0x1000000000000000000000000000000014def9dea2f79, X176, Y176, W177, Z177, X177, Y177);
    Bit1(Q, D, B, 0x2000000000000000000000000000000029bdf3bd45ef3, X177, Y177, W178, Z178, X178, Y178);
    Bit0(Q, D, B, 0x40000000000000000000000000000000537be77a8bde7, X178, Y178, X179, Y179);
    Bit0(Q, D, B, 0x80000000000000000000000000000000a6f7cef517bce, X179, Y179, X180, Y180);
  }

  const W181: int := 0x3c740d62104030e67d04224b575858475076abc1b6f6c5138146857ae99a2890
  const Z181: int := 0x6080a124de94a827a96e1901ebf763847cc14ab06a9d899572f4ff9d52126795
  const X181: int := 0x438d112fcecd130c3ddfe1ea03751e6f66eb53d66108843669b2e93479c3005a
  const Y181: int := 0x165e8a28c114f70dcc3a7821003985799486dda92eb324f1dca11e221f0312c9
  const W182: int := 0x18358b5ec14c3a1f355fc6197ffb0ce5d13de02b02d62486655389c71ac81b17
  const Z182: int := 0x3a4dc8abfba10552fa1650f91ed628441c20758112c3679dd8c3555b51a6566c
  const X182: int := 0x50a50a832c3190d9182a3706f038a16bd1e637e630ffb355c2d398527ddc7ee9
  const Y182: int := 0x47c5a1b88bda73b531d3e6634ffaaf213c677296c979fa4e045bb6eb53b43724
  const X183: int := 0x33d2496545d1f0fc31fe7c7622c080370003ff2a48ebfc3c6540b3731cba33d7
  const Y183: int := 0x7aacbe35b005c94e538f8e6392ad89940ef99d1f8293702db1017ca97b85d3f7
  const W184: int := 0x4057004e03155a08105ba31581e8af5a43e17e54f2e35f449b4317033b94f41e
  const Z184: int := 0x4926f7d1f70405492cd9111ebf1cec588541ed4dc6b483cd1f51e5be13343221
  const X184: int := 0x4f175c88f1f18c44c21c21d4859f4ab50eaed92d362b7f22c574d1887b1cf92a
  const Y184: int := 0x3c67a93523a8aa9763a0ad2b976c66c7cf62181c2fa809b15bc4d25be4560f38
  const X185: int := 0x432f1938627f74e78671e2a43cbcb213cb9e35dbffec84a1941d0573b206498a
  const Y185: int := 0x22ce09d583c2478325374ad3f55c77db2950fd2989d41d94ed619759c00b485d
  const W186: int := 0x69d813691098c822fb29c81e1a41b313ffadf5a69f17943e1cfa2e55dfb43122
  const Z186: int := 0x2a216d2062bc2644ed0c18491c46bb9dbc8411411aae71f7cfd400f652b332cc
  const X186: int := 0x0cf4b47ad791e73fa38f8aed02c9f6149eab95fe248c6c12bb9ae179d2c397bf
  const Y186: int := 0x598a81acf70c86d51fa05bc4e37386907bf3182ace4bd475efa21daaf5c6f489

  lemma Reach186()
    requires IsPrime(Q)
    ensures Reached(ED25519, B, 0x40000000000000000000000000000000537be77a8bde735, X186, Y186)
  {
    hide IsPrime;
    hide Reached;
    Reach180();
    Bit1(Q, D, B, 0x1000000000000000000000000000000014def9dea2f79c, X180, Y180, W181, Z181, X181, Y181);
    Bit1(Q, D, B, 0x2000000000000000000000000000000029bdf3bd45ef39, X181, Y181, W182, Z182, X182, Y182);
    Bit0(Q, D, B, 0x40000000000000000000000000000000537be77a8bde73, X182, Y182, X183, Y183);
    Bit1(Q, D, B, 0x80000000000000000000000000000000a6f7cef517bce6, X183, Y183, W184, Z184, X184, Y184);
    Bit0(Q, D, B, 0x1000000000000000000000000000000014def9dea2f79cd, X184, Y184, X185, Y185);
    Bit1(Q, D, B, 0x2000000000000000000000000000000029bdf3bd45ef39a, X185, Y185, W186, Z186, X186, Y186);
  }

  const W187: int := 0x6269bace6fdc445e3a7effd54b1f08368f89a058b29240f2aaf4271aebfc2e40
  const Z187: int := 0x2facf74115d2826c7c4adb9245a6dd2dee14ed1fd476797d180e1085d0d281f2
  const X187: int := 0x6a9eb9ab75e3aabd8bd21bfa246ce1e1bb598826469899de07d45d5be9e3df5e
  const Y187: int := 0x42f6a437f88165a3c2803a64148544f81e78564c81a59c0ecb6964ad7bfde2ae
  const X188: int := 0x28dea5b653a8874341aed397c2f47f0e9f4e8db796628257f92a4a613a4dec75
  const Y188: int := 0x0b5a5f41eb97504950630df1cc279904813319781798c75b73e3269b123d4ef9
  const X189: int := 0x241fd8625768d336c5b2859ece0269dc744edc4f9be6f2a152b363c938292e77
  const Y189: int := 0x67b74adb92343107a0e770761d62e63d08d730d97f4aaab4d7a507e2d7a4fe9a
  const W190: int := 0x14d4d53fd40390f03d1980cbc4dc1068b52b2f89831f71b3b589a6fd12cfc35d
  const Z190: int := 0x772b227c06bec255c207246f14a22fcc6c202661735a889ba8d5ce604ca7f3c0
  const X190: int := 0x48c536dd151f35a5677221ce227b58185aeebf56f42fa0e35ea0e3279e51e9f5
  const Y190: int := 0x01a189af1109aafa2ea3950d2fd18138a5da2b83321a71491446cfc7f04e852d
  const X191: int := 0x1e007174d56a63ed603d09825b4b6970d3e7ceaea90133db60b7121cbbce0474
  const Y191: int := 0x477289b0018aab0e1f4235b9606e93e36dcd2a0ce20a4d5172cf01c67b446d66
  const W192: int := 0x46a9642b7fb5c9d44cb1a33d5ef366536d89efd7bc6d73519d6c87555069f75c
  const Z192: int := 0x71d3f6a21c2c5d63c3b5628506e274284c404c45b9bc5259807e5d7f281c4f9a
  const X192: int := 0x7e31e25ce2f33bdbeb7c20940e4012716424ee1d426c5be0a215e26d4664ba8d
  const Y192: int := 0x574c1c6b3a0150def0940caaa7841f0d37a4315c63fcfa3006d005c3baf9ba42

  lemma Reach192()
    requires IsPrime(Q)
    ensures Reached(ED25519, B, 0x1000000000000000000000000000000014def9dea2f79cd65, X192, Y192)
  {
    hide IsPrime;
    hide Reached;
    Reach186();
    Bit1(Q, D, B, 0x40000000000000000000000000000000537be77a8bde735, X186, Y186, W187, Z187, X187, Y187);
    Bit0(Q, D, B, 0x80000000000000000000000000000000a6f7cef517bce6b, X187, Y187, X188, Y188);
    Bit0(Q, D, B, 0x1000000000000000000000000000000014def9dea2f79cd6, X188, Y188, X189, Y189);
    Bit1(Q, D, B, 0x2000000000000000000000000000000029bdf3bd45ef39ac, X189, Y189, W190, Z190, X190, Y190);
    Bit0(Q, D, B, 0x40000000000000000000000000000000537be77a8bde7359, X190, Y190, X191, Y191);
    Bit1(Q, D, B, 0x80000000000000000000000000000000a6f7cef517bce6b2, X191, Y191, W192, Z192, X192, Y192);
  }

  const W193: int := 0x3a14729c88ed407f672192d30f7020b4f05825af9d2580b9f48d0675c31fd594
  const Z193: int := 0x0f1388110a39b208b11ca855721ffdabc4229b7685f4f8e0aabca097acc6ca41
  const X193: int := 0x66d729896eee90b4b256708d50bbe2ba54e92aca741ff1634b6715b51bf313b8
  const Y193: int := 0x05bbe8edb8f98d5ed8031069799fc0e65d93c3d3bf4475e79ddca1cc775f905d
  const X194: int := 0x46ed181fa9c14c7ad6f26af9d8a6f3840369eab60751da48e07669441e427e88
  const Y194: int := 0x3159da64986c457fdc9a558811e02f916c3c1419e2ec7a77692bb9aa03eea812
  const X195: int := 0x708ac5959efa659b950fd201d9d0dd1b0500720050201eaf649138e5414a076c
  const Y195: int := 0x35ce4b8c44cf204403dbdcb41ea0e409dd8d2ae186f7e2fa34325950a3f920a9
  const X196: int := 0x4bcb5fe2d71d9b1d24270b76cd89ece9aec968750ad5286dc875bc3cf3533577
  const Y196: int := 0x3628ed54d02e5dfb64d0327c29ed40ab476e047ce4fa7ac02586ccbc75a214db
  const X197: int := 0x63f263b8a78463d91d6b36e9dbe4499ffad5687c9e7f0dc45310224b10e4ffbd
  const Y197: int := 0x57522c241c319711600da8563792e34a86220a1f9559bbfdf41b46e0d1610bcc
  const X198: int := 0x15def7d3220773cf17caa0acb3cc1592a0a3b31a9ae0c32119b23f6609f59678
  const Y198: int := 0x13eac586b39d40545275d33b9a1b989c179b72f043312898e49d2671aab0c404

  lemma Reach198()
    requires IsPrime(Q)
    ensures Reached(ED25519, B, 0x40000000000000000000000000000000537be77a8bde735960, X198, Y198)
  {
    hide IsPrime;
    hide Reached;
    Reach192();
    Bit1(Q, D, B, 0x1000000000000000000000000000000014def9dea2f79cd65, X192, Y192, W193, Z193, X193, Y193);
    Bit0(Q, D, B, 0x2000000000000000000000000000000029bdf3bd45ef39acb, X193, Y193, X194, Y194);
    Bit0(Q, D, B, 0x40000000000000000000000000000000537be77a8bde73596, X194, Y194, X195, Y195);
    Bit0(Q, D, B, 0x80000000000000000000000000000000a6f7cef517bce6b2c, X195, Y195, X196, Y196);
    Bit0(Q, D, B, 0x1000000000000000000000000000000014def9dea2f79cd658, X196, Y196, X197, Y197);
    Bit0(Q, D, B, 0x2000000000000000000000000000000029bdf3bd45ef39acb0, X197, Y197, X198, Y198);
  }

  const X199: int := 0x3a7ab5d0456fd731ba66658fbe73219dd5e3049211b65cfa0f95f354b521a9e4
  const Y199: int := 0x0f8aa4214d8d1b29eb9b07bba973c12806495b5e821bbbcb3a571fac21c1970d
  const W200: int := 0x75ac8909bf1e224f29732dcda6c64471cfc2c0480a9332a5ab6262f3e4e74293
  const Z200: int := 0x3cce4b3e3043fbf4dc7807940f5911dd415445864106e12c8815af37d8d2995e
  const X200: int := 0x6952a974608d177fc8f5f3d942c430bf0faa89d6987b88db8e179a51379e0e6c
  const Y200: int := 0x14d095f1bc87afb8f11379e4cb0b560c174344bdc6f5d81364890fdafbe6c993
  const X201: int := 0x7487802e30ac2b30020f70a04150ebd6d5da18997e7841b2efeb3ff1ed6cba91
  const Y201: int := 0x74430345ab7d848361a1ae5dd131cce5b499237b4eaaa8d6f20c24ef666f0ab3
  const X202: int := 0x05e917a9fdede4806681bc041b0e45569bcf7251e5c74e8139d2dcd9c6596af2
  const Y202: int := 0x45fc91eba1ba3fe32cfe20527b179a7a994ea367f8faa02dd1ff4b68a17bbb59
  const W203: int := 0x3b8aea1b5309dd6eb30d30bf3596a4578ee6a37dd4a42fd4c7f0fdbc844dbc95
  const Z203: int := 0x3c0c9a72fd4f9b40deb5f19f42318bb32d39b9bc09992c4c455c5fd67ed2bafe
  const X203: int := 0x0d47f14c8c132ef07b48fa44bf77800c9a711992cfdcf161d5b75fe915911ae5
  const Y203: int := 0x6b51fc6e8c2bf539b9c06d3f057263f1ee1ccaa6ddeae7f4fb3236f74bc26441
  const X204: int := 0x432a126d4d4634439e01606c5667acbcb3ef0fd1d966149e325d9e30bc542ca4
  const Y204: int := 0x22bc7a01c7367c8d225e31a32809a7f9b2e1c2dae1b580960039e0cb6d2a2934

  lemma Reach204()
    requires IsPrime(Q)
    ensures Reached(ED25519, B, 0x1000000000000000000000000000000014def9dea2f79cd65812, X204, Y204)
  {
    hide IsPrime;
    hide Reached;
    Reach198();
    Bit0(Q, D, B, 0x40000000000000000000000000000000537be77a8bde735960, X198, Y198, X199, Y199);
    Bit1(Q, D, B, 0x80000000000000000000000000000000a6f7cef517bce6b2c0, X199, Y199, W200, Z200, X200, Y200);
    Bit0(Q, D, B, 0x1000000000000000000000000000000014def9dea2f79cd6581, X200, Y200, X201, Y201);
    Bit0(Q, D, B, 0x2000000000000000000000000000000029bdf3bd45ef39acb02, X201, Y201, X202, Y202);
    Bit1(Q, D, B, 0x40000000000000000000000000000000537be77a8bde7359604, X202, Y202, W203, Z203, X203, Y203);
    Bit0(Q, D, B, 0x80000000000000000000000000000000a6f7cef517bce6b2c09, X203, Y203, X204, Y204);
  }

  const X205: int := 0x2b5fb5ddd21b1cae59e1ff994944c1a4fe17256aa02c974d58b053e07647a145
  const Y205: int := 0x79d648e277e566c254f8442a869ec17b8071e46c526184439cb0c8ebd5c615f7
  const W206: int := 0x03eaf1ba76a2b5f0b11d7e0daa387b9f67b3eb87bae0ff2ce69e02569f8939d5
  const Z206: int := 0x3f04caed886ef4e868b85e242ed1a6263b98b3347c06664583bd12dcc06c61c3
  const X206: int := 0x6c6ce021fb62d202d23ed27c1605aaf64dd452950cf1f2a117a429f2f3796225
  const Y206: int := 0x77178bc18403c9408c457574c33e3c33b878dd59b8cabb659b328469713a14be
  const W207: int := 0x4b8f042ca98af49b8f60199379da5e92f20ee8479307ebf3130510bb2d237969
  const Z207: int := 0x01780b0b3f597c214b7223d246344dda7f490c7ecce8123cd303a6b6c6d60c40
  const X207: int := 0x3d38b1c0c66f51874e7fd89fe5a9c1fcfc236680c0afbf9d461a20404ca6d81f
  const Y207: int := 0x6a557a5fecdb3472a824ed6bbd1c8e73e159e6a2b59fe9f805a5039a1b808746
  const X208: int := 0x093fbbfa99f64dc86cb4205e79c0b3efbd7144cc369d8b740c298bb94120e7df
  const Y208: int := 0x7db56a89ccd1a70bd28f0aaa384b91ee26baa9321128324b4a66dc432a15822c
  const X209: int := 0x249381815e4b1cba475fda1c544f5845a8f4115a73a124eac6c0f319a926fe59
  const Y209: int := 0x3a03adcf9dacfab38be8536b09881ca3170c9220b3469476b55c08c6a289b5f1
  const X210: int := 0x6ae7e7952c5dce7537db7571a53051740dfaf89d4da25b4201912dc9278615de
  const Y210: int := 0x16f2d16d2759ca1e6937a253c1d101dbc89ef93eeb2b638a5ebe74337add37b4

  lemma Reach210()
    requires IsPrime(Q)
    ensures Reached(ED25519, B, 0x40000000000000000000000000000000537be77a8bde735960498, X210, Y210)
  {
    hide IsPrime;
    hide Reached;
    Reach204();
    Bit0(Q, D, B, 0x1000000000000000000000000000000014def9dea2f79cd65812, X204, Y204, X205, Y205);
    Bit1(Q, D, B, 0x2000000000000000000000000000000029bdf3bd45ef39acb024, X205, Y205, W206, Z206, X206, Y206);
    Bit1(Q, D, B, 0x40000000000000000000000000000000537be77a8bde73596049, X206, Y206, W207, Z207, X207, Y207);
    Bit0(Q, D, B, 0x80000000000000000000000000000000a6f7cef517bce6b2c093, X207, Y207, X208, Y208);
    Bit0(Q, D, B, 0x1000000000000000000000000000000014def9dea2f79cd658126, X208, Y208, X209, Y209);
    Bit0(Q, D, B, 0x2000000000000000000000000000000029bdf3bd45ef39acb024c, X209, Y209, X210, Y210);
  }

  const W211: int := 0x4cfa44c0c5be23dce4bab911fbcfb97fc89ecd6137a641c70c768654e99b2c25
  const Z211: int := 0x4c3b1bdd8fda8ad330e2c86e38b2bc8f5e8ea900ff3946d9964268d96eb01d9c
  const X211: int := 0x358fefd55b1ef6950c5545e25fba92a7b21314844798cd6ca74a261e517458c2
  const Y211: int := 0x179011d184c51760c90200db40ce80f10447faca84c42fb5d0a8f101fe8d3aa3
  const W212: int := 0x683102a04269ffcab692df587caf2e9b41056b178a01eff3b5187f1cb431f463
  const Z212: int := 0x5242e39efa7997eed7af1a3dc14366feeaa17d1812377b0d429cca6f5408b23a
  const X212: int := 0x3926bf21cba647fde8367602f0ff38c251405dd90cf2172dc4bf877511294a43
  const Y212: int := 0x74df064c09cac0feaccd1f1a52e21605469caa26ce0bfa95367df75b52399425
  const X213: int := 0x69636b156dfb45574cefce501c97412f1bd9a32637fe427c32aeeb0900cc4666
  const Y213: int := 0x325b718ee3a989dc2143836aaf2aaac8045df1be322e4c7ab29aaec1ff03c3c1
  const X214: int := 0x56ac2f28cb88eb654ee053238535e1811813791d23d0c7481ff2e86f8af419d9
  const Y214: int := 0x76200ea57cc69ae334d8625b0d22d96f140dd73f2f986350b2365b753a759060
  const X215: int := 0x25fb7eb9993f0be9b5ef8641dd843f65354f8a61d26f2b12f016266929b12f31
  const Y215: int := 0x0490fe8962f6ebfa75dfd14b3baf430e1ae9d51b73450086c69feb60e22ce937
  const W216: int := 0x5cca363a50ffe6861e78963f556ebd1266f04e162f40e61238baadcce16b1062
  const Z216: int := 0x0614330fcbd5ff656134bb6dbc0c74c87def250a24501c7e537aaf1c37d5a251
  const X216: int := 0x724907c8333ce3e7fe289b3d85023f3923627328775985ea7014589228047415
  const Y216: int := 0x580c74f2b8ac90bfc706a71a01d17cba7ef573e456599ad3fae8dc10e5a332a0

  lemma Reach216()
    requires IsPrime(Q)
    ensures Reached(ED25519, B, 0x1000000000000000000000000000000014def9dea2f79cd65812631, X216, Y216)
  {
    hide IsPrime;
    hide Reached;
    Reach210();
    Bit1(Q, D, B, 0x40000000000000000000000000000000537be77a8bde735960498, X210, Y210, W211, Z211, X211, Y211);
    Bit1(Q, D, B, 0x80000000000000000000000000000000a6f7cef517bce6b2c0931, X211, Y211, W212, Z212, X212, Y212);
    Bit0(Q, D, B, 0x1000000000000000000000000000000014def9dea2f79cd6581263, X212, Y212, X213, Y213);
    Bit0(Q, D, B, 0x2000000000000000000000000000000029bdf3bd45ef39acb024c6, X213, Y213, X214, Y214);
    Bit0(Q, D, B, 0x40000000000000000000000000000000537be77a8bde735960498c, X214, Y214, X215, Y215);
    Bit1(Q, D, B, 0x80000000000000000000000000000000a6f7cef517bce6b2c09318, X215, Y215, W216, Z216, X216, Y216);
  }

  const W217: int := 0x07faa5fb350d5c3c79744142d2bd9771bdd34065362e63d0a8b62796885d2d3f
  const Z217: int := 0x5167374e5fb889e0551618d46d8d54fc0fe66abd122ccf9f1bcb0612c530152c
  const X217: int := 0x16c4caaffd215bdedfb2243cecee12a353eff2b64a1bbe9e558693b6b2757505
  const Y217: int := 0x57d1b65ed43756b07762d5ecc68aa569d793c0bcc2b30a2a34f6925ab3a90e42
  const X218: int := 0x5c06c7e88d0b85a578c4af131e5a384ae2afb95989cd94a16ddbed32aff746da
  const Y218: int := 0x4bf6905e70d4136517cc308490826686feb00b26fb0509a2436f6799f33b6463
  const W219: int := 0x298018a61f967b6ff22127beaea95b04642d09c240c3302757a56d697dc528a9
  const Z219: int := 0x012a64c93fbc71bb71dbbd637d8b4a5c2570fc3c00c91628797390688255c428
  const X219: int := 0x7ea9dd8c6eec859f500b5a73dfdeaa73e360b4487e59d1eb78b60c3a2cf3936d
  const Y219: int := 0x750f204980a75d94747bdd36a8e715dfe5a2867cda5c80b4833c4d1eceed552e
  const X220: int := 0x66f242c7b5371371f0b7a8c2d55cbb84e7cc3914e7009c4a28419f9d2524efe5
  const Y220: int := 0x162c584f9c65ed317ea6449da312cba2655901d568d484b005671033d587b6da
  const X221: int := 0x4a77ee4a439242155b3fb380e6eea18191f03808aa1c35e5085938a641ec0a8f
  const Y221: int := 0x52889d2e49c717360559c0513c6d41828180324413ab90487e40eac43f7b0a38
  const W222: int := 0x02da31ffd284a98174b33b0ff674c37e397cb83c5f78eb4382aebf181819b082
  const Z222: int := 0x42290115cb7b5283fd2807f1c8f2d830ea5f40dddfb024952eec31be261db0bd
  const X222: int := 0x178a44f994ac35a0f3285af991983925240231b0c5bc6ff78040d42b3a19244a
  const Y222: int := 0x5bae1abcc2bb6ec3d4a2ecaa21b5dafc8f748a490908969a9fba9013196cc69b

  lemma Reach222()
    requires IsPrime(Q)
    ensures Reached(ED25519, B, 0x40000000000000000000000000000000537be77a8bde735960498c69, X222, Y222)
  {
    hide IsPrime;
    hide Reached;
    Reach216();
    Bit1(Q, D, B, 0x1000000000000000000000000000000014def9dea2f79cd65812631, X216, Y216, W217, Z217, X217, Y217);
    Bit0(Q, D, B, 0x2000000000000000000000000000000029bdf3bd45ef39acb024c63, X217, Y217, X218, Y218);
    Bit1(Q, D, B, 0x40000000000000000000000000000000537be77a8bde735960498c6, X218, Y218, W219, Z219, X219, Y219);
    Bit0(Q, D, B, 0x80000000000000000000000000000000a6f7cef517bce6b2c09318d, X219, Y219, X220, Y220);
    Bit0(Q, D, B, 0x1000000000000000000000000000000014def9dea2f79cd65812631a, X220, Y220, X221, Y221);
    Bit1(Q, D, B, 0x2000000000000000000000000000000029bdf3bd45ef39acb024c634, X221, Y221, W222, Z222, X222, Y222);
  }

  const X223: int := 0x4a2a3cb1d2e123cdb7acaa066fcc06b4e9df4569523f2ecda7aa810361a6f8df
  const Y223: int := 0x55b73ab03479bb45e3237bed421d8acd78d2ce18c49e3bc0472512257cf60215
  const W224: int := 0x16a935cb40748addde32a77d4243c7c884d8fb36e154840b241a413bef559fb0
  const Z224: int := 0x7edbc8c6b18860d800679eb62c587abff1d1d493846b268c3c47c920b20f8ead
  const X224: int := 0x4ee055e91309b6f547645c6f85527e5c23a43727ef49a5ed6978660091cdda85
  const Y224: int := 0x29b8f31b8c18339b0c821ada412c98f90295683923009af48b88086cb2bb3ac6
  const W225: int := 0x0af00ca2523f45c288fb16396be01aa9f27fe635762b9239bd47414c4e0a5785
  const Z225: int := 0x2eb23871a6a9beb2e47ea66dbc6aacb2aac8d847f2cd1bf81c6eaeb5fb4b2f25
  const X225: int := 0x5e92bef0f7f029935cc5a6405fc4e54e174b03b8b2ec8d1133d10fd5fff3a5d5
  const Y225: int := 0x087a5cbba647f2b4367bfa168afae5bbeb91c92206a3d3676d90bf01fc806dd2
  const W226: int := 0x688b06af67dd4fd90b0c582406114a5ce41aa75c3736ff207d76f56e529b1f29
  const Z226: int := 0x032f203a9b676ba97d7e640d2f3f5a7ee164c04df9fc0acfe97293149e357bf8
  const X226: int := 0x4ed6c2cba2b42b67a03ade50c551ce59f1b53bfddd02ca8c156e33d4a0141e83
  const Y226: int := 0x7f822f1a849c0585e0a5478469d66d333fa0d9dafdca03c41782c6c42cdb518c
  const X227: int := 0x2cf3886f6a491a82908fb5c7f1f70ca17af6b3c3693c68a7983ca594a46807f1
  const Y227: int := 0x7736f811343ba794b09358937c0c4f248f81ad982f5794827b8708cd4529060e
  const X228: int := 0x6f14406fe8b1e547c8f1c25311160d24b3626b6c500fd9bcc56fee9ac0cabc64
  const Y228: int := 0x3f89a9583eddb8c4144ef006276d0c72854e705bf853ed8397789b9cfcf0155c

  lemma Reach228()
    requires IsPrime(Q)
    ensures Reached(ED25519, B, 0x1000000000000000000000000000000014def9dea2f79cd65812631a5c, X228, Y228)
  {
    hide IsPrime;
    hide Reached;
    Reach222();
    Bit0(Q, D, B, 0x40000000000000000000000000000000537be77a8bde735960498c69, X222, Y222, X223, Y223);
    Bit1(Q, D, B, 0x80000000000000000000000000000000a6f7cef517bce6b2c09318d2, X223, Y223, W224, Z224, X224, Y224);
    Bit1(Q, D, B, 0x1000000000000000000000000000000014def9dea2f79cd65812631a5, X224, Y224, W225, Z225, X225, Y225);
    Bit1(Q, D, B, 0x2000000000000000000000000000000029bdf3bd45ef39acb024c634b, X225, Y225, W226, Z226, X226, Y226);
    Bit0(Q, D, B, 0x40000000000000000000000000000000537be77a8bde735960498c697, X226, Y226, X227, Y227);
    Bit0(Q, D, B, 0x80000000000000000000000000000000a6f7cef517bce6b2c09318d2e, X227, Y227, X228, Y228);
  }

  const W229: int := 0x6861e6dcaccc63a8ae0af4f7ad76fc7e6ef61d5cc1770c2d1ac1b24d84bb2ad9
  const Z229: int := 0x367dd71b8d62cb058e4b9f7ea858285438eefa2c41fc59c47e9144c85378a31c
  const X229: int := 0x17d5a2bbcb05b5b3002253acbe17a80dc97db9473135481d1295764866541a14
  const Y229: int := 0x16057d9536dd8a7817009371eea615886335141ab09e787a413f13f47cf45386
  const W230: int := 0x2b287d9bc5dbf2cd1c97ac6c60393a1b42287b92d2e6ce1158d7b38d612280ec
  const Z230: int := 0x6d3723de53b33fc048bc64d2aef1a6c1c25190d5e6c0a46401b0de7e3843192d
  const X230: int := 0x74e11bb98d2a572104c97309804089fbb7d1a548759cf4a0fc33da88ee1e1d61
  const Y230: int := 0x5d7538af8c5697ffc3f1a4e5696d0a0a86e709bcdd50a100aa86d575a097a508
  const W231: int := 0x0a0fe3cfdfec6d36afc4785058cdd0d1dbe695a9a5ad1cd62b1087bb3e5580bb
  const Z231: int := 0x4afada738059fb6094506d77caa7724ffbbb84a1e5a4201be3e4c103e63d4b63
  const X231: int := 0x370bcf4298c4b947db56858fbe568c30713cf574eec932afc018a10a6c1be5d1
  const Y231: int := 0x07e5e1c984288fd7733f48baf3e6599228b7a58cdb3a919e2eb92b55a985b733
  const W232: int := 0x3deb7508625a9a1a61304a9bd0554659cb04cfa9a82664f4cd7f609a8899ce46
  const Z232: int := 0x042f18d7b22c43aff8f1bb904b275413d6e3e2efd551297c93e5e4abdd554d91
  const X232: int := 0x60ac863b4b74c2679e54e63280dd1aa1707a245f08b0bf5b6429d6e8c968edf2
  const Y232: int := 0x2066210dd3c343b296ac9c8286c289584b74dc5003233d5134aa149e8577d81c
  const X233: int := 0x640489281d9dbabf4c72ef95b3c730d5967097fadeba0deb375dcb8e4542ed66
  const Y233: int := 0x3521fd49d2dfd164cb226b717d9deca16ce8deb0676e923f6aa6c6b5f974d2e2
  const W234: int := 0x6bed9bda7a0757ba55772bd79d55ba3f192875dd53a26c000e6136ae4a33dcfc
  const Z234: int := 0x4323452515812eec775a96c27a48c75a4a5d592548e3598d629b23acd498cb3e
  const X234: int := 0x4072ca2307092495c01440e40b19aa130df7020ee0490dca1b5cf7f0b1270692
  const Y234: int := 0x2e2d1296a1cdc3336897f9a3623403c7e128c95d7276337566f642b38054b1cf

  lemma Reach234()
    requires IsPrime(Q)
    ensures Reached(ED25519, B, 0x40000000000000000000000000000000537be77a8bde735960498c6973d, X234, Y234)
  {
    hide IsPrime;
    hide Reached;
    Reach228();
    Bit1(Q, D, B, 0x1000000000000000000000000000000014def9dea2f79cd65812631a5c, X228, Y228, W229, Z229, X229, Y229);
    Bit1(Q, D, B, 0x2000000000000000000000000000000029bdf3bd45ef39acb024c634b9, X229, Y229, W230, Z230, X230, Y230);
    Bit1(Q, D, B, 0x40000000000000000000000000000000537be77a8bde735960498c6973, X230, Y230, W231, Z231, X231, Y231);
    Bit1(Q, D, B, 0x80000000000000000000000000000000a6f7cef517bce6b2c09318d2e7, X231, Y231, W232, Z232, X232, Y232);
    Bit0(Q, D, B, 0x1000000000000000000000000000000014def9dea2f79cd65812631a5cf, X232, Y232, X233, Y233);
    Bit1(Q, D, B, 0x2000000000000000000000000000000029bdf3bd45ef39acb024c634b9e, X233, Y233, W234, Z234, X234, Y234);
  }

  const X235: int := 0x380330e076d41f5710d318e2c62831386291e946d5b01f3806667f1b1905b247
  const Y235: int := 0x7ce980220bfd77879ff3311357c77e1d52febfe38f1fe80fd39674350dedcb48
  const W236: int := 0x49fe5b2879037c9f07296b84fd5d7bd9bc099187c28f75ce3b9bca634419b046
  const Z236: int := 0x2c32560ac1304b92f92acba35b884964535b251cb07ec0c82c491bdb37db5dd0
  const X236: int := 0x31a0a560746de42769d0c44e3c6344d1e84772dd31ce08738a2a66f77940c66f
  const Y236: int := 0x77f93c57c573ef2daf660a25ded3ac7fd1de802d9a617489061fe0d9e5146ce5
  const W237: int := 0x3ee80a03b17f2c62046996ba657ffce17e43e19b6c743f05170f2be05207829f
  const Z237: int := 0x6f6961e72ed154c47318d043cf21e808a84492afb1a6d37baabdcf700479314b
  const X237: int := 0x0395a3769c37a6d028355b3a8d943cdc6319677e936133e0af09fc61de3e227e
  const Y237: int := 0x46ecb145656b72ae77a28f686fe70a2a1bec1967f0f675b24f9e70fb5e2ab119
  const W238: int := 0x4c04ca05843708a77c4ae34c57317cb515b5d61af842183e712c5b08e640dd1e
  const Z238: int := 0x4bb9abdd73041eb33e312408dbee94619914c028f07ee39ba994c15c78c2cff3
  const X238: int := 0x3fc42d1dc578fb470be8333c0a0c28c174578958cc0612be1e723a2955f001fa
  const Y238: int := 0x1594a187c1f55ebe2760df470d49b1201a51badddc729d8560c7720ab121c870
  const X239: int := 0x52ebcce638e343d8c62d073aeb28fd127cb4015ce583df5c0428850d13854ed5
  const Y239: int := 0x05827e6a85b700fcabe143bd3367151996257355e3ef9bbc51c23a04007c7aaf
  const W240: int := 0x328311710f4fb7e4374e61af0f01b4113f06478707a376344865f40d0e358428
  const Z240: int := 0x36017a5ecfff82eb0417cb5812ea6be1b9938bfa3cbd527aea3bb5319c91a089
  const X240: int := 0x228186ee051ff14e229513ae97e899bbbe33c3eeba62e25aa187da793bf7bc63
  const Y240: int := 0x39af13cdc3e32d11a6c4f51df741f5696a1d8a54d741c6d47db65297ecd0e730

  lemma Reach240()
    requires IsPrime(Q)
    ensures Reached(ED25519, B, 0x1000000000000000000000000000000014def9dea2f79cd65812631a5cf5d, X240, Y240)
  {
    hide IsPrime;
    hide Reached;
    Reach234();
    Bit0(Q, D, B, 0x40000000000000000000000000000000537be77a8bde735960498c6973d, X234, Y234, X235, Y235);
    Bit1(Q, D, B, 0x80000000000000000000000000000000a6f7cef517bce6b2c09318d2e7a, X235, Y235, W236, Z236, X236, Y236);
    Bit1(Q, D, B, 0x1000000000000000000000000000000014def9dea2f79cd65812631a5cf5, X236, Y236, W237, Z237, X237, Y237);
    Bit1(Q, D, B, 0x2000000000000000000000000000000029bdf3bd45ef39acb024c634b9eb, X237, Y237, W238, Z238, X238, Y238);
    Bit0(Q, D, B, 0x40000000000000000000000000000000537be77a8bde735960498c6973d7, X238, Y238, X239, Y239);
    Bit1(Q, D, B, 0x80000000000000000000000000000000a6f7cef517bce6b2c09318d2e7ae, X239, Y239, W240, Z240, X240, Y240);
  }

  const X241: int := 0x126ff0067107bd59d0bda2d954adcfb19be1ca45d169f90f3b24b0dffce5b635
  const Y241: int := 0x1fdc65578c8cfef58cd7f54fc29250b0fe8c16eb55f575e4486fb632f956bb80
  const X242: int := 0x56cef4beeb3de11659875735371548b600de8b9731d9e43dcaa87506596b7b3e
  const Y242: int := 0x58946677980578b96c24485081813dc5717a301b171f0e2a1ddb736d45e09dd0
  const W243: int := 0x6339bd5e48f6968063fd45554ec9624b8605c360d7a16157c09fb9c9c05abfb9
  const Z243: int := 0x036b326b9843e99e1dab3790d57cd881c52038b00348327d1b0dab33996a6c38
  const X243: int := 0x27e9c2fe99996175741f39ee4d2a4b9bcbdd3b9d0f085578158446374ede2610
  const Y243: int := 0x039d0bf89176407e509751b209057d9e829abd76cc76980472d43571c0ff629a
  const W244: int := 0x4b7d5c60cf89942e0ce995845e04a7c74364d946df62017f0529a268df514c8f
  const Z244: int := 0x1dcc34a8875338b5190a2a2a2fcdca91a4563842ab2a0b1b3e3cf41afa5aa9a1
  const X244: int := 0x375a0f20a93ea76c70e80fefdd456ae685fcf3349d755b1df071b840af853d22
  const Y244: int := 0x2dce56ff34ad037accb51ee0bc417a265015d300e7bb54fb9b5325a0b09b9268
  const W245: int := 0x6b73d4556029f3725947073e053e2c09edfbc99feb75f88647b6be5cc38bda8c
  const Z245: int := 0x20ef2570ca0845e6c36ac67a502f0411b3b7e05c6fccc1d3f82ac1759dd278c7
  const X245: int := 0x38459e63fb98571ab2668db30bb67ecc7b0c716b847647a9b2553dcaabab3375
  const Y245: int := 0x160299ff850bc2f8d941dd0600c03a895e23dc140901602e615417142863e287
  const W246: int := 0x55d5275b9aa56c8bc46f8cabfe93561e1ef13e129302b6e33d329d41fc7bc7b7
  const Z246: int := 0x3a8fb1f9b60a7058ac3550da6f683e9b88b314e375e91066c30dd6dad880430a
  const X246: int := 0x412d51c6b5b0333b9d32566a0f718f293c065d203e47596c487fc9a4146ac646
  const Y246: int := 0x11caa89538d4b46efb1217596c925cd0af5c74b79d38e8af9f7e4f166a40ae2c

  lemma Reach246()
    requires IsPrime(Q)
    ensures Reached(ED25519, B, 0x40000000000000000000000000000000537be77a8bde735960498c6973d74f, X246, Y246)
  {
    hide IsPrime;
    hide Reached;
    Reach240();
    Bit0(Q, D, B, 0x1000000000000000000000000000000014def9dea2f79cd65812631a5cf5d, X240, Y240, X241, Y241);
    Bit0(Q, D, B, 0x2000000000000000000000000000000029bdf3bd45ef39acb024c634b9eba, X241, Y241, X242, Y242);
    Bit1(Q, D, B, 0x40000000000000000000000000000000537be77a8bde735960498c6973d74, X242, Y242, W243, Z243, X243, Y243);
    Bit1(Q, D, B, 0x80000000000000000000000000000000a6f7cef517bce6b2c09318d2e7ae9, X243, Y243, W244, Z244, X244, Y244);
    Bit1(Q, D, B, 0x1000000000000000000000000000000014def9dea2f79cd65812631a5cf5d3, X244, Y244, W245, Z245, X245, Y245);
    Bit1(Q, D, B, 0x2000000000000000000000000000000029bdf3bd45ef39acb024c634b9eba7, X245, Y245, W246, Z246, X246, Y246);
  }

  const W247: int := 0x5a086ffe05a6f60498a22be4d54a28b25af83d8e3ea560944df17f3d612b445f
  const Z247: int := 0x73e95e54d53f191a304649934be5aabe07e6fc5042ef09999188a7c44e12780e
  const X247: int := 0x1ffcdc8bcc51d1246590fd631cd3a526361f0932ab0ebbb438c64294cbd70364
  const Y247: int := 0x1fc2b3171576f992c236ea77cfbbed6a052c069e2bc0adcffbccb12a9f7fb1d6
  const X248: int := 0x4af762006e067bd7707b0505a2adf2abd41594c22edbb8fe8d046bc64af26047
  const Y248: int := 0x198f81851e18375709ef4a9655dc8ca113830cb8222ad99ecc0a475c45ad0f0d
  const W249: int := 0x7289de2a1aa59d6868fd8a781c8569b7a6b8dae7e72abdc6f80ffa1357e18590
  const Z249: int := 0x0ed20ec5c8da185846e46fb71b9f593a8b0279693c21e8586b38588bf8eb2390
  const X249: int := 0x21cdae766ce224df7fd3bc19808aaca3cfcba0937207293a829ba24b72076893
  const Y249: int := 0x1f79538392eef08604bdf033b0463f84aed9bb14c2d64cd526bc426731bf52a1
  const W250: int := 0x6f3c1d580aeb7f18c348ea816ae11eb718d7ea96339f249050401396b8d8e542
  const Z250: int := 0x7a73c23898bd39a42096eb9cdbd5d3d60ae4d9badb4baed7016a4449f89863eb
  const X250: int := 0x72ae998b572929f5fd20ba2adfd10c7afbc9bbe9d0d93cf8cfa51130afe990f6
  const Y250: int := 0x1a17d98da7bd9ac5fb755c2cf8fb2b36735a9264b9ef1043ad4d065381dc693e
  const X251: int := 0x306ad5575ae1e840c8d3df2438a96bd29617e302bf0cb269412f64c0b859c3e0
  const Y251: int := 0x70bc44e7a355558547bffef8b575aa3b8b9aa81ae3c89c30c6b22103079919ac
  const W252: int := 0x5e96c92c3291ac013f5b1dce022923a396d3389f6ada584d36a9d29f70da2ad3
  const Z252: int := 0x6666666666666666666666666666666666666666666666666666666666666658
  const X252: int := 0x0000000000000000000000000000000000000000000000000000000000000000
  const Y252: int := 0x0000000000000000000000000000000000000000000000000000000000000001

  lemma Reach252()
    requires IsPrime(Q)
    ensures Reached(ED25519, B, 0x1000000000000000000000000000000014def9dea2f79cd65812631a5cf5d3ed, X252, Y252)
  {
    hide IsPrime;
    hide Reached;
    Reach246();
    Bit1(Q, D, B, 0x40000000000000000000000000000000537be77a8bde735960498c6973d74f, X246, Y246, W247, Z247, X247, Y247);
    Bit0(Q, D, B, 0x80000000000000000000000000000000a6f7cef517bce6b2c09318d2e7ae9f, X247, Y247, X248, Y248);
    Bit1(Q, D, B, 0x1000000000000000000000000000000014def9dea2f79cd65812631a5cf5d3e, X248, Y248,
          W249, Z249, X249, Y249);
    Bit1(Q, D, B, 0x2000000000000000000000000000000029bdf3bd45ef39acb024c634b9eba7d, X249, Y249,
          W250, Z250, X250, Y250);
    Bit0(Q, D, B, 0x40000000000000000000000000000000537be77a8bde735960498c6973d74fb, X250, Y250, X251, Y251);
    Bit1(Q, D, B, 0x80000000000000000000000000000000a6f7cef517bce6b2c09318d2e7ae9f6, X251, Y251,
          W252, Z252, X252, Y252);
  }

  // ----- What it certifies -----

  /** If q is prime, the multiple of the base point by l is the identity, in both forms. */
  lemma OrderOfBase()
    requires IsPrime(Q)
    ensures AffineScalarMult(ED25519, Affine(BASE_X, BASE_Y), ORDER) == ZERO
    ensures ToAffine(ED25519, ScalarMult.ScalarMult(ED25519, BASE, ORDER)) == ZERO
  {
    hide IsPrime;
    hide ToAffine;
    hide Element;
    hide Good;
    hide ScalarMult.ScalarMult;
    Reach252();
    BaseMultiples(ORDER);
  }
}
