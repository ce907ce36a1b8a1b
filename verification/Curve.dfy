/** The group the point code computes in, seen through its affine coordinates.

    A `Curve` is any commutative group whose elements have coordinates on
    -x^2 + y^2 = 1 + d x^2 y^2 and whose addition satisfies the twisted Edwards law, stated
    with the denominators cleared. That such a group exists, with non-zero denominators, is
    the mathematics of the curve and is a hypothesis here (`Valid`); the code is proved
    against it. Each law is wrapped in a predicate so that it is used only where named. */
module CurveGroup {
  import opened Words
  import opened Field

  /** ge25519_ecd */
  const ECD := Fe(0x00034dca135978a3, 0x0001a8283b156ebd, 0x0005e7a26001c029, 0x000739c663a03cbb, 0x00052036cee2b6ff)
  /** ge25519_ec2d */
  const EC2D := Fe(0x00069b9426b2f159, 0x00035050762add7a, 0x0003cf44c0038052, 0x0006738cc7407977, 0x0002406d9dc56dff)
  /** ge25519_sqrtneg1 */
  const SQRTNEG1 := Fe(0x00061b274a0ea0b0, 0x0000d5a5fc8f189d, 0x0007ef5e9cbd0c60, 0x00078595a6804c9e, 0x0002b8324804fc1d)

  /** The values of the constants' limbs. */
  const D := Weighted([ECD.l0, ECD.l1, ECD.l2, ECD.l3, ECD.l4])
  const D2 := Weighted([EC2D.l0, EC2D.l1, EC2D.l2, EC2D.l3, EC2D.l4])
  const SQRTM1 := Weighted([SQRTNEG1.l0, SQRTNEG1.l1, SQRTNEG1.l2, SQRTNEG1.l3, SQRTNEG1.l4])

  ghost predicate Inverse(a: int, w: int) {
    Cong(a * w, 1)
  }

  /** Invertible modulo p. */
  ghost predicate Unit(a: int) {
    exists w :: Inverse(a, w)
  }

  lemma UnitIntro(a: int, w: int)
    requires Cong(a * w, 1)
    ensures Unit(a)
  {
    assert Inverse(a, w);
  }

  lemma UnitMul(a: int, b: int)
    requires Unit(a) && Unit(b)
    ensures Unit(a * b)
  {
    hide Cong;
    var v :| Inverse(a, v);
    var w :| Inverse(b, w);
    CongMul(a * v, 1, b * w, 1);
    assert (a * v) * (b * w) == (a * b) * (v * w);
    UnitIntro(a * b, v * w);
  }

  lemma UnitCong(a: int, b: int)
    requires Unit(a) && Cong(b, a)
    ensures Unit(b)
  {
    hide Cong;
    var w :| Inverse(a, w);
    CongRefl(w);
    CongMul(b, a, w, w);
    CongTrans(b * w, a * w, 1);
    UnitIntro(b, w);
  }

  lemma UnitTwo()
    ensures Unit(2)
  {
    CongIntro(2 * ((P + 1) / 2), 1, 1);
    UnitIntro(2, (P + 1) / 2);
  }

  /** A unit factor cancels. */
  lemma UnitCancel(a: int, u: int, v: int)
    requires Unit(a) && Cong(a * u, a * v)
    ensures Cong(u, v)
  {
    hide Cong;
    var w :| Inverse(a, w);
    CongRefl(w); CongRefl(u); CongRefl(v);
    CongMul(w, w, a * u, a * v);
    CongMul(a * w, 1, u, u);
    CongMul(a * w, 1, v, v);
    assert w * (a * u) == (a * w) * u && w * (a * v) == (a * w) * v;
    CongSym((a * w) * u, 1 * u);
    CongTrans(u, (a * w) * u, (a * w) * v);
    CongTrans(u, (a * w) * v, 1 * v);
  }

  lemma ConstantValues()
    ensures D == 0x5203_6cee_2b6f_fe73_8cc7_4079_7779_e898_0070_0a4d_4141_d8ab_75eb_4dca_1359_78a3
    ensures D2 == 0x2406_d9dc_56df_fce7_198e_80f2_eef3_d130_00e0_149a_8283_b156_ebd6_9b94_26b2_f159
    ensures SQRTM1 == 0x2b83_2480_4fc1_df0b_2b4d_0099_3dfb_d7a7_2f43_1806_ad2f_e478_c4ee_1b27_4a0e_a0b0
  {
    ValIs(ECD);
    ValIs(EC2D);
    ValIs(SQRTNEG1);
  }

  /** The curve constants: d is -121665/121666, ec2d is 2d, and sqrtneg1 squares to -1. */
  lemma Constants()
    ensures Cong(121666 * D, -121665) && Cong(D2, 2 * D) && Cong(SQRTM1 * SQRTM1, -1)
  {
    hide Cong;
    ConstantValues();
    CongIntro(121666 * D, -121665, 0x1_3083);
    CongIntro(D2, 2 * D, -1);
    CongIntro(SQRTM1 * SQRTM1, -1, 0xeca_a2e2_f6a2_302c_cedb_31ac_0572_0688_238c_ed20_78f3_eb0e_c9f2_2e8f_6219_72e5);
  }

  /** The constants may be operands of any field operation. */
  lemma ConstantLimbs()
    ensures Is(ECD, TWO51, D) && Is(EC2D, TWO51, D2) && Is(SQRTNEG1, TWO51, SQRTM1)
  {
    hide Cong;
    CongRefl(D);
    CongRefl(D2);
    CongRefl(SQRTM1);
  }

  datatype Curve<!E> = Curve(zero: E, add: (E, E) -> E, neg: E -> E, x: E -> int, y: E -> int)

  ghost predicate ZeroAt<E>(c: Curve<E>, a: E) {
    c.add(c.zero, a) == a
  }

  ghost predicate NegAt<E>(c: Curve<E>, a: E) {
    c.add(a, c.neg(a)) == c.zero && Cong(c.x(c.neg(a)), -c.x(a)) && c.y(c.neg(a)) == c.y(a)
  }

  ghost predicate CommAt<E>(c: Curve<E>, a: E, b: E) {
    c.add(a, b) == c.add(b, a)
  }

  ghost predicate AssocAt<E>(c: Curve<E>, a: E, b: E, d: E) {
    c.add(c.add(a, b), d) == c.add(a, c.add(b, d))
  }

  /** The curve equation. */
  ghost predicate OnCurve(x: int, y: int) {
    Cong(y * y - x * x, 1 + D * (x * x) * (y * y))
  }

  ghost predicate CoordinatesAt<E>(c: Curve<E>, a: E) {
    0 <= c.x(a) < P && 0 <= c.y(a) < P && OnCurve(c.x(a), c.y(a))
  }

  function Delta(x1: int, y1: int, x2: int, y2: int): int {
    D * ((x1 * x2) * (y1 * y2))
  }

  /** The addition law of section 5.1.4 of RFC 8032 with denominators cleared:
      x3 (1 + d x1 x2 y1 y2) = x1 y2 + x2 y1 and y3 (1 - d x1 x2 y1 y2) = y1 y2 + x1 x2. */
  ghost predicate Law(x1: int, y1: int, x2: int, y2: int, x3: int, y3: int) {
    && Cong(x3 * (1 + Delta(x1, y1, x2, y2)), x1 * y2 + x2 * y1)
    && Cong(y3 * (1 - Delta(x1, y1, x2, y2)), y1 * y2 + x1 * x2)
    && Unit(1 + Delta(x1, y1, x2, y2)) && Unit(1 - Delta(x1, y1, x2, y2))
  }

  ghost predicate LawAt<E>(c: Curve<E>, a: E, b: E) {
    Law(c.x(a), c.y(a), c.x(b), c.y(b), c.x(c.add(a, b)), c.y(c.add(a, b)))
  }

  ghost predicate Valid<E(!new)>(c: Curve<E>) {
    && (forall a :: ZeroAt(c, a))
    && (forall a :: NegAt(c, a))
    && (forall a, b :: CommAt(c, a, b))
    && (forall a, b, d :: AssocAt(c, a, b, d))
    && (forall a :: CoordinatesAt(c, a))
    && (forall a, b :: LawAt(c, a, b))
    && c.x(c.zero) == 0 && c.y(c.zero) == 1
  }

  ghost predicate NamedAt<E(!new)>(c: Curve<E>, x: int, y: int) {
    exists e :: c.x(e) == x && c.y(e) == y
  }

  ghost predicate ReachedAt<E(!new)>(c: Curve<E>, x: int, y: int) {
    0 <= x < P && 0 <= y < P && OnCurve(x, y) ==> NamedAt(c, x, y)
  }

  ghost predicate SameAt<E>(c: Curve<E>, a: E, b: E) {
    c.x(a) == c.x(b) && c.y(a) == c.y(b) ==> a == b
  }

  /** The group is the set of all points of the curve. */
  ghost predicate Faithful<E(!new)>(c: Curve<E>) {
    (forall x, y :: ReachedAt(c, x, y)) && (forall a, b :: SameAt(c, a, b))
  }
}
