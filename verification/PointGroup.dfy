/** What the point formulas compute in the group: each representation stands for a group
    element, and each routine keeps that meaning. */
module PointGroup {
  import opened Field
  import opened CurveGroup
  import opened Points

  /** Extended coordinates of an element at scale z: (xz, yz, z, xyz). */
  ghost function At<E>(c: Curve<E>, e: E, z: int): Residues {
    Residues(c.x(e) * z, c.y(e) * z, z, (c.x(e) * c.y(e)) * z)
  }

  /** X/Z and Y/Z are the coordinates of e; t is not constrained. */
  ghost predicate PartialOf<E>(c: Curve<E>, p: Ge, e: E) {
    HasPartial(p, At(c, e, Val(p.z))) && Unit(Val(p.z))
  }

  /** ... and T is XY/Z. */
  ghost predicate FullOf<E>(c: Curve<E>, p: Ge, e: E) {
    HasFull(p, At(c, e, Val(p.z))) && Unit(Val(p.z))
  }

  /** X/Z and Y/T are the coordinates of e. */
  ghost predicate P1P1Of<E>(c: Curve<E>, p: P1P1, e: E) {
    && HasP1P1(p, Residues(c.x(e) * Val(p.z), c.y(e) * Val(p.t), Val(p.z), Val(p.t)))
    && Unit(Val(p.z)) && Unit(Val(p.t))
  }

  ghost predicate NielsOf<E>(c: Curve<E>, q: Niels, e: E) {
    HasNiels(q, ToNiels(At(c, e, 1)))
  }

  ghost predicate PNielsOf<E>(c: Curve<E>, q: PNiels, e: E) {
    HasPNiels(q, ToNiels(At(c, e, Val(q.z)))) && Unit(Val(q.z))
  }

  // ---- changing the scale a residue is stated at ---------------------------

  lemma Rescale(v: int, x: int, z: int, z': int)
    requires Cong(v, x * z) && Cong(z', z)
    ensures Cong(v, x * z')
  {
    hide Cong;
    CongRefl(x);
    CongMul(x, x, z', z);
    CongSym(x * z', x * z);
    CongTrans(v, x * z, x * z');
  }

  lemma FullIntro<E>(c: Curve<E>, p: Ge, e: E, z: int)
    requires HasFull(p, At(c, e, z)) && Unit(z)
    ensures FullOf(c, p, e)
  {
    hide Cong, Val, Unit;
    CongRefl(Val(p.z));
    UnitCong(z, Val(p.z));
    Rescale(Val(p.x), c.x(e), z, Val(p.z));
    Rescale(Val(p.y), c.y(e), z, Val(p.z));
    Rescale(Val(p.t), c.x(e) * c.y(e), z, Val(p.z));
  }

  lemma PartialIntro<E>(c: Curve<E>, p: Ge, e: E, z: int)
    requires HasPartial(p, At(c, e, z)) && Unit(z)
    ensures PartialOf(c, p, e)
  {
    hide Cong, Val, Unit;
    CongRefl(Val(p.z));
    UnitCong(z, Val(p.z));
    Rescale(Val(p.x), c.x(e), z, Val(p.z));
    Rescale(Val(p.y), c.y(e), z, Val(p.z));
  }

  lemma P1P1Intro<E>(c: Curve<E>, p: P1P1, e: E, s: Residues)
    requires HasP1P1(p, s) && Cong(s.x, c.x(e) * s.z) && Cong(s.y, c.y(e) * s.t) && Unit(s.z) && Unit(s.t)
    ensures P1P1Of(c, p, e)
  {
    hide Cong, Val, Unit;
    CongRefl(Val(p.z)); CongRefl(Val(p.t));
    UnitCong(s.z, Val(p.z)); UnitCong(s.t, Val(p.t));
    CongTrans(Val(p.x), s.x, c.x(e) * s.z);
    CongTrans(Val(p.y), s.y, c.y(e) * s.t);
    Rescale(Val(p.x), c.x(e), s.z, Val(p.z));
    Rescale(Val(p.y), c.y(e), s.t, Val(p.t));
  }

  // ---- the laws ------------------------------------------------------------

  /** From u k = s (mod p): w u k' = w s for every common scale, with k' congruent to k. */
  lemma ScaleLaw(x3: int, k: int, s: int, w: int, n: int, z: int)
    requires Cong(x3 * k, s) && n == w * s && Cong(z, w * k)
    ensures Cong(n, x3 * z)
  {
    hide Cong;
    CongRefl(w); CongRefl(x3);
    CongMul(w, w, x3 * k, s);
    CongMul(x3, x3, z, w * k);
    assert x3 * (w * k) == w * (x3 * k);
    CongTrans(x3 * z, w * (x3 * k), w * s);
    CongSym(x3 * z, n);
  }

  /** Addition at scales z1 and z2 satisfies the curve law: X3 = x3 Z3 and Y3 = y3 T3. */
  lemma SumLaw(x1: int, y1: int, z1: int, x2: int, y2: int, z2: int, x3: int, y3: int, s: Residues)
    requires Law(x1, y1, x2, y2, x3, y3) && Unit(z1) && Unit(z2)
    requires s == Sum(Residues(x1 * z1, y1 * z1, z1, (x1 * y1) * z1), ToNiels(Residues(x2 * z2, y2 * z2, z2, (x2 * y2) * z2)))
    ensures Cong(s.x, x3 * s.z) && Cong(s.y, y3 * s.t) && Unit(s.z) && Unit(s.t)
  {
    hide Cong, Unit;
    var w := 2 * (z1 * z2);
    var m := (x1 * x2) * (y1 * y2);
    assert s.x == w * (x1 * y2 + x2 * y1) && s.y == w * (y1 * y2 + x1 * x2) by { SumIdentity(x1, y1, z1, x2, y2, z2); }
    assert s.z == w + (z1 * z2) * m * D2 && s.t == w - (z1 * z2) * m * D2 by { SumScale(x1, y1, z1, x2, y2, z2); }
    hide Sum, ToNiels;
    var r := (z1 * z2) * m;
    assert Cong(r * D2, r * (2 * D)) by {
      Constants();
      CongRefl(r);
      CongMul(r, r, D2, 2 * D);
    }
    assert r * (2 * D) == w * (D * m);
    CongRefl(w);
    CongAdd(w, w, r * D2, w * (D * m));
    assert w + w * (D * m) == w * (1 + D * m) && w - w * (D * m) == w * (1 - D * m);
    ScaleLaw(x3, 1 + D * m, x1 * y2 + x2 * y1, w, s.x, s.z);
    ScaleLaw(y3, 1 - D * m, y1 * y2 + x1 * x2, w, s.y, s.t);
    UnitTwo();
    UnitMul(z1, z2);
    UnitMul(2, z1 * z2);
    UnitMul(w, 1 + D * m);
    UnitMul(w, 1 - D * m);
    UnitCong(w * (1 + D * m), s.z);
    UnitCong(w * (1 - D * m), s.t);
  }

  lemma SumIdentity(x1: int, y1: int, z1: int, x2: int, y2: int, z2: int)
    ensures (y1 * z1 + x1 * z1) * (y2 * z2 + x2 * z2) - (y1 * z1 - x1 * z1) * (y2 * z2 - x2 * z2)
         == (2 * (z1 * z2)) * (x1 * y2 + x2 * y1)
    ensures (y1 * z1 + x1 * z1) * (y2 * z2 + x2 * z2) + (y1 * z1 - x1 * z1) * (y2 * z2 - x2 * z2)
         == (2 * (z1 * z2)) * (y1 * y2 + x1 * x2)
  {
  }

  lemma SumScale(x1: int, y1: int, z1: int, x2: int, y2: int, z2: int)
    ensures ((x1 * y1) * z1) * (((x2 * y2) * z2) * D2) == (z1 * z2) * ((x1 * x2) * (y1 * y2)) * D2
  {
    var t1, t2 := (x1 * y1) * z1, (x2 * y2) * z2;
    assert t1 * (t2 * D2) == (t1 * t2) * D2;
    assert t1 * t2 == (z1 * z2) * ((x1 * x2) * (y1 * y2));
  }

  /** Doubling a point of the curve satisfies the law of adding it to itself. */
  lemma DoubleLaw(x: int, y: int, z: int, x3: int, y3: int, s: Residues)
    requires OnCurve(x, y) && Law(x, y, x, y, x3, y3) && Unit(z)
    requires s == Residues((x * z + y * z) * (x * z + y * z) - ((y * z) * (y * z) + (x * z) * (x * z)),
                           (y * z) * (y * z) + (x * z) * (x * z), (y * z) * (y * z) - (x * z) * (x * z),
                           2 * (z * z) - ((y * z) * (y * z) - (x * z) * (x * z)))
    ensures Cong(s.x, x3 * s.z) && Cong(s.y, y3 * s.t) && Unit(s.z) && Unit(s.t)
  {
    hide Cong, Unit;
    var w := z * z;
    var k := D * ((x * x) * (y * y));
    assert s.x == w * (x * y + x * y) && s.y == w * (y * y + x * x) && s.z == w * (y * y - x * x)
        && s.t == 2 * w - w * (y * y - x * x) by {
      DoubleIdentity(x, y, z);
    }
    assert D * (x * x) * (y * y) == k;
    CongRefl(w); CongRefl(2 * w);
    CongMul(w, w, y * y - x * x, 1 + k);
    CongAdd(2 * w, 2 * w, s.z, w * (1 + k));
    assert 2 * w - w * (1 + k) == w * (1 - k);
    ScaleLaw(x3, 1 + k, x * y + x * y, w, s.x, s.z);
    ScaleLaw(y3, 1 - k, y * y + x * x, w, s.y, s.t);
    UnitMul(z, z);
    UnitMul(w, 1 + k);
    UnitMul(w, 1 - k);
    UnitCong(w * (1 + k), s.z);
    UnitCong(w * (1 - k), s.t);
  }

  lemma DoubleIdentity(x: int, y: int, z: int)
    ensures (x * z + y * z) * (x * z + y * z) - ((y * z) * (y * z) + (x * z) * (x * z)) == (z * z) * (x * y + x * y)
    ensures (y * z) * (y * z) + (x * z) * (x * z) == (z * z) * (y * y + x * x)
    ensures (y * z) * (y * z) - (x * z) * (x * z) == (z * z) * (y * y - x * x)
  {
  }

  /** A table entry of b read with the sign bit set stands for -b. */
  lemma NegatedEntry<E(!new)>(c: Curve<E>, b: E, z: int, ysubx: int, xaddy: int, t2d: int)
    requires Valid(c)
    requires var v := ToNiels(At(c, b, z)); Cong(ysubx, v.ysubx) && Cong(xaddy, v.xaddy) && Cong(t2d, v.t2d)
    ensures var v := Signed(ToNiels(At(c, c.neg(b), z)), 1); Cong(ysubx, v.ysubx) && Cong(xaddy, v.xaddy) && Cong(t2d, v.t2d)
  {
    assert NegAt(c, b);
    hide Cong, Valid;
    var x, y, x' := c.x(b), c.y(b), c.x(c.neg(b));
    CongRefl(z); CongRefl(y * z); CongRefl(0); CongRefl((y * z) * D2);
    CongMul(x', -x, z, z);
    CongAdd(y * z, y * z, x' * z, (-x) * z);
    assert (-x) * z == -(x * z);
    CongSym(y * z + x' * z, y * z - x * z);
    CongSym(y * z - x' * z, y * z + x * z);
    CongTrans(ysubx, y * z - x * z, y * z + x' * z);
    CongTrans(xaddy, y * z + x * z, y * z - x' * z);
    var m := (y * z) * D2;
    CongMul(x', -x, m, m);
    CongAdd(0, 0, x' * m, (-x) * m);
    assert 0 - (-x) * m == ((x * y) * z) * D2 && 0 - x' * m == -(((x' * y) * z) * D2) by { EntryIdentity(x, x', y, z); }
    CongSym(0 - x' * m, 0 - (-x) * m);
    CongTrans(t2d, 0 - (-x) * m, 0 - x' * m);
  }

  lemma EntryIdentity(x: int, x': int, y: int, z: int)
    ensures 0 - (-x) * ((y * z) * D2) == ((x * y) * z) * D2
    ensures 0 - x' * ((y * z) * D2) == -(((x' * y) * z) * D2)
  {
    assert x * (y * z) == (x * y) * z && x' * (y * z) == (x' * y) * z;
    assert x * ((y * z) * D2) == (x * (y * z)) * D2;
    assert x' * ((y * z) * D2) == (x' * (y * z)) * D2;
  }

  // ---- the routines --------------------------------------------------------

  /** The element an entry contributes when it is read with a sign bit. */
  ghost function Oriented<E>(c: Curve<E>, b: E, signbit: int): E {
    if signbit == 0 then b else c.neg(b)
  }

  /** ge25519_p1p1_to_full */
  method Full<E(!new)>(p: P1P1, ghost c: Curve<E>, ghost e: E) returns (r: Ge)
    requires P1P1Of(c, p, e)
    ensures FullOf(c, r, e)
  {
    hide Cong, Val, Unit;
    ghost var z, t := Val(p.z), Val(p.t);
    r := ToFull(p, Residues(c.x(e) * z, c.y(e) * t, z, t));
    ConversionIdentity(c.x(e), c.y(e), z, t);
    UnitMul(z, t);
    FullIntro(c, r, e, z * t);
  }

  /** ge25519_p1p1_to_partial */
  method Partial<E(!new)>(r0: Ge, p: P1P1, ghost c: Curve<E>, ghost e: E) returns (r: Ge)
    requires P1P1Of(c, p, e)
    ensures PartialOf(c, r, e) && r.t == r0.t
  {
    hide Cong, Val, Unit;
    ghost var z, t := Val(p.z), Val(p.t);
    r := ToPartial(r0, p, Residues(c.x(e) * z, c.y(e) * t, z, t));
    ConversionIdentity(c.x(e), c.y(e), z, t);
    UnitMul(z, t);
    PartialIntro(c, r, e, z * t);
  }

  lemma ConversionIdentity(x: int, y: int, z: int, t: int)
    ensures (x * z) * t == x * (z * t) && (y * t) * z == y * (z * t) && (x * z) * (y * t) == (x * y) * (z * t)
  {
  }

  /** ge25519_double_p1p1 reads only x, y and z. */
  method DoubleToP1P1<E(!new)>(p: Ge, ghost c: Curve<E>, ghost e: E) returns (r: P1P1)
    requires Valid(c) && PartialOf(c, p, e)
    ensures P1P1Of(c, r, c.add(e, e))
  {
    assert LawAt(c, e, e) && CoordinatesAt(c, e);
    hide Cong, Val, Unit, Valid, Law, OnCurve;
    ghost var u := At(c, e, Val(p.z));
    r := DoubleP1P1(p, u);
    ghost var s := Residues((u.x + u.y) * (u.x + u.y) - (u.y * u.y + u.x * u.x), u.y * u.y + u.x * u.x,
                            u.y * u.y - u.x * u.x, 2 * (u.z * u.z) - (u.y * u.y - u.x * u.x));
    ghost var e2 := c.add(e, e);
    DoubleLaw(c.x(e), c.y(e), Val(p.z), c.x(e2), c.y(e2), s);
    P1P1Intro(c, r, e2, s);
  }

  /** ge25519_double */
  method Double<E(!new)>(p: Ge, ghost c: Curve<E>, ghost e: E) returns (r: Ge)
    requires Valid(c) && PartialOf(c, p, e)
    ensures FullOf(c, r, c.add(e, e))
  {
    var t := DoubleToP1P1(p, c, e);
    r := Full(t, c, c.add(e, e));
  }

  /** ge25519_double_partial leaves t as it was. */
  method DoublePartial<E(!new)>(p: Ge, ghost c: Curve<E>, ghost e: E) returns (r: Ge)
    requires Valid(c) && PartialOf(c, p, e)
    ensures PartialOf(c, r, c.add(e, e)) && r.t == p.t
  {
    var t := DoubleToP1P1(p, c, e);
    r := Partial(p, t, c, c.add(e, e));
  }

  /** The residues of a sum represent the sum of the elements. */
  lemma SumRepresents<E(!new)>(c: Curve<E>, a: E, b: E, z1: int, z2: int)
    requires Valid(c) && Unit(z1) && Unit(z2)
    ensures var s := Sum(At(c, a, z1), ToNiels(At(c, b, z2))); var e := c.add(a, b);
      Cong(s.x, c.x(e) * s.z) && Cong(s.y, c.y(e) * s.t) && Unit(s.z) && Unit(s.t)
  {
    assert LawAt(c, a, b);
    hide Cong, Unit, Valid, Law;
    var e := c.add(a, b);
    SumLaw(c.x(a), c.y(a), z1, c.x(b), c.y(b), z2, c.x(e), c.y(e), Sum(At(c, a, z1), ToNiels(At(c, b, z2))));
  }

  /** ge25519_add */
  method AddPoints<E(!new)>(p: Ge, q: Ge, ghost c: Curve<E>, ghost a: E, ghost b: E) returns (r: Ge)
    requires Valid(c) && FullOf(c, p, a) && FullOf(c, q, b)
    ensures FullOf(c, r, c.add(a, b))
  {
    hide Cong, Val, Unit, Valid, Sum, ToNiels;
    var t := AddP1P1(p, q, At(c, a, Val(p.z)), At(c, b, Val(q.z)));
    SumRepresents(c, a, b, Val(p.z), Val(q.z));
    P1P1Intro(c, t, c.add(a, b), Sum(At(c, a, Val(p.z)), ToNiels(At(c, b, Val(q.z)))));
    r := Full(t, c, c.add(a, b));
  }

  lemma UnitOne()
    ensures Unit(1)
  {
    CongRefl(1);
    UnitIntro(1, 1);
  }

  /** ge25519_nielsadd2_p1p1 with either sign. */
  method NielsStep<E(!new)>(p: Ge, q: Niels, signbit: int, ghost c: Curve<E>, ghost a: E, ghost b: E) returns (r: P1P1)
    requires Valid(c) && FullOf(c, p, a) && NielsOf(c, q, b) && 0 <= signbit <= 1
    ensures P1P1Of(c, r, c.add(a, Oriented(c, b, signbit)))
  {
    hide Cong, Val, Unit, Valid, Sum;
    ghost var b' := Oriented(c, b, signbit);
    if signbit == 1 {
      NegatedEntry(c, b, 1, Val(q.ysubx), Val(q.xaddy), Val(q.t2d));
    }
    r := NielsAdd2P1P1(p, q, signbit, At(c, a, Val(p.z)), ToNiels(At(c, b', 1)));
    UnitOne();
    SumRepresents(c, a, b', Val(p.z), 1);
    P1P1Intro(c, r, c.add(a, b'), Sum(At(c, a, Val(p.z)), ToNiels(At(c, b', 1))));
  }

  /** ge25519_pnielsadd_p1p1 with either sign. */
  method PNielsStep<E(!new)>(p: Ge, q: PNiels, signbit: int, ghost c: Curve<E>, ghost a: E,
                             ghost b: E) returns (r: P1P1)
    requires Valid(c) && FullOf(c, p, a) && PNielsOf(c, q, b) && 0 <= signbit <= 1
    ensures P1P1Of(c, r, c.add(a, Oriented(c, b, signbit)))
  {
    hide Cong, Val, Unit, Valid, Sum;
    ghost var b', z := Oriented(c, b, signbit), Val(q.z);
    if signbit == 1 {
      NegatedEntry(c, b, z, Val(q.ysubx), Val(q.xaddy), Val(q.t2d));
    }
    r := PNielsAddP1P1(p, q, signbit, At(c, a, Val(p.z)), ToNiels(At(c, b', z)));
    SumRepresents(c, a, b', Val(p.z), z);
    P1P1Intro(c, r, c.add(a, b'), Sum(At(c, a, Val(p.z)), ToNiels(At(c, b', z))));
  }

  /** ge25519_nielsadd2 */
  method NielsAdd<E(!new)>(p: Ge, q: Niels, ghost c: Curve<E>, ghost a: E, ghost b: E) returns (r: Ge)
    requires Valid(c) && FullOf(c, p, a) && NielsOf(c, q, b)
    ensures FullOf(c, r, c.add(a, b))
  {
    hide Cong, Val, Unit, Valid, Sum;
    var t := NielsSum(p, q, At(c, a, Val(p.z)), ToNiels(At(c, b, 1)));
    UnitOne();
    SumRepresents(c, a, b, Val(p.z), 1);
    P1P1Intro(c, t, c.add(a, b), Sum(At(c, a, Val(p.z)), ToNiels(At(c, b, 1))));
    r := Full(t, c, c.add(a, b));
  }

  /** ge25519_full_to_pniels */
  method FullToPNiels<E(!new)>(p: Ge, ghost c: Curve<E>, ghost e: E) returns (q: PNiels)
    requires FullOf(c, p, e)
    ensures PNielsOf(c, q, e)
  {
    hide Cong, Val, Unit;
    q := ToPNiels(p, At(c, e, Val(p.z)));
  }

  /** ge25519_pnielsadd */
  method PNielsAdd<E(!new)>(p: Ge, q: PNiels, ghost c: Curve<E>, ghost a: E, ghost b: E) returns (r: PNiels)
    requires Valid(c) && FullOf(c, p, a) && PNielsOf(c, q, b)
    ensures PNielsOf(c, r, c.add(a, b))
  {
    hide Cong, Val, Unit, Valid, Sum;
    var t := PNielsSum(p, q, At(c, a, Val(p.z)), ToNiels(At(c, b, Val(q.z))));
    SumRepresents(c, a, b, Val(p.z), Val(q.z));
    P1P1Intro(c, t, c.add(a, b), Sum(At(c, a, Val(p.z)), ToNiels(At(c, b, Val(q.z)))));
    var full := Full(t, c, c.add(a, b));
    r := FullToPNiels(full, c, c.add(a, b));
  }

  const ZERO_FE := Fe(0, 0, 0, 0, 0)
  const ONE_FE := Fe(1, 0, 0, 0, 0)

  /** The neutral point as memset and two stores build it. */
  const NEUTRAL := Ge(ZERO_FE, ONE_FE, ONE_FE, ZERO_FE)

  lemma NeutralIsZero<E(!new)>(c: Curve<E>)
    requires Valid(c)
    ensures FullOf(c, NEUTRAL, c.zero)
  {
    assert Val(ZERO_FE) == 0 && Val(ONE_FE) == 1;
    CongRefl(0);
    CongRefl(1);
    UnitOne();
  }

  /** A full point may be read as a partial one. */
  lemma FullIsPartial<E(!new)>(c: Curve<E>, p: Ge, e: E)
    requires FullOf(c, p, e)
    ensures PartialOf(c, p, e)
  {
  }

  /** The invariant of extended coordinates, XY = ZT. */
  lemma Extended<E>(c: Curve<E>, p: Ge, e: E)
    requires FullOf(c, p, e)
    ensures Cong(Val(p.x) * Val(p.y), Val(p.z) * Val(p.t))
  {
    var z, x, y := Val(p.z), c.x(e), c.y(e);
    hide Cong, Val, Unit;
    CongMul(Val(p.x), x * z, Val(p.y), y * z);
    CongRefl(z);
    CongMul(z, z, Val(p.t), (x * y) * z);
    assert (x * z) * (y * z) == z * ((x * y) * z);
    CongSym(z * Val(p.t), z * ((x * y) * z));
    CongTrans(Val(p.x) * Val(p.y), z * ((x * y) * z), z * Val(p.t));
  }

  lemma Coordinates<E(!new)>(c: Curve<E>, e: E)
    requires Valid(c)
    ensures CoordinatesAt(c, e) && NegAt(c, e)
  {
    assert CoordinatesAt(c, e) && NegAt(c, e);
  }

  /** A representation fixes the coordinates of what it stands for. */
  lemma PartialUnique<E(!new)>(c: Curve<E>, p: Ge, e: E, f: E)
    requires Valid(c) && PartialOf(c, p, e) && PartialOf(c, p, f)
    ensures c.x(e) == c.x(f) && c.y(e) == c.y(f)
  {
    hide Valid, Cong, Val, Unit, OnCurve;
    Coordinates(c, e);
    Coordinates(c, f);
    SameCoordinate(Val(p.x), c.x(e), c.x(f), Val(p.z));
    SameCoordinate(Val(p.y), c.y(e), c.y(f), Val(p.z));
  }

  lemma SameCoordinate(v: int, a: int, b: int, z: int)
    requires Unit(z) && Cong(v, a * z) && Cong(v, b * z) && 0 <= a < P && 0 <= b < P
    ensures a == b
  {
    hide Cong, Unit;
    CongSym(v, a * z);
    CongTrans(a * z, v, b * z);
    UnitCancel(z, a, b);
    CongCanonical(a, b);
  }

  /** If the group is all of the curve, a representation stands for exactly one element. */
  lemma StandsForOne<E(!new)>(c: Curve<E>, p: Ge, e: E, f: E)
    requires Valid(c) && Faithful(c) && FullOf(c, p, e)
    ensures FullOf(c, p, f) <==> e == f
  {
    hide Valid, FullOf, PartialOf;
    if FullOf(c, p, f) {
      FullIsPartial(c, p, e);
      FullIsPartial(c, p, f);
      PartialUnique(c, p, e, f);
      assert SameAt(c, e, f);
    }
  }
}
