/** The scalar multiplications of ed25519-donna-impl-base.h. */
module ScalarMult {
  import opened Words
  import opened CurveGroup
  import opened Points
  import opened PointGroup
  import opened Multiples
  import opened Digits
  import opened Recoding

  function Abs(d: int): int { if d < 0 then -d else d }

  /** `(unsigned char)d >> 7` for a signed char d. */
  function SignBit(d: int): int { if d < 0 then 1 else 0 }

  /** Row i of a table of odd multiples holds [2i + 1]e. */
  ghost predicate OddPNiels<E>(c: Curve<E>, table: seq<PNiels>, e: E) {
    forall i :: 0 <= i < |table| ==> PNielsOf(c, table[i], Times(c, 2 * i + 1, e))
  }

  ghost predicate OddNiels<E>(c: Curve<E>, table: seq<Niels>, e: E) {
    forall i :: 0 <= i < |table| ==> NielsOf(c, table[i], Times(c, 2 * i + 1, e))
  }

  /** The table of the first eight odd multiples of p1. */
  method OddMultiples<E(!new)>(p1: Ge, ghost c: Curve<E>, ghost a: E) returns (pre1: seq<PNiels>)
    requires Valid(c) && FullOf(c, p1, a)
    ensures |pre1| == 8 && OddPNiels(c, pre1, a)
  {
    hide FullOf, PartialOf, PNielsOf, Valid, Times;
    FullIsPartial(c, p1, a);
    var d1 := Double(p1, c, a);
    var q := FullToPNiels(p1, c, a);
    TimesOne(c, a);
    TimesAdd(c, 1, 1, a);
    pre1 := [q];
    for i := 0 to 7
      invariant |pre1| == i + 1 && OddPNiels(c, pre1, a)
    {
      q := PNielsAdd(d1, pre1[i], c, Times(c, 2, a), Times(c, 2 * i + 1, a));
      TimesAdd(c, 2, 2 * i + 1, a);
      assert 2 + (2 * i + 1) == 2 * (i + 1) + 1;
      pre1 := pre1 + [q];
    }
  }

  /** A table entry chosen by |d| / 2 and oriented by the sign of an odd digit d is [d]e. */
  lemma OrientedMultiple<E(!new)>(c: Curve<E>, d: int, e: E)
    requires Valid(c) && d % 2 == 1
    ensures Oriented(c, Times(c, 2 * (Abs(d) / 2) + 1, e), SignBit(d)) == Times(c, d, e)
  {
    hide Valid, Times;
    assert 2 * (Abs(d) / 2) + 1 == Abs(d);
    if d < 0 {
      TimesNeg(c, -d, e);
    }
  }

  lemma LinPlusFirst<E(!new)>(c: Curve<E>, u: int, v: int, d: int, a: E, b: E)
    requires Valid(c)
    ensures c.add(Lin(c, u, a, v, b), Times(c, d, a)) == Lin(c, u + d, a, v, b)
  {
    hide Valid, Times, Lin;
    LinFirst(c, d, a, b);
    LinAdd(c, u, v, d, 0, a, b);
    assert v + 0 == v;
  }

  lemma LinPlusSecond<E(!new)>(c: Curve<E>, u: int, v: int, d: int, a: E, b: E)
    requires Valid(c)
    ensures c.add(Lin(c, u, a, v, b), Times(c, d, b)) == Lin(c, u, a, v + d, b)
  {
    hide Valid, Times, Lin;
    LinFirst(c, d, a, b);
    LinAdd(c, u, v, 0, d, a, b);
    assert u + 0 == u;
  }

  /** One turn of the main loop: doubles, adds the two digits, and converts to partial. Only the
      conversions to full write t, and only the additions read it. */
  method HornerStep<E(!new)>(r0: Ge, d1: int, d2: int, pre1: seq<PNiels>, table: seq<Niels>,
                             ghost c: Curve<E>, ghost a: E, ghost b: E, ghost u: int, ghost v: int) returns (r: Ge)
    requires Valid(c) && PartialOf(c, r0, Lin(c, u, a, v, b))
    requires |pre1| == 8 && OddPNiels(c, pre1, a) && |table| == 32 && OddNiels(c, table, b)
    requires (d1 == 0 || (d1 % 2 == 1 && -16 < d1 < 16)) && (d2 == 0 || (d2 % 2 == 1 && -64 < d2 < 64))
    ensures PartialOf(c, r, Lin(c, 2 * u + d1, a, 2 * v + d2, b))
  {
    hide FullOf, PartialOf, P1P1Of, OddPNiels, OddNiels, Valid, Times, Lin;
    var t := DoubleToP1P1(r0, c, Lin(c, u, a, v, b));
    LinAdd(c, u, v, u, v, a, b);
    r := r0;
    if d1 != 0 {
      r := Full(t, c, Lin(c, 2 * u, a, 2 * v, b));
      t := AddFirst(r, d1, pre1, c, a, b, 2 * u, 2 * v);
    }
    if d2 != 0 {
      r := Full(t, c, Lin(c, 2 * u + d1, a, 2 * v, b));
      t := AddSecond(r, d2, table, c, a, b, 2 * u + d1, 2 * v);
    }
    r := Partial(r, t, c, Lin(c, 2 * u + d1, a, 2 * v + d2, b));
  }

  method AddFirst<E(!new)>(r: Ge, d: int, pre1: seq<PNiels>, ghost c: Curve<E>, ghost a: E, ghost b: E, ghost u: int,
                           ghost v: int)
    returns (t: P1P1)
    requires Valid(c) && FullOf(c, r, Lin(c, u, a, v, b))
    requires |pre1| == 8 && OddPNiels(c, pre1, a) && d % 2 == 1 && -16 < d < 16
    ensures P1P1Of(c, t, Lin(c, u + d, a, v, b))
  {
    hide FullOf, P1P1Of, PNielsOf, Valid, Times, Lin, Oriented;
    ghost var m := Times(c, 2 * (Abs(d) / 2) + 1, a);
    t := PNielsStep(r, pre1[Abs(d) / 2], SignBit(d), c, Lin(c, u, a, v, b), m);
    OrientedMultiple(c, d, a);
    LinPlusFirst(c, u, v, d, a, b);
  }

  method AddSecond<E(!new)>(r: Ge, d: int, table: seq<Niels>, ghost c: Curve<E>, ghost a: E, ghost b: E, ghost u: int,
                            ghost v: int)
    returns (t: P1P1)
    requires Valid(c) && FullOf(c, r, Lin(c, u, a, v, b))
    requires |table| == 32 && OddNiels(c, table, b) && d % 2 == 1 && -64 < d < 64
    ensures P1P1Of(c, t, Lin(c, u, a, v + d, b))
  {
    hide FullOf, P1P1Of, NielsOf, Valid, Times, Lin, Oriented;
    ghost var m := Times(c, 2 * (Abs(d) / 2) + 1, b);
    t := NielsStep(r, table[Abs(d) / 2], SignBit(d), c, Lin(c, u, a, v, b), m);
    OrientedMultiple(c, d, b);
    LinPlusSecond(c, u, v, d, a, b);
  }

  lemma NafRange(s: seq<int>, i: nat, w: int)
    requires (w == 5 || w == 7) && Naf(s, |s|, w) && i < |s|
    ensures s[i] == 0 || (s[i] % 2 == 1 && (w == 5 ==> -16 < s[i] < 16) && (w == 7 ==> -64 < s[i] < 64))
  {
    assert NafDigit(s, i, w);
    assert Pow2(4) == 16 && Pow2(6) == 64;
  }

  /** The main loop of ge25519_double_scalarmult_vartime over the recoded digits. */
  method HornerLoop<E(!new)>(slide1: seq<int>, slide2: seq<int>, pre1: seq<PNiels>, table: seq<Niels>,
                             ghost c: Curve<E>, ghost a: E, ghost b: E) returns (r: Ge)
    requires Valid(c) && |pre1| == 8 && OddPNiels(c, pre1, a) && |table| == 32 && OddNiels(c, table, b)
    requires |slide1| == |slide2| == 256 && Naf(slide1, 256, 5) && Naf(slide2, 256, 7)
    ensures PartialOf(c, r, Lin(c, Horner(slide1, 0), a, Horner(slide2, 0), b))
  {
    hide FullOf, PartialOf, PNielsOf, NielsOf, OddPNiels, OddNiels, Valid, Times, Lin, Naf;
    r := NEUTRAL;
    NeutralIsZero(c);
    FullIsPartial(c, r, c.zero);
    LinZero(c, a, b);
    var i := 255;
    while i >= 0 && slide1[i] == 0 && slide2[i] == 0
      invariant -1 <= i <= 255
      invariant Horner(slide1, i + 1) == 0 && Horner(slide2, i + 1) == 0
    {
      i := i - 1;
    }
    while i >= 0
      invariant -1 <= i <= 255
      invariant PartialOf(c, r, Lin(c, Horner(slide1, i + 1), a, Horner(slide2, i + 1), b))
    {
      NafRange(slide1, i, 5);
      NafRange(slide2, i, 7);
      ghost var u, v := Horner(slide1, i + 1), Horner(slide2, i + 1);
      assert Horner(slide1, i) == 2 * u + slide1[i] && Horner(slide2, i) == 2 * v + slide2[i];
      r := HornerStep(r, slide1[i], slide2[i], pre1, table, c, a, b, u, v);
      i := i - 1;
    }
  }

  /** ge25519_double_scalarmult_vartime: [s1]p1 + [s2]basepoint, for all scalars up to 2^255. Beyond
      that a scalar counts without the carry that its recoding loses. */
  method DoubleScalarMult<E(!new)>(p1: Ge, s1: Limbs, s2: Limbs, table: seq<Niels>, ghost c: Curve<E>, ghost a: E,
                                   ghost b: E)
    returns (r: Ge)
    requires Valid(c) && FullOf(c, p1, a) && |table| == 32 && OddNiels(c, table, b)
    requires Carried(s1) && s1[4] < TWO32 && Carried(s2) && s2[4] < TWO32
    ensures PartialOf(c, r, Lin(c, Recoded(Value(s1), 5), a, Recoded(Value(s2), 7), b))
    ensures Value(s1) <= TWO255 && Value(s2) <= TWO255 ==> PartialOf(c, r, Lin(c, Value(s1), a, Value(s2), b))
  {
    hide FullOf, PartialOf, OddPNiels, OddNiels, Valid, Times, Lin, Eval, Naf, Horner, Radix56, Recoded, Left;
    hide LastWindow;
    var slide1 := new int[256];
    ContractSlidingWindow(slide1, s1, 5);
    ghost var d1 := slide1[..];
    var slide2 := new int[256];
    ContractSlidingWindow(slide2, s2, 7);
    assert slide1[..] == d1;
    var pre1 := OddMultiples(p1, c, a);
    r := HornerLoop(slide1[..], slide2[..], pre1, table, c, a, b);
    HornerWhole(slide1[..]);
    HornerWhole(slide2[..]);
    NothingLost(s1, 5);
    NothingLost(s2, 7);
  }

  lemma NothingLost(s: Limbs, w: nat)
    requires Carried(s) && w >= 2
    ensures Value(s) <= TWO255 ==> Recoded(Value(s), w) == Value(s)
  {
    hide Left, Pow;
    if Value(s) <= TWO255 {
      TwoTo255();
      LeftBound(Value(s), w, 255);
    }
  }

  lemma HornerWhole(s: seq<int>)
    ensures Horner(s, 0) == Eval(s, 2)
  {
    HornerEval(s, 0);
    assert Pow(2, 0) == 1;
    assert s[..0] == [];
  }

  lemma LinZero<E(!new)>(c: Curve<E>, a: E, b: E)
    requires Valid(c)
    ensures Lin(c, 0, a, 0, b) == c.zero
  {
    LinFirst(c, 0, a, b);
    assert Times(c, 0, a) == c.zero;
  }
}
