/** The test that ends a batch: is the combined point the neutral one? */
module BatchCheck {
  import opened Words
  import opened Bytes
  import opened Field
  import opened FieldCodec
  import opened CurveGroup
  import opened Points
  import opened PointGroup
  import opened PointCodec
  import opened Multiples
  import opened Heap
  import opened BosCoster
  import opened BatchScalars
  import Modm

  /** ge25519_is_neutral_vartime */
  method IsNeutral<E(!new)>(p: Ge, ghost c: Curve<E>, ghost e: E) returns (r: bool)
    requires Valid(c) && Faithful(c) && PartialOf(c, p, e)
    ensures r <==> e == c.zero
  {
    hide CurveGroup.Valid, Faithful, Val, Cong, LE, Unit, OnCurve, Store;
    var x := Contract(p.x);
    var y := Contract(p.y);
    var z := Contract(p.z);
    r := x == Store(0, 32) && y == z;
    ghost var v := Val(p.x);
    CongRefl(v);
    ZeroResidue(x, v, v);
    SameBytes(y, z, Val(p.y), Val(p.z));
    Coordinates(c, e);
    NeutralCoordinates(c, e);
    ScaledIs(v, c.x(e), 0, Val(p.z));
    ScaledIs(Val(p.y), c.y(e), 1, Val(p.z));
  }

  lemma SameBytes(y: seq<byte>, z: seq<byte>, v: int, w: int)
    requires |y| == 32 && |z| == 32 && LE(y) == v % P && LE(z) == w % P
    ensures y == z <==> Cong(v, w)
  {
    hide LE, Cong;
    CongMod(v);
    CongMod(w);
    if y == z {
      CongTrans(v, v % P, w);
    }
    if Cong(v, w) {
      SameResidue(v, w);
      LEInjective(y, z);
    }
  }

  /** A coordinate is n exactly when its scaled form is n times the scale. */
  lemma ScaledIs(v: int, a: int, n: int, z: int)
    requires Unit(z) && Cong(v, a * z) && 0 <= a < P && 0 <= n < P
    ensures Cong(v, n * z) <==> a == n
  {
    hide Cong, Unit;
    if Cong(v, n * z) {
      SameCoordinate(v, a, n, z);
    }
  }

  lemma NeutralCoordinates<E(!new)>(c: Curve<E>, e: E)
    requires Valid(c) && Faithful(c)
    ensures e == c.zero <==> c.x(e) == 0 && c.y(e) == 1
  {
    assert ZeroAt(c, e) && SameAt(c, e, c.zero);
  }

  /** What the test of a batch decides, for every input: whether the multiple that is returned is
      neutral. With an extended heap that is whether the sum is neutral, for all scalars, although
      the point itself need not be the sum. */
  method SumIsNeutral<E(!new)>(b: BatchHeap, count: nat, ghost c: Curve<E>, ghost e0: seq<E>)
    returns (r: FinalResult, ok: bool, ghost g: int, ghost x: E, ghost k: nat)
    requires Valid(c) && Faithful(c) && b.Valid() && 5 <= count <= CAPACITY && OddSizes(Keys(b.scalars[..]), count)
    requires Loaded(b.scalars[..], count, 4) && |e0| == count && AllPoints(c, b.points[..], e0, count)
    requires forall i :: HeapStart(count) <= i < count ==> Keys(b.scalars[..])[i] < TWO128
    modifies b, b.heap, b.scalars, b.points
    ensures Survives(c, old(Keys(b.scalars[..])), e0, Reached(old(Keys(b.scalars[..])), count), g, x)
    ensures r.OutOfBounds? <==> Unscannable(g)
    ensures r.OutOfBounds? <==> Stuck(old(Keys(b.scalars[..])), HeapStart(count))
    ensures r.Done? ==> Leading(g, k) && (ok <==> Times(c, FinalMultiple(g, k), x) == c.zero)
    ensures Extends(old(Keys(b.scalars[..])), HeapStart(count)) ==> r.Done?
    ensures Extends(old(Keys(b.scalars[..])), HeapStart(count)) && CofactorEight(c) && PrimeOrder() ==>
      (ok <==> SumOf(c, old(Keys(b.scalars[..])), e0, count) == c.zero)
  {
    hide CurveGroup.Valid, Faithful, FullOf, SumOf, Times, Extends, HeapStart, Loaded, AllPoints, Keys, Leading;
    hide Unscannable, Stuck, FinalMultiple;
    hide CofactorEight, PrimeOrder;
    ghost var v0 := Keys(b.scalars[..]);
    r, g, x, k := MultiScalarMult(b, count, c, e0);
    ok := false;
    if r.Done? {
      FullIsPartial(c, r.point, Times(c, FinalMultiple(g, k), x));
      ok := IsNeutral(r.point, c, Times(c, FinalMultiple(g, k), x));
    }
    if Extends(v0, HeapStart(count)) && CofactorEight(c) && PrimeOrder() {
      SameVerdict(c, g, k, x);
    }
  }

  // ---- why the doubled leading bit does not change the verdict ---------------

  ghost predicate Bezout(m: int, u: int, w: int) {
    u * m + w * Modm.L == 1
  }

  ghost predicate CoprimeToOrder(m: int) {
    0 < m < Modm.L ==> exists u, w :: Bezout(m, u, w)
  }

  /** L is prime: every smaller number is invertible modulo L. */
  ghost predicate PrimeOrder() {
    forall m :: CoprimeToOrder(m)
  }

  ghost predicate KilledAt<E>(c: Curve<E>, e: E) {
    Times(c, 8 * Modm.L, e) == c.zero
  }

  /** The group has 8 L elements, so 8 L annihilates each of them. */
  ghost predicate CofactorEight<E(!new)>(c: Curve<E>) {
    forall e :: KilledAt(c, e)
  }

  lemma KilledMultiple<E(!new)>(c: Curve<E>, q: int, m: int, x: E)
    requires Valid(c) && Times(c, m, x) == c.zero
    ensures Times(c, q * m, x) == c.zero
  {
    hide CurveGroup.Valid, Times;
    if q >= 0 {
      TimesTimes(c, q, m, x);
      TimesZero(c, q);
    } else {
      TimesTimes(c, -q, m, x);
      TimesZero(c, -q);
      TimesNeg(c, -q * m, x);
      NegZero(c);
    }
  }

  lemma NegZero<E(!new)>(c: Curve<E>)
    requires Valid(c)
    ensures c.neg(c.zero) == c.zero
  {
    hide CurveGroup.Valid;
    AddNeg(c, c.zero);
    AddZero(c, c.neg(c.zero));
  }

  /** What a multiple below L annihilates has order 1, 2, 4 or 8. */
  lemma EightTorsion<E(!new)>(c: Curve<E>, m: int, x: E)
    requires Valid(c) && PrimeOrder() && CofactorEight(c) && 0 < m < Modm.L && Times(c, m, x) == c.zero
    ensures Times(c, 8, x) == c.zero
  {
    hide CurveGroup.Valid, Times;
    assert CoprimeToOrder(m) && KilledAt(c, x);
    var u, w :| Bezout(m, u, w);
    var l := Modm.L;
    KilledMultiple(c, 8 * u, m, x);
    KilledMultiple(c, w, 8 * l, x);
    TimesAdd(c, (8 * u) * m, w * (8 * l), x);
    AddZero(c, c.zero);
    EightTimes(u, m, w, l);
  }

  lemma EightTimes(u: int, m: int, w: int, l: int)
    requires u * m + w * l == 1
    ensures (8 * u) * m + w * (8 * l) == 8
  {
    assert (8 * u) * m == 8 * (u * m) && w * (8 * l) == 8 * (w * l);
  }

  /** If x has order dividing 8, a survivor g and the multiple that the final step makes of it
      annihilate x together. */
  lemma SmallTorsion<E(!new)>(c: Curve<E>, g: int, k: nat, x: E)
    requires Valid(c) && 1 < g && Pow2(k) <= g < Pow2(k + 1) && Times(c, 8, x) == c.zero
    ensures Times(c, Pow2(k + 1) + g, x) == c.zero <==> Times(c, g, x) == c.zero
  {
    hide CurveGroup.Valid, Times, Pow2;
    SmallPowersOfTwo();
    if k >= 2 {
      Pow2Add(3, k - 2);
      KilledMultiple(c, Pow2(k - 2), 8, x);
      TimesAdd(c, Pow2(k + 1), g, x);
      AddZero(c, Times(c, g, x));
    } else if g == 2 {
      TimesAdd(c, 6, 2, x);
      Vanishing(c, Times(c, 6, x), Times(c, 2, x));
    } else {
      TimesAdd(c, 7, 1, x);
      Vanishing(c, Times(c, 7, x), Times(c, 1, x));
      ThirdOf(c, x);
    }
  }

  lemma SmallPowersOfTwo()
    ensures Pow2(0) == 1 && Pow2(1) == 2 && Pow2(2) == 4 && Pow2(3) == 8
  {
  }

  lemma Vanishing<E(!new)>(c: Curve<E>, a: E, b: E)
    requires Valid(c) && c.add(a, b) == c.zero
    ensures a == c.zero <==> b == c.zero
  {
    hide CurveGroup.Valid;
    AddZero(c, a);
    AddZero(c, b);
  }

  lemma ThirdOf<E(!new)>(c: Curve<E>, x: E)
    requires Valid(c) && Times(c, 8, x) == c.zero
    ensures Times(c, 3, x) == c.zero <==> Times(c, 1, x) == c.zero
  {
    hide CurveGroup.Valid, Times;
    if Times(c, 1, x) == c.zero {
      KilledMultiple(c, 3, 1, x);
    }
    if Times(c, 3, x) == c.zero {
      KilledMultiple(c, 3, 3, x);
      TimesAdd(c, 8, 1, x);
      AddZero(c, Times(c, 1, x));
    }
  }

  /** On a group of 8 L elements the returned multiple is neutral exactly if [g]x is. */
  lemma SameVerdict<E(!new)>(c: Curve<E>, g: int, k: nat, x: E)
    requires Valid(c) && PrimeOrder() && CofactorEight(c) && 0 <= g < TWO128 && Leading(g, k)
    ensures Times(c, FinalMultiple(g, k), x) == c.zero <==> Times(c, g, x) == c.zero
  {
    hide CurveGroup.Valid, Times, PrimeOrder, CofactorEight, Pow2, Weight;
    if g > 1 {
      SmallRemainder(g);
      Pow2Step(k);
      var m := Pow2(k + 1) + g;
      if Times(c, g, x) == c.zero {
        EightTorsion(c, g, x);
        SmallTorsion(c, g, k, x);
      }
      if Times(c, m, x) == c.zero {
        EightTorsion(c, m, x);
        SmallTorsion(c, g, k, x);
      }
    }
  }
}
