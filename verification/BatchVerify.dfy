/** ed25519_sign_open_batch: how a batch is set up and tested, what the verdict means, and what the
    driver reports. */
module BatchVerify {
  import opened Words
  import opened Bytes
  import opened CurveGroup
  import opened Points
  import opened PointGroup
  import opened PointCodec
  import opened Multiples
  import opened Digits
  import opened BatchScalars
  import opened Heap
  import opened BosCoster
  import opened BatchCheck
  import opened BatchTerms
  import Modm
  import ModmCodec
  import ScalarMult
  import Sha512
  import opened Signature

  const MAX_BATCH: nat := 64

  // ---- setting a batch up ----------------------------------------------------

  /** The limbs of a reduced scalar. */
  ghost predicate Holds(x: Limbs, v: int) {
    Carried(x) && Value(x) == v && 0 <= v < L
  }

  lemma Operand(x: Limbs, v: int)
    requires Holds(x, v)
    ensures Carried(x) && x[4] < TWO32 && Value(x) < L
  {
    hide Radix56;
    Modm.ReducedTop(x);
  }

  /** The product of two reduced scalars. */
  method Times256(x: Limbs, y: Limbs, ghost u: int, ghost v: int) returns (r: Limbs)
    requires Holds(x, u) && Holds(y, v)
    ensures Holds(r, u * v % L)
  {
    hide Radix56;
    Operand(x, u);
    Operand(y, v);
    r := Modm.Mul(x, y);
  }

  method Plus256(x: Limbs, y: Limbs, ghost u: int, ghost v: int) returns (r: Limbs)
    requires Holds(x, u) && Holds(y, v)
    ensures Holds(r, (u + v) % L)
  {
    hide Radix56;
    r := Modm.Add(x, y);
  }

  /** The scalars of the R points are the factors. */
  ghost predicate FactorsSet(ss: seq<Limbs>, batch: Batch)
    requires Sized(batch)
  {
    && 2 * |batch.ms| + 1 <= |ss|
    && forall i :: 0 <= i < |batch.ms| ==> Holds(ss[|batch.ms| + 1 + i], Factors(batch)[i])
  }

  /** The factors, expanded from 16 random bytes each. */
  method FillFactors(ss: array<Limbs>, batch: Batch)
    requires ss.Length == CAPACITY && Sized(batch) && |batch.ms| <= MAX_BATCH
    modifies ss
    ensures FactorsSet(ss[..], batch) && forall i :: 0 <= i < |batch.ms| ==> Factors(batch)[i] < TWO128
  {
    hide LE, Holds;
    var n := |batch.ms|;
    for i := 0 to n
      invariant forall k :: 0 <= k < i ==> Holds(ss[n + 1 + k], LE(batch.rnd[k])) && LE(batch.rnd[k]) < TWO128
    {
      var x := ModmCodec.Expand256(batch.rnd[i]);
      SixteenBytes(batch.rnd[i], x);
      ss[n + 1 + i] := x;
    }
  }

  lemma SixteenBytes(s: seq<byte>, x: Limbs)
    requires |s| == 16 && Carried(x) && Value(x) == LE(s)
    ensures Holds(x, LE(s)) && 0 <= LE(s) < TWO128
  {
    hide LE, Pow256, Radix56;
    LEBound(s);
    Pow256Eight();
    Pow256Add(8, 8);
  }

  method ResponseScalar(s: seq<byte>) returns (x: Limbs)
    requires |s| == 32 || |s| == 64
    ensures Holds(x, LE(s) % L)
  {
    hide LE, Radix56;
    x := Scalar(s);
  }

  /** Slot i holds the product of response i and factor i. */
  ghost predicate ProductsSet(ss: seq<Limbs>, r: seq<int>, s: seq<int>, lo: nat) {
    |r| == |s| <= |ss| && forall k :: lo <= k < |r| ==> Holds(ss[k], (s[k] % L) * r[k] % L)
  }

  /** The products of responses and factors, in the slots that the keys will use. */
  method FillProducts(ss: array<Limbs>, batch: Batch)
    requires ss.Length == CAPACITY && Sized(batch) && |batch.ms| <= MAX_BATCH && FactorsSet(ss[..], batch)
    modifies ss
    ensures ProductsSet(ss[..], Factors(batch), Responses(batch), 0)
    ensures forall k :: |batch.ms| < k < CAPACITY ==> ss[k] == old(ss[k])
  {
    hide LE, Holds;
    var n := |batch.ms|;
    ghost var r, s := Factors(batch), Responses(batch);
    for i := 0 to n
      invariant forall k :: 0 <= k < i ==> Holds(ss[k], (s[k] % L) * r[k] % L)
      invariant forall k :: n < k < CAPACITY ==> ss[k] == old(ss[k])
    {
      var x := ResponseScalar(batch.sigs[i][32..]);
      assert ss[n + 1 + i] == old(ss[..])[n + 1 + i];
      ss[i] := Times256(x, ss[n + 1 + i], s[i] % L, r[i]);
    }
  }

  /** Adds them up in slot 0. */
  method AddProducts(ss: array<Limbs>, n: nat, ghost r: seq<int>, ghost s: seq<int>)
    requires ss.Length == CAPACITY && 1 <= n <= MAX_BATCH && |r| == n && ProductsSet(ss[..], r, s, 0)
    modifies ss
    ensures Holds(ss[0], Dot(r, s, n) % L)
    ensures forall k :: n < k < CAPACITY ==> ss[k] == old(ss[k])
  {
    hide Holds, Dot;
    DotStart(r, s);
    for i := 1 to n
      invariant Holds(ss[0], Dot(r, s, i) % L)
      invariant ProductsSet(ss[..], r, s, i)
      invariant forall k :: n < k < CAPACITY ==> ss[k] == old(ss[k])
    {
      assert ss[..][i] == ss[i];
      ss[0] := Plus256(ss[0], ss[i], Dot(r, s, i) % L, (s[i] % L) * r[i] % L);
      DotStep(r, s, i);
    }
  }

  /** scalars[0] = r_0 s_0 + r_1 s_1 + ... */
  method FillBase(ss: array<Limbs>, batch: Batch)
    requires ss.Length == CAPACITY && Sized(batch) && 1 <= |batch.ms| <= MAX_BATCH && FactorsSet(ss[..], batch)
    modifies ss
    ensures Holds(ss[0], Dot(Factors(batch), Responses(batch), |batch.ms|) % L)
    ensures forall k :: |batch.ms| < k < CAPACITY ==> ss[k] == old(ss[k])
  {
    hide LE, Holds, Dot, Sized, FactorsSet, ProductsSet;
    FillProducts(ss, batch);
    AddProducts(ss, |batch.ms|, Factors(batch), Responses(batch));
  }

  lemma DotStart(r: seq<int>, s: seq<int>)
    requires 1 <= |r| && 1 <= |s|
    ensures Dot(r, s, 1) % L == (s[0] % L) * r[0] % L
  {
    assert Dot(r, s, 0) == 0;
    SumModulo(0, r[0], s[0]);
  }

  lemma DotStep(r: seq<int>, s: seq<int>, i: nat)
    requires i < |r| && i < |s|
    ensures (Dot(r, s, i) % L + (s[i] % L) * r[i] % L) % L == Dot(r, s, i + 1) % L
  {
    var x := Dot(r, s, i);
    assert Dot(r, s, i + 1) == x + r[i] * s[i];
    hide Dot;
    SumModulo(x % L, r[i], s[i]);
    AddModulo(x, r[i] * s[i]);
  }

  lemma AddModulo(x: int, y: int)
    ensures (x % L + y) % L == (x + y) % L
  {
    var z := x % L + y;
    ModUnique(x + y, L, x / L + z / L, z % L);
  }

  /** scalars[i + 1] = r_i H(R_i, A_i, m_i) */
  method FillKeys(f: Sha512.Compress, ss: array<Limbs>, batch: Batch)
    requires ss.Length == CAPACITY && Sized(batch) && |batch.ms| <= MAX_BATCH && FactorsSet(ss[..], batch)
    modifies ss
    ensures forall i :: 0 <= i < |batch.ms| ==> Holds(ss[i + 1], KeyScalars(Factors(batch), Challenges(f, batch))[i])
    ensures forall i :: 0 <= i < |batch.ms| ==> Holds(ss[i + 1],
      LE(batch.rnd[i]) * (LE(Sha512.Hash(f, batch.sigs[i][..32] + batch.pks[i] + batch.ms[i])) % L) % L)
    ensures ss[0] == old(ss[0]) && forall k :: |batch.ms| < k < CAPACITY ==> ss[k] == old(ss[k])
  {
    hide LE, Holds, Sha512.Hash, Challenge;
    var n := |batch.ms|;
    ghost var r, h := Factors(batch), Challenges(f, batch);
    forall i | 0 <= i < n
      ensures h[i] == LE(Sha512.Hash(f, batch.sigs[i][..32] + batch.pks[i] + batch.ms[i])) % L
    {
      ChallengeIs(f, batch.sigs[i][..32], batch.pks[i], batch.ms[i]);
    }
    for i := 0 to n
      invariant forall k :: 0 <= k < i ==> Holds(ss[k + 1], r[k] * h[k] % L)
      invariant ss[0] == old(ss[0]) && forall k :: n < k < CAPACITY ==> ss[k] == old(ss[k])
    {
      var hash := Hram(f, batch.sigs[i], batch.pks[i], batch.ms[i]);
      var x := ResponseScalar(hash);
      assert ss[n + 1 + i] == old(ss[..])[n + 1 + i];
      ss[i + 1] := Times256(x, ss[n + 1 + i], h[i], r[i]);
    }
  }

  /** Every key and every R decodes to a point. */
  ghost predicate Decodable(batch: Batch)
    requires Sized(batch)
  {
    forall i :: 0 <= i < |batch.ms| ==>
      OnSomePoint(LE(batch.pks[i]) % TWO255) && OnSomePoint(LE(batch.sigs[i][..32]) % TWO255)
  }

  /** That is, if every key and every R denotes one. */
  lemma DecodableIff<E(!new)>(c: Curve<E>, batch: Batch)
    requires Valid(c) && Faithful(c) && PrimeField() && Sized(batch)
    ensures Decodable(batch) <==> exists a, r :: DenoteAll(c, batch, a, r)
  {
    hide CurveGroup.Valid, Faithful, PrimeField, Denotes, OnSomePoint, LE;
    if Decodable(batch) {
      var a, r := PointsUpTo(c, batch, |batch.ms|);
      assert DenoteAll(c, batch, a, r);
    }
    if a, r :| DenoteAll(c, batch, a, r) {
      forall i | 0 <= i < |batch.ms|
        ensures OnSomePoint(LE(batch.pks[i]) % TWO255) && OnSomePoint(LE(batch.sigs[i][..32]) % TWO255)
      {
        assert Denotes(c, batch.pks[i], a[i]) && Denotes(c, batch.sigs[i][..32], r[i]);
        DenotedIff(c, batch.pks[i]);
        DenotedIff(c, batch.sigs[i][..32]);
      }
    }
  }

  lemma {:induction false} PointsUpTo<E(!new)>(c: Curve<E>, batch: Batch, n: nat) returns (a: seq<E>, r: seq<E>)
    requires Valid(c) && Faithful(c) && PrimeField() && Sized(batch) && Decodable(batch) && n <= |batch.ms|
    ensures |a| == |r| == n
    ensures forall i :: 0 <= i < n ==> Denotes(c, batch.pks[i], a[i]) && Denotes(c, batch.sigs[i][..32], r[i])
  {
    hide CurveGroup.Valid, Faithful, PrimeField, Denotes, OnSomePoint, LE;
    a, r := [], [];
    if n != 0 {
      a, r := PointsUpTo(c, batch, n - 1);
      DenotedIff(c, batch.pks[n - 1]);
      DenotedIff(c, batch.sigs[n - 1][..32]);
      var e :| Denotes(c, batch.pks[n - 1], e);
      var q :| Denotes(c, batch.sigs[n - 1][..32], q);
      a, r := a + [e], r + [q];
    }
  }

  /** Decodes strings into consecutive points, up to the first that does not decode. */
  method Unpack<E(!new)>(ps: array<Ge>, at: nat, strings: seq<seq<byte>>, ghost c: Curve<E>)
    returns (ok: bool, ghost e: seq<E>)
    requires Valid(c) && Faithful(c) && PrimeField() && at + |strings| <= ps.Length
    requires forall i :: 0 <= i < |strings| ==> |strings[i]| == 32
    modifies ps
    ensures ok <==> forall i :: 0 <= i < |strings| ==> OnSomePoint(LE(strings[i]) % TWO255)
    ensures ok ==> |e| == |strings| && (forall i :: 0 <= i < |strings| ==> Denotes(c, strings[i], e[i]))
    ensures ok ==> AllPoints(c, ps[at..at + |strings|], Negatives(c, e), |strings|)
    ensures forall k :: 0 <= k < ps.Length && !(at <= k < at + |strings|) ==> ps[k] == old(ps[k])
  {
    hide CurveGroup.Valid, Faithful, PrimeField, OnSomePoint, Denotes, FullOf, Decoded, LE, AllPoints;
    e := [];
    NoPoint(c, ps[at..at]);
    for i := 0 to |strings|
      invariant |e| == i && (forall k :: 0 <= k < i ==> Denotes(c, strings[k], e[k]))
      invariant AllPoints(c, ps[at..at + i], Negatives(c, e), i)
      invariant forall k :: 0 <= k < i ==> OnSomePoint(LE(strings[k]) % TWO255)
      invariant forall k :: 0 <= k < ps.Length && !(at <= k < at + |strings|) ==> ps[k] == old(ps[k])
    {
      var p;
      ok, p := UnpackNegative(strings[i]);
      if !ok {
        return;
      }
      ghost var d := DecodedDenotes(c, strings[i], p);
      ghost var done := ps[at..at + i];
      ps[at + i] := p;
      assert ps[at..at + i + 1] == done + [p];
      NextPoint(c, done, e, p, d);
      e := e + [d];
    }
    ok := true;
  }

  lemma NoPoint<E>(c: Curve<E>, ps: seq<Ge>)
    ensures AllPoints(c, ps, Negatives(c, []), 0)
  {
  }

  lemma NextPoint<E>(c: Curve<E>, ps: seq<Ge>, e: seq<E>, p: Ge, d: E)
    requires |ps| == |e| && AllPoints(c, ps, Negatives(c, e), |e|) && FullOf(c, p, c.neg(d))
    ensures AllPoints(c, ps + [p], Negatives(c, e + [d]), |e| + 1)
  {
    hide FullOf;
    assert Negatives(c, e + [d]) == Negatives(c, e) + [c.neg(d)];
  }

  function FirstHalves(sigs: seq<seq<byte>>): (h: seq<seq<byte>>)
    requires forall i :: 0 <= i < |sigs| ==> |sigs[i]| == 64
    ensures |h| == |sigs| && forall i :: 0 <= i < |sigs| ==> h[i] == sigs[i][..32]
  {
    seq(|sigs|, i requires 0 <= i < |sigs| => sigs[i][..32])
  }

  ghost predicate AllHold(ss: seq<Limbs>, v: seq<int>) {
    |v| <= |ss| && forall i :: 0 <= i < |v| ==> Holds(ss[i], v[i])
  }

  lemma ScalarAt(r: seq<int>, s: seq<int>, h: seq<int>, i: nat)
    requires |r| == |s| == |h| && i <= 2 * |r|
    ensures BatchScalarsOf(r, s, h)[i] ==
            if i == 0 then Dot(r, s, |r|) % L else if i <= |r| then KeyScalars(r, h)[i - 1] else r[i - |r| - 1]
  {
    hide Dot, KeyScalars;
  }

  lemma AssembleScalars(ss: seq<Limbs>, r: seq<int>, s: seq<int>, h: seq<int>)
    requires |r| == |s| == |h| && 2 * |r| + 1 <= |ss| && Holds(ss[0], Dot(r, s, |r|) % L)
    requires forall i :: 0 <= i < |r| ==> Holds(ss[i + 1], KeyScalars(r, h)[i]) && Holds(ss[|r| + 1 + i], r[i])
    ensures AllHold(ss, BatchScalarsOf(r, s, h))
  {
    hide Holds, Dot, KeyScalars, BatchScalarsOf;
    var n := |r|;
    forall i | 0 <= i < 2 * n + 1 ensures Holds(ss[i], BatchScalarsOf(r, s, h)[i]) {
      ScalarAt(r, s, h, i);
      if 1 <= i <= n {
        assert ss[(i - 1) + 1] == ss[i];
      } else if i > n {
        assert ss[n + 1 + (i - n - 1)] == ss[i];
      }
    }
  }

  lemma AssemblePoints<E>(c: Curve<E>, ps: seq<Ge>, b: E, a: seq<E>, q: seq<E>)
    requires |a| == |q| && 2 * |a| + 1 <= |ps| && FullOf(c, ps[0], b)
    requires AllPoints(c, ps[1..|a| + 1], Negatives(c, a), |a|)
    requires AllPoints(c, ps[|a| + 1..2 * |a| + 1], Negatives(c, q), |a|)
    ensures AllPoints(c, ps, BatchPointsOf(c, b, a, q), 2 * |a| + 1)
  {
    hide FullOf, Negatives;
    var e, n := BatchPointsOf(c, b, a, q), |a|;
    forall i | 0 <= i < 2 * n + 1 ensures FullOf(c, ps[i], e[i]) {
      if 1 <= i <= n {
        assert ps[i] == ps[1..n + 1][i - 1] && e[i] == Negatives(c, a)[i - 1];
      } else if i > n {
        assert ps[i] == ps[n + 1..2 * n + 1][i - n - 1] && e[i] == Negatives(c, q)[i - n - 1];
      }
    }
  }

  /** Sets the scalars of a batch up. */
  method FillScalars(f: Sha512.Compress, ss: array<Limbs>, batch: Batch)
    requires ss.Length == CAPACITY && Sized(batch) && 1 <= |batch.ms| <= MAX_BATCH
    modifies ss
    ensures AllHold(ss[..], ScalarsOf(f, batch)) && forall i :: 0 <= i < |batch.ms| ==> Factors(batch)[i] < TWO128
  {
    hide LE, Holds, Dot, Challenge, AllHold, KeyScalars, BatchScalarsOf, Sized;
    FillFactors(ss, batch);
    FillBase(ss, batch);
    FillKeys(f, ss, batch);
    AssembleScalars(ss[..], Factors(batch), Responses(batch), Challenges(f, batch));
  }

  /** Sets the points of a batch up. */
  method FillPoints<E(!new)>(ps: array<Ge>, base: Ge, batch: Batch, ghost c: Curve<E>, ghost b: E)
    returns (ok: bool, ghost a: seq<E>, ghost q: seq<E>)
    requires Valid(c) && Faithful(c) && PrimeField() && FullOf(c, base, b)
    requires ps.Length == CAPACITY && Sized(batch) && |batch.ms| <= MAX_BATCH
    modifies ps
    ensures ok <==> Decodable(batch)
    ensures ok ==> DenoteAll(c, batch, a, q) && AllPoints(c, ps[..], BatchPointsOf(c, b, a, q), 2 * |batch.ms| + 1)
  {
    hide CurveGroup.Valid, Faithful, PrimeField, OnSomePoint, Denotes, FullOf, LE, AllPoints;
    var n := |batch.ms|;
    a, q := [], [];
    ps[0] := base;
    ok, a := Unpack(ps, 1, batch.pks, c);
    if !ok {
      return;
    }
    ghost var keys := ps[1..n + 1];
    ghost var halves := FirstHalves(batch.sigs);
    ok, q := Unpack(ps, n + 1, FirstHalves(batch.sigs), c);
    assert ps[..][1..n + 1] == keys && ps[..][n + 1..2 * n + 1] == ps[n + 1..n + 1 + n];
    if !ok {
      assert exists i :: 0 <= i < n && !OnSomePoint(LE(halves[i]) % TWO255);
      return;
    }
    assert forall i :: 0 <= i < n ==> OnSomePoint(LE(halves[i]) % TWO255) && Denotes(c, halves[i], q[i]);
    AssemblePoints(c, ps[..], b, a, q);
  }

  // ---- one batch -------------------------------------------------------------

  datatype BatchVerdict = Undefined | Undecodable | Accept | Reject

  /** The points of the keys and of the first halves; the last scalar of the multiplication, its point
      and its leading bit. */
  datatype Trace<E> = Trace(a: seq<E>, q: seq<E>, g: int, x: E, k: nat)

  /** What the multiplication and the neutral test make of scalars w and points e, for every input. */
  ghost predicate Tested<E>(c: Curve<E>, w: seq<int>, e: seq<E>, v: BatchVerdict, g: int, x: E, k: nat)
    requires 3 <= |w|
  {
    && Survives(c, w, e, Reached(w, |w|), g, x)
    && (v.Undefined? <==> Unscannable(g))
    && (!v.Undefined? ==> Leading(g, k) && (v.Accept? <==> Times(c, FinalMultiple(g, k), x) == c.zero))
  }

  /** The batch sends the limb scan below its array. */
  ghost predicate Fails(f: Sha512.Compress, batch: Batch)
    requires Sized(batch)
  {
    Decodable(batch) && Stuck(ScalarsOf(f, batch), HeapStart(2 * |batch.ms| + 1))
  }

  /** What the verdict on a batch means. */
  ghost predicate Decided<E>(f: Sha512.Compress, c: Curve<E>, b: E, batch: Batch, v: BatchVerdict, t: Trace<E>)
    requires Sized(batch) && 1 <= |batch.ms|
  {
    && (v.Undecodable? <==> !Decodable(batch))
    && (v.Undefined? <==> Fails(f, batch))
    && (!v.Undecodable? ==>
          && DenoteAll(c, batch, t.a, t.q)
          && Tested(c, ScalarsOf(f, batch), BatchPointsOf(c, b, t.a, t.q), v, t.g, t.x, t.k))
  }

  lemma LoadedScalars(ss: seq<Limbs>, v: seq<int>)
    requires AllHold(ss, v)
    ensures Loaded(ss, |v|, 4) && forall i :: 0 <= i < |v| ==> Keys(ss)[i] == v[i]
  {
    hide Radix56, Weight;
    forall i | 0 <= i < |v| ensures Carried(ss[i]) && Key(ss[i]) < Weight(5) {
      LowAll(ss[i]);
      LowBound(ss[i], 5);
    }
  }

  /** A turn of the driver's loop up to the neutral test. */
  method BatchTest<E(!new)>(f: Sha512.Compress, batch: Batch, base: Ge, ghost c: Curve<E>, ghost b: E)
    returns (v: BatchVerdict, ghost t: Trace<E>)
    requires Valid(c) && Faithful(c) && PrimeField() && FullOf(c, base, b)
    requires Sized(batch) && 4 <= |batch.ms| <= MAX_BATCH
    ensures v.Undecodable? <==> !Decodable(batch)
    ensures v.Undefined? <==> Fails(f, batch)
    ensures Decided(f, c, b, batch, v, t)
    // on both exits of the loop: what survives, and whether the multiple that is returned is neutral
    ensures !v.Undecodable? ==> Survives(c, ScalarsOf(f, batch), BatchPointsOf(c, b, t.a, t.q),
                                         Reached(ScalarsOf(f, batch), 2 * |batch.ms| + 1), t.g, t.x)
    ensures v.Accept? || v.Reject? ==>
      Leading(t.g, t.k) && (v.Accept? <==> Times(c, FinalMultiple(t.g, t.k), t.x) == c.zero)
  {
    hide CurveGroup.Valid, Faithful, PrimeField, FullOf, Holds, AllHold, Decodable, DenoteAll, AllPoints, Extends;
    hide HeapStart, Loaded, Keys, Times, Survives, Leading, Unscannable, Stuck, ScalarsOf, BatchPointsOf, Sized;
    hide CofactorEight, PrimeOrder, FinalMultiple, Reached, SumOf;
    var n := |batch.ms|;
    var ss := new Limbs[CAPACITY](_ => [0, 0, 0, 0, 0]);
    var ps := new Ge[CAPACITY](_ => NEUTRAL);
    FillScalars(f, ss, batch);
    var ok;
    ghost var a, q;
    ok, a, q := FillPoints(ps, base, batch, c, b);
    t := Trace(a, q, 0, c.zero, 0);
    if !ok {
      return Undecodable, t;
    }
    ghost var e, ss0 := BatchPointsOf(c, b, a, q), ss[..];
    BatchReady(f, c, b, batch, a, q, ss0);
    var heap := new BatchHeap(ps, ss);
    var r;
    ghost var g, x, k;
    r, ok, g, x, k := SumIsNeutral(heap, 2 * n + 1, c, e);
    v := if r.OutOfBounds? then Undefined else if ok then Accept else Reject;
    t := Trace(a, q, g, x, k);
    SameSurvivor(c, Keys(ss0), ScalarsOf(f, batch), e, 2 * n + 1, g, x);
    StuckIff(c, ScalarsOf(f, batch), e, 2 * n + 1, g, x);
  }

  /** The batch meets what the multiplication asks for, and its scalars are those of the model. */
  lemma BatchReady<E(!new)>(f: Sha512.Compress, c: Curve<E>, b: E, batch: Batch, a: seq<E>, q: seq<E>, ss: seq<Limbs>)
    requires Sized(batch) && 4 <= |batch.ms| <= MAX_BATCH && DenoteAll(c, batch, a, q) && |ss| == CAPACITY
    requires AllHold(ss, ScalarsOf(f, batch)) && forall i :: 0 <= i < |batch.ms| ==> Factors(batch)[i] < TWO128
    ensures |BatchPointsOf(c, b, a, q)| == 2 * |batch.ms| + 1 && Loaded(ss, 2 * |batch.ms| + 1, 4)
    ensures forall i :: HeapStart(2 * |batch.ms| + 1) <= i < 2 * |batch.ms| + 1 ==> Keys(ss)[i] < TWO128
    ensures forall i :: 0 <= i < 2 * |batch.ms| + 1 ==> Keys(ss)[i] == ScalarsOf(f, batch)[i]
  {
    hide Holds, AllHold, Loaded, ScalarsOf, HeapStart, DenoteAll, Keys;
    LoadedScalars(ss, ScalarsOf(f, batch));
    TailIsSmall(f, batch);
    SameLength(c, batch, a, q);
  }

  lemma SameLength<E>(c: Curve<E>, batch: Batch, a: seq<E>, q: seq<E>)
    requires Sized(batch) && DenoteAll(c, batch, a, q)
    ensures |a| == |batch.ms| == |q|
  {
    hide Denotes;
  }

  /** The scalars past the first heap are factors of 128 bits. */
  lemma TailIsSmall(f: Sha512.Compress, batch: Batch)
    requires Sized(batch) && 1 <= |batch.ms| && forall i :: 0 <= i < |batch.ms| ==> Factors(batch)[i] < TWO128
    ensures |batch.ms| < HeapStart(2 * |batch.ms| + 1) <= 2 * |batch.ms| + 1
    ensures forall i :: |batch.ms| < i < 2 * |batch.ms| + 1 ==> ScalarsOf(f, batch)[i] < TWO128
  {
    hide HeapStart, KeyScalars, Dot, Factors, Responses, Challenges, BatchScalarsOf;
    var n := |batch.ms|;
    forall i | n < i < 2 * n + 1 ensures ScalarsOf(f, batch)[i] < TWO128 {
      ScalarAt(Factors(batch), Responses(batch), Challenges(f, batch), i);
    }
  }

  // ---- what an extended heap decides -----------------------------------------

  /** On an extended heap the test has a verdict. In a group of 8 L elements it accepts exactly if the
      sum of all terms is neutral. */
  lemma ExtendedVerdict<E(!new)>(c: Curve<E>, w: seq<int>, e: seq<E>, v: BatchVerdict, g: int, x: E, k: nat)
    requires Valid(c) && 3 <= |w| == |e| && Tested(c, w, e, v, g, x, k) && Extends(w, HeapStart(|w|))
    ensures !v.Undefined?
    ensures CofactorEight(c) && PrimeOrder() ==> (v.Accept? <==> SumOf(c, w, e, |w|) == c.zero)
  {
    hide CurveGroup.Valid, Times, SumOf, HeapStart, Leading, Unscannable, FinalMultiple, CofactorEight, PrimeOrder;
    hide Quotients;
    assert g < TWO128 by {
      if g >= 1 {
        MultipleOf(g, g, 1);
        assert DividesAll(g, w, |w|);
        assert DividesAll(g, w, HeapStart(|w|));
      }
    }
    hide Extends, Survives;
    Scannable(c, w, e, |w|, g, x, k);
    SurvivorSum(c, w, e, |w|, g, x);
    if CofactorEight(c) && PrimeOrder() {
      SameVerdict(c, g, k, x);
    }
  }

  lemma SurvivorSum<E>(c: Curve<E>, w: seq<int>, e: seq<E>, n: nat, g: int, x: E)
    requires Survives(c, w, e, n, g, x)
    ensures 0 <= g && n <= |w| && n <= |e| && Times(c, g, x) == SumOf(c, w, e, n)
  {
    hide Times, SumOf;
  }

  /** The setting in which the neutral test of a batch is the neutral sum. */
  ghost predicate Settled<E(!new)>(f: Sha512.Compress, c: Curve<E>, b: E, batch: Batch)
    requires Sized(batch)
  {
    && Valid(c) && CofactorEight(c) && PrimeOrder() && Times(c, L, b) == c.zero
    && 1 <= |batch.ms| && Extends(ScalarsOf(f, batch), HeapStart(2 * |batch.ms| + 1))
  }

  /** Such a batch is accepted exactly if the weighted defects of its signatures make up for what the
      reduction of the keys' scalars took out. */
  lemma AcceptIff<E(!new)>(f: Sha512.Compress, c: Curve<E>, b: E, batch: Batch, v: BatchVerdict, t: Trace<E>)
    requires Sized(batch) && Settled(f, c, b, batch) && Decided(f, c, b, batch, v, t) && !v.Undecodable?
    ensures |t.a| == |t.q| == |batch.ms| && !v.Undefined?
    ensures v.Accept? <==>
      SumOf(c, Factors(batch), Defects(c, b, Responses(batch), Challenges(f, batch), t.a, t.q), |batch.ms|)
      == Excess(c, Factors(batch), Challenges(f, batch), t.a)
  {
    hide CurveGroup.Valid, CofactorEight, PrimeOrder, Times, SumOf, Extends, HeapStart, Tested, Decodable, Fails;
    hide LE, Challenge, Defects, Excess, Denotes, BatchScalarsOf, BatchPointsOf;
    var r, s, h := Factors(batch), Responses(batch), Challenges(f, batch);
    ExtendedVerdict(c, ScalarsOf(f, batch), BatchPointsOf(c, b, t.a, t.q), v, t.g, t.x, t.k);
    NaturalNumbers(f, batch);
    NeutralIff(c, b, r, s, h, t.a, t.q);
  }

  lemma NaturalNumbers(f: Sha512.Compress, batch: Batch)
    requires Sized(batch)
    ensures forall i :: 0 <= i < |batch.ms| ==>
      0 <= Factors(batch)[i] && 0 <= Responses(batch)[i] && 0 <= Challenges(f, batch)[i]
  {
    hide LE, Challenge;
    forall i | 0 <= i < |batch.ms|
      ensures 0 <= Factors(batch)[i] && 0 <= Responses(batch)[i] && 0 <= Challenges(f, batch)[i]
    {
      LEBound(batch.rnd[i]);
      LEBound(batch.sigs[i][32..]);
    }
  }

  /** All signatures of the batch are accepted by single verification. */
  ghost predicate AllOpen<E(!new)>(f: Sha512.Compress, c: Curve<E>, b: E, batch: Batch)
    requires Sized(batch)
  {
    forall i :: 0 <= i < |batch.ms| ==> Opens(f, c, b, batch, i)
  }

  lemma NoDefects<E(!new)>(f: Sha512.Compress, c: Curve<E>, b: E, batch: Batch, a: seq<E>, q: seq<E>)
    requires Valid(c) && Faithful(c) && PrimeField()
    requires Sized(batch) && DenoteAll(c, batch, a, q) && AllOpen(f, c, b, batch)
    ensures |a| == |q| == |batch.ms|
    ensures SumOf(c, Factors(batch), Defects(c, b, Responses(batch), Challenges(f, batch), a, q), |batch.ms|) == c.zero
  {
    hide CurveGroup.Valid, Faithful, PrimeField, Times, Denotes, LE, Challenge, SumOf, Verifies, Defect;
    var d := Defects(c, b, Responses(batch), Challenges(f, batch), a, q);
    forall i | 0 <= i < |batch.ms| ensures d[i] == c.zero {
      assert Opens(f, c, b, batch, i);
      VerifiedHasNoDefect(f, c, b, batch.pks[i], batch.ms[i], batch.sigs[i], a[i], q[i]);
    }
    NaturalNumbers(f, batch);
    SumOfNeutrals(c, Factors(batch), d, |batch.ms|);
  }

  /** A batch of signatures that all verify is accepted exactly if the reduction took nothing out. */
  lemma VerifyingBatch<E(!new)>(f: Sha512.Compress, c: Curve<E>, b: E, batch: Batch, v: BatchVerdict, t: Trace<E>)
    requires Faithful(c) && PrimeField() && Sized(batch) && Settled(f, c, b, batch)
    requires Decided(f, c, b, batch, v, t) && !v.Undecodable? && AllOpen(f, c, b, batch)
    ensures |t.a| == |batch.ms| && !v.Undefined?
    ensures v.Accept? <==> Excess(c, Factors(batch), Challenges(f, batch), t.a) == c.zero
  {
    hide Faithful, PrimeField, AllOpen, Excess, SumOf, Defects, Tested, Decodable, Fails, DenoteAll;
    hide CurveGroup.Valid, CofactorEight, PrimeOrder, Times, Extends, HeapStart, LE, Challenge;
    AcceptIff(f, c, b, batch, v, t);
    NoDefects(f, c, b, batch, t.a, t.q);
  }

  /** In particular under keys of order L. */
  lemma HonestBatch<E(!new)>(f: Sha512.Compress, c: Curve<E>, b: E, batch: Batch, v: BatchVerdict, t: Trace<E>)
    requires Faithful(c) && PrimeField() && Sized(batch) && Settled(f, c, b, batch)
    requires Decided(f, c, b, batch, v, t) && !v.Undecodable? && AllOpen(f, c, b, batch)
    requires forall i :: 0 <= i < |t.a| ==> Times(c, L, t.a[i]) == c.zero
    ensures v.Accept?
  {
    hide Faithful, PrimeField, AllOpen, Excess, SumOf, Decided;
    hide CurveGroup.Valid, CofactorEight, PrimeOrder, Times, Extends, HeapStart, LE, Challenge;
    VerifyingBatch(f, c, b, batch, v, t);
    NaturalNumbers(f, batch);
    NoExcess(c, Factors(batch), Challenges(f, batch), t.a);
  }

  /** But a first key of order 2 with r h == L + 1, next to keys of order L, makes the batch fail. */
  lemma TorsionBatch<E(!new)>(f: Sha512.Compress, c: Curve<E>, b: E, batch: Batch, v: BatchVerdict, t: Trace<E>)
    requires Faithful(c) && PrimeField() && Sized(batch) && Settled(f, c, b, batch)
    requires Decided(f, c, b, batch, v, t) && !v.Undecodable? && AllOpen(f, c, b, batch) && |t.a| >= 1
    requires forall i :: 1 <= i < |t.a| ==> Times(c, L, t.a[i]) == c.zero
    requires t.a[0] != c.zero && Times(c, 2, t.a[0]) == c.zero && Factors(batch)[0] * Challenges(f, batch)[0] == L + 1
    ensures v.Reject?
  {
    hide Faithful, PrimeField, AllOpen, Excess, SumOf, Decided;
    hide CurveGroup.Valid, CofactorEight, PrimeOrder, Times, Extends, HeapStart, LE, Challenge;
    VerifyingBatch(f, c, b, batch, v, t);
    NaturalNumbers(f, batch);
    ExcessOfFirst(c, Factors(batch), Challenges(f, batch), t.a);
    OrderTwo(c, Factors(batch)[0], Challenges(f, batch)[0], t.a[0]);
  }

  // ---- the driver ------------------------------------------------------------

  /** How many batches are tested: the rest of at most three signatures is opened one by one. */
  function Batches(num: nat): nat {
    (num + MAX_BATCH - 4) / MAX_BATCH
  }

  /** The end of the index range of batch j. */
  function End(j: nat, num: nat): nat {
    if MAX_BATCH * (j + 1) <= num then MAX_BATCH * (j + 1) else num
  }

  lemma BatchRange(j: nat, num: nat)
    ensures j < Batches(num) <==> MAX_BATCH * j + 3 < num
    ensures j < Batches(num) ==> MAX_BATCH * j + 3 < End(j, num) <= num
  {
  }

  function Slice(batch: Batch, lo: nat, hi: nat): (part: Batch)
    requires Sized(batch) && lo <= hi <= |batch.ms|
    ensures Sized(part) && |part.ms| == hi - lo
    ensures forall i :: 0 <= i < hi - lo ==>
      && part.ms[i] == batch.ms[lo + i] && part.pks[i] == batch.pks[lo + i]
      && part.sigs[i] == batch.sigs[lo + i] && part.rnd[i] == batch.rnd[lo + i]
  {
    Batch(batch.ms[lo..hi], batch.pks[lo..hi], batch.sigs[lo..hi], batch.rnd[lo..hi])
  }

  function Part(batch: Batch, j: nat): (part: Batch)
    requires Sized(batch) && j < Batches(|batch.ms|)
    ensures Sized(part) && 4 <= |part.ms| <= MAX_BATCH
  {
    BatchRange(j, |batch.ms|);
    Slice(batch, MAX_BATCH * j, End(j, |batch.ms|))
  }

  /** Signature i of batch j is signature 64 j + i, and a batch is full unless the signatures end. */
  lemma PartAt(batch: Batch, j: nat, i: nat)
    requires Sized(batch) && j < Batches(|batch.ms|) && i < |Part(batch, j).ms|
    ensures |Part(batch, j).ms| == 64 || 64 * j + |Part(batch, j).ms| == |batch.ms|
    ensures 64 * j + i < |batch.ms|
    ensures Part(batch, j).ms[i] == batch.ms[64 * j + i] && Part(batch, j).pks[i] == batch.pks[64 * j + i]
    ensures Part(batch, j).sigs[i] == batch.sigs[64 * j + i] && Part(batch, j).rnd[i] == batch.rnd[64 * j + i]
  {
    BatchRange(j, |batch.ms|);
  }

  /** Batch j was decided as the test decides. */
  ghost predicate BatchDecided<E(!new)>(f: Sha512.Compress, c: Curve<E>, b: E, batch: Batch, j: nat, v: BatchVerdict)
    requires Sized(batch) && j < Batches(|batch.ms|)
  {
    exists t :: Decided(f, c, b, Part(batch, j), v, t)
  }

  /** Every batch so far was decided as the test decides. */
  ghost predicate AllDecided<E(!new)>(f: Sha512.Compress, c: Curve<E>, b: E, batch: Batch, tests: seq<BatchVerdict>)
    requires Sized(batch)
  {
    && |tests| <= Batches(|batch.ms|)
    && forall j :: 0 <= j < |tests| ==> BatchDecided(f, c, b, batch, j, tests[j])
  }

  /** The verdict on the batch of signature i is to accept. */
  ghost predicate Batched(tests: seq<BatchVerdict>, i: nat) {
    i / MAX_BATCH < |tests| && tests[i / MAX_BATCH].Accept?
  }

  /** No batch sends the limb scan below its array. */
  ghost predicate AllScanned(f: Sha512.Compress, batch: Batch)
    requires Sized(batch)
  {
    forall j :: 0 <= j < Batches(|batch.ms|) ==> !Fails(f, Part(batch, j))
  }

  /** Flag i says whether signature i verifies or was accepted with its batch. */
  ghost predicate Flagged<E(!new)>(f: Sha512.Compress, c: Curve<E>, b: E, batch: Batch, i: nat, accepted: bool,
                                   flag: int)
    requires Sized(batch) && i < |batch.ms|
  {
    flag == if Opens(f, c, b, batch, i) || accepted then 1 else 0
  }

  ghost predicate Tables<E(!new)>(c: Curve<E>, sliding: seq<Niels>, b: E) {
    && Valid(c) && Faithful(c) && PrimeField() && Times(c, L, b) == c.zero
    && |sliding| == 32 && ScalarMult.OddNiels(c, sliding, b)
  }

  /** Opens signatures lo to hi one by one. */
  method OpenEach<E(!new)>(f: Sha512.Compress, batch: Batch, sliding: seq<Niels>, valid: array<int>, lo: nat, hi: nat,
                           ret0: int, ghost c: Curve<E>, ghost b: E) returns (ret: int)
    requires Tables(c, sliding, b) && Sized(batch)
    requires valid.Length == |batch.ms| && lo <= hi <= |batch.ms| && 0 <= ret0 <= 3
    modifies valid
    ensures forall i :: lo <= i < hi ==> Flagged(f, c, b, batch, i, false, valid[i])
    ensures forall i :: 0 <= i < |batch.ms| && !(lo <= i < hi) ==> valid[i] == old(valid[i])
    ensures 0 <= ret <= 3 && ret / 2 == ret0 / 2
    ensures ret % 2 == 1 <==> ret0 % 2 == 1 || exists i :: lo <= i < hi && valid[i] == 0
  {
    hide CurveGroup.Valid, Faithful, PrimeField, Times, ScalarMult.OddNiels, Verifies, Or, Xor;
    ret := ret0;
    for i := lo to hi
      invariant forall k :: lo <= k < i ==> Flagged(f, c, b, batch, k, false, valid[k])
      invariant forall k :: 0 <= k < |batch.ms| && !(lo <= k < i) ==> valid[k] == old(valid[k])
      invariant 0 <= ret <= 3 && ret / 2 == ret0 / 2
      invariant ret % 2 == 1 <==> ret0 % 2 == 1 || exists k :: lo <= k < i && valid[k] == 0
    {
      ghost var before := valid[..];
      var r := SignOpen(f, batch.ms[i], batch.pks[i], batch.sigs[i], sliding, c, b);
      valid[i] := if r != 0 then 0 else 1;
      assert forall k :: lo <= k < i ==> valid[k] == before[k];
      Flags(ret, valid[i]);
      ret := Or(ret, Xor(valid[i], 1));
    }
  }

  lemma Flags(ret: nat, valid: nat)
    requires ret <= 3 && valid <= 1
    ensures Or(ret, Xor(valid, 1)) == if valid == 1 then ret else ret - ret % 2 + 1
    ensures Or(ret, 2) == 2 + ret % 2
  {
    OrOne(ret);
    assert Or(1, 2) == 3 && Or(2, 2) == 2 && Or(3, 2) == 3;
  }

  /** One turn of the driver's loop, on the signatures of batch j. */
  method OneBatch<E(!new)>(f: Sha512.Compress, batch: Batch, base: Ge, sliding: seq<Niels>, valid: array<int>,
                           lo: nat, hi: nat, ghost j: nat, ret0: int, ghost c: Curve<E>, ghost b: E)
    returns (v: BatchVerdict, ret: int)
    requires Tables(c, sliding, b) && FullOf(c, base, b) && Sized(batch) && valid.Length == |batch.ms| && 0 <= ret0 <= 3
    requires j < Batches(|batch.ms|) && lo == MAX_BATCH * j && hi == End(j, |batch.ms|)
    requires forall i :: lo <= i < hi ==> valid[i] == 1
    modifies valid
    ensures BatchDecided(f, c, b, batch, j, v) && (v.Undefined? <==> Fails(f, Part(batch, j)))
    ensures !v.Undefined? ==>
      forall i :: lo <= i < hi && i < |batch.ms| ==> Flagged(f, c, b, batch, i, v.Accept?, valid[i])
    ensures forall i :: 0 <= i < |batch.ms| && !(lo <= i < hi) ==> valid[i] == old(valid[i])
    ensures 0 <= ret <= 3 && (ret / 2 == 1 <==> ret0 / 2 == 1 || v.Reject?)
    ensures ret % 2 == 1 <==> ret0 % 2 == 1 || exists i :: lo <= i < hi && i < valid.Length && valid[i] == 0
  {
    hide CurveGroup.Valid, Faithful, PrimeField, Times, FullOf, ScalarMult.OddNiels, Verifies, Or, Xor, Sized;
    hide Decided, Fails;
    BatchRange(j, |batch.ms|);
    ghost var t;
    assert Part(batch, j) == Slice(batch, lo, hi);
    v, t := BatchTest(f, Slice(batch, lo, hi), base, c, b);
    assert Decided(f, c, b, Part(batch, j), v, t);
    ret := ret0;
    if v.Reject? {
      Flags(ret, 1);
      ret := Or(ret, 2);
    }
    if v.Reject? || v.Undecodable? {
      ret := OpenEach(f, batch, sliding, valid, lo, hi, ret, c, b);
    }
  }

  /** What has been reported about the first `at` signatures, and nothing yet about the others. */
  ghost predicate Reported<E(!new)>(f: Sha512.Compress, c: Curve<E>, b: E, batch: Batch, valid: seq<int>,
                                    tests: seq<BatchVerdict>, at: nat)
    requires Sized(batch)
  {
    && |valid| == |batch.ms| && at <= |batch.ms| && at <= MAX_BATCH * |tests|
    && (forall i :: 0 <= i < at ==> Flagged(f, c, b, batch, i, Batched(tests, i), valid[i]))
    && forall i :: at <= i < |batch.ms| ==> valid[i] == 1
  }

  lemma ReportedStep<E(!new)>(f: Sha512.Compress, c: Curve<E>, b: E, batch: Batch, valid: seq<int>, valid': seq<int>,
                              tests: seq<BatchVerdict>, v: BatchVerdict, hi: nat)
    requires Sized(batch) && MAX_BATCH * |tests| <= hi == End(|tests|, |batch.ms|)
    requires Reported(f, c, b, batch, valid, tests, MAX_BATCH * |tests|) && |valid'| == |valid|
    requires forall i :: 0 <= i < |batch.ms| && !(MAX_BATCH * |tests| <= i < hi) ==> valid'[i] == valid[i]
    requires forall i :: MAX_BATCH * |tests| <= i < hi ==> Flagged(f, c, b, batch, i, v.Accept?, valid'[i])
    ensures Reported(f, c, b, batch, valid', tests + [v], hi)
  {
    hide Opens, Sized;
    var n := |tests|;
    forall i | 0 <= i < hi
      ensures Batched(tests + [v], i) <==> if i < MAX_BATCH * n then Batched(tests, i) else v.Accept?
    {
      BatchIndex(i, n);
    }
  }

  lemma BatchIndex(i: nat, n: nat)
    requires i < MAX_BATCH * (n + 1)
    ensures if i < MAX_BATCH * n then i / MAX_BATCH < n else i / MAX_BATCH == n
  {
  }

  lemma ReportedRest<E(!new)>(f: Sha512.Compress, c: Curve<E>, b: E, batch: Batch, valid: seq<int>, valid': seq<int>,
                              tests: seq<BatchVerdict>, at: nat)
    requires Sized(batch) && (at == |batch.ms| || at == MAX_BATCH * |tests|)
    requires Reported(f, c, b, batch, valid, tests, at) && |valid'| == |valid|
    requires forall i :: 0 <= i < at ==> valid'[i] == valid[i]
    requires forall i :: at <= i < |batch.ms| ==> Flagged(f, c, b, batch, i, false, valid'[i])
    ensures forall i :: 0 <= i < |batch.ms| ==> Flagged(f, c, b, batch, i, Batched(tests, i), valid'[i])
  {
    hide Opens, Sized;
    forall i | at <= i < |batch.ms| ensures !Batched(tests, i) {
      assert i / MAX_BATCH >= |tests|;
    }
  }

  /** The return code: bit 0 for an invalid signature, bit 1 for a batch that failed its test. */
  ghost predicate Codes(ret: int, valid: seq<int>, tests: seq<BatchVerdict>) {
    && 0 <= ret <= 3
    && (ret % 2 == 1 <==> exists i :: 0 <= i < |valid| && valid[i] == 0)
    && (ret / 2 == 1 <==> Reject in tests)
  }

  lemma CodesStep(ret: int, ret': int, valid: seq<int>, valid': seq<int>, tests: seq<BatchVerdict>,
                  tests': seq<BatchVerdict>, lo: nat, hi: nat, rejected: bool)
    requires Codes(ret, valid, tests) && |valid'| == |valid| && lo <= hi <= |valid| && 0 <= ret' <= 3
    requires forall i :: 0 <= i < |valid| && !(lo <= i < hi) ==> valid'[i] == valid[i]
    requires forall i :: lo <= i < hi ==> valid[i] == 1
    requires ret' % 2 == 1 <==> ret % 2 == 1 || exists i :: lo <= i < hi && valid'[i] == 0
    requires ret' / 2 == 1 <==> ret / 2 == 1 || rejected
    requires Reject in tests' <==> Reject in tests || rejected
    ensures Codes(ret', valid', tests')
  {
    if i :| 0 <= i < |valid| && valid[i] == 0 {
      assert valid'[i] == 0;
    }
    if i :| 0 <= i < |valid| && valid'[i] == 0 {
      if !(lo <= i < hi) {
        assert valid[i] == 0;
      }
    }
  }

  /** ed25519_sign_open_batch. `defined` is false exactly if a batch sends the limb scan below its array;
      `tests` are the verdicts on the batches. A signature is reported valid exactly if it verifies or
      its batch was accepted, so none that verifies is ever reported invalid. */
  method SignOpenBatch<E(!new)>(f: Sha512.Compress, batch: Batch, base: Ge, sliding: seq<Niels>, valid: array<int>,
                                ghost c: Curve<E>, ghost b: E)
    returns (defined: bool, ret: int, ghost tests: seq<BatchVerdict>)
    requires Tables(c, sliding, b) && FullOf(c, base, b) && Sized(batch) && valid.Length == |batch.ms|
    modifies valid
    ensures defined <==> AllScanned(f, batch)
    ensures AllDecided(f, c, b, batch, tests)
    ensures defined ==> |tests| == Batches(|batch.ms|)
    // the flags
    ensures defined ==> forall i :: 0 <= i < |batch.ms| ==>
      valid[i] == if Verifies(f, c, b, batch.pks[i], batch.ms[i], batch.sigs[i])
                     || (i / 64 < |tests| && tests[i / 64] == Accept) then 1 else 0
    // the return code
    ensures defined ==> 0 <= ret <= 3 && (ret == 2 || ret == 3 <==> Reject in tests)
    ensures defined ==> (ret == 1 || ret == 3 <==> exists i :: 0 <= i < |batch.ms| && valid[i] == 0)
  {
    hide CurveGroup.Valid, Faithful, PrimeField, Times, FullOf, ScalarMult.OddNiels, Opens, BatchDecided, Sized;
    hide Reported, Codes, Batched, Tables, Flagged, Fails, Part, Verifies;
    var num := |batch.ms|;
    for i := 0 to num
      invariant forall k :: 0 <= k < i ==> valid[k] == 1
    {
      valid[i] := 1;
    }
    ret, tests := 0, [];
    var at := 0;
    DriverStart(f, c, b, batch, valid[..]);
    while num - at > 3
      invariant at <= num && (at == num || at == MAX_BATCH * |tests|) && (at == num ==> |tests| == Batches(num))
      invariant AllDecided(f, c, b, batch, tests) && forall j :: 0 <= j < |tests| ==> !Fails(f, Part(batch, j))
      invariant Reported(f, c, b, batch, valid[..], tests, at) && Codes(ret, valid[..], tests)
      decreases num - at
    {
      var hi := at + if num - at > MAX_BATCH then MAX_BATCH else num - at;
      ghost var before, ret0, tests0 := valid[..], ret, tests;
      var v;
      BatchRange(|tests|, num);
      BatchRange(|tests| + 1, num);
      StillOnes(f, c, b, batch, before, tests, at, ret);
      v, ret := OneBatch(f, batch, base, sliding, valid, at, hi, |tests|, ret, c, b);
      tests := tests + [v];
      if v.Undefined? {
        return false, ret, tests;
      }
      ReportedStep(f, c, b, batch, before, valid[..], tests0, v, hi);
      CodesStep(ret0, ret, before, valid[..], tests0, tests, at, hi, v.Reject?);
      at := hi;
    }
    BatchRange(|tests|, num);
    ghost var before, ret0 := valid[..], ret;
    StillOnes(f, c, b, batch, before, tests, at, ret);
    ret := OpenEach(f, batch, sliding, valid, at, num, ret, c, b);
    ReportedRest(f, c, b, batch, before, valid[..], tests, at);
    CodesStep(ret0, ret, before, valid[..], tests, tests, at, num, false);
    defined := true;
    Outcome(f, c, b, batch, valid[..], tests, ret);
  }

  lemma Outcome<E(!new)>(f: Sha512.Compress, c: Curve<E>, b: E, batch: Batch, valid: seq<int>,
                         tests: seq<BatchVerdict>, ret: int)
    requires Sized(batch) && |valid| == |batch.ms| && Codes(ret, valid, tests)
    requires forall i :: 0 <= i < |batch.ms| ==> Flagged(f, c, b, batch, i, Batched(tests, i), valid[i])
    ensures forall i :: 0 <= i < |batch.ms| ==>
      valid[i] == if Verifies(f, c, b, batch.pks[i], batch.ms[i], batch.sigs[i])
                     || (i / 64 < |tests| && tests[i / 64] == Accept) then 1 else 0
    ensures 0 <= ret <= 3 && (ret == 2 || ret == 3 <==> Reject in tests)
    ensures ret == 1 || ret == 3 <==> exists i :: 0 <= i < |valid| && valid[i] == 0
  {
    hide Verifies;
  }

  lemma DriverStart<E(!new)>(f: Sha512.Compress, c: Curve<E>, b: E, batch: Batch, valid: seq<int>)
    requires Sized(batch) && |batch.ms| == |valid| && forall i :: 0 <= i < |batch.ms| ==> valid[i] == 1
    ensures Reported(f, c, b, batch, valid, [], 0) && Codes(0, valid, [])
  {
  }

  lemma StillOnes<E(!new)>(f: Sha512.Compress, c: Curve<E>, b: E, batch: Batch, valid: seq<int>,
                           tests: seq<BatchVerdict>, at: nat, ret: int)
    requires Sized(batch) && Reported(f, c, b, batch, valid, tests, at) && Codes(ret, valid, tests)
    ensures |valid| == |batch.ms| && 0 <= ret <= 3 && forall i :: at <= i < |batch.ms| ==> valid[i] == 1
  {
  }
}
