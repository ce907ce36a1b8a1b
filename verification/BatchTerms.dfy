/** What a batch of signatures adds up to: its scalars and points, the sum they stand for, and how that
    sum tells whether the signatures verify. */
module BatchTerms {
  import opened Words
  import opened Bytes
  import opened CurveGroup
  import opened PointCodec
  import opened Multiples
  import opened BatchCheck
  import Sha512
  import opened Signature

  // ---- what is verified ------------------------------------------------------

  /** Messages, public keys and signatures, with the random bytes that the driver draws for each. */
  datatype Batch = Batch(ms: seq<seq<byte>>, pks: seq<seq<byte>>, sigs: seq<seq<byte>>, rnd: seq<seq<byte>>)

  predicate Sized(batch: Batch) {
    && |batch.ms| == |batch.pks| == |batch.sigs| == |batch.rnd|
    && forall i :: 0 <= i < |batch.ms| ==> |batch.pks[i]| == 32 && |batch.sigs[i]| == 64 && |batch.rnd[i]| == 16
  }

  /** Single verification accepts signature i. */
  ghost predicate Opens<E(!new)>(f: Sha512.Compress, c: Curve<E>, b: E, batch: Batch, i: nat)
    requires Sized(batch) && i < |batch.ms|
  {
    Verifies(f, c, b, batch.pks[i], batch.ms[i], batch.sigs[i])
  }

  /** The random factors r_i. */
  ghost function Factors(batch: Batch): (r: seq<int>)
    requires Sized(batch)
    ensures |r| == |batch.ms| && forall i :: 0 <= i < |r| ==> r[i] == LE(batch.rnd[i])
  {
    seq(|batch.ms|, i requires 0 <= i < |batch.ms| => LE(batch.rnd[i]))
  }

  /** The second halves S_i of the signatures. */
  ghost function Responses(batch: Batch): (s: seq<int>)
    requires Sized(batch)
    ensures |s| == |batch.ms| && forall i :: 0 <= i < |s| ==> s[i] == LE(batch.sigs[i][32..])
  {
    seq(|batch.ms|, i requires 0 <= i < |batch.ms| => LE(batch.sigs[i][32..]))
  }

  /** The hashes h_i of R_i, A_i and the message. */
  ghost function Challenges(f: Sha512.Compress, batch: Batch): (h: seq<int>)
    requires Sized(batch)
    ensures |h| == |batch.ms|
    ensures forall i :: 0 <= i < |h| ==> h[i] == Challenge(f, batch.sigs[i][..32], batch.pks[i], batch.ms[i])
  {
    seq(|batch.ms|, i requires 0 <= i < |batch.ms| => Challenge(f, batch.sigs[i][..32], batch.pks[i], batch.ms[i]))
  }

  /** r_0 s_0 + ... + r_(n-1) s_(n-1) */
  ghost function Dot(r: seq<int>, s: seq<int>, n: nat): int
    requires n <= |r| && n <= |s|
  {
    if n == 0 then 0 else Dot(r, s, n - 1) + r[n - 1] * s[n - 1]
  }

  /** The scalars of the keys: the products r_i h_i reduced modulo L. */
  ghost function KeyScalars(r: seq<int>, h: seq<int>): (p: seq<int>)
    requires |r| == |h|
    ensures |p| == |r| && forall i :: 0 <= i < |r| ==> p[i] == r[i] * h[i] % L
  {
    seq(|r|, i requires 0 <= i < |r| => r[i] * h[i] % L)
  }

  /** How often the reduction subtracts L from each product. */
  ghost function KeyCarries(r: seq<int>, h: seq<int>): (k: seq<int>)
    requires |r| == |h|
    ensures |k| == |r| && forall i :: 0 <= i < |r| ==> k[i] == r[i] * h[i] / L
  {
    seq(|r|, i requires 0 <= i < |r| => r[i] * h[i] / L)
  }

  /** The scalars of a batch: one for the base point, one for each key, one for each R. */
  ghost function BatchScalarsOf(r: seq<int>, s: seq<int>, h: seq<int>): (v: seq<int>)
    requires |r| == |s| == |h|
    ensures |v| == 2 * |r| + 1
  {
    [Dot(r, s, |r|) % L] + KeyScalars(r, h) + r
  }

  ghost function ScalarsOf(f: Sha512.Compress, batch: Batch): (v: seq<int>)
    requires Sized(batch)
    ensures |v| == 2 * |batch.ms| + 1
  {
    BatchScalarsOf(Factors(batch), Responses(batch), Challenges(f, batch))
  }

  ghost function Negatives<E>(c: Curve<E>, a: seq<E>): (n: seq<E>)
    ensures |n| == |a| && forall i :: 0 <= i < |a| ==> n[i] == c.neg(a[i])
  {
    seq(|a|, i requires 0 <= i < |a| => c.neg(a[i]))
  }

  /** [L]a_i, which is neutral for a key of order L. */
  ghost function OrderMultiples<E>(c: Curve<E>, a: seq<E>): (m: seq<E>)
    ensures |m| == |a| && forall i :: 0 <= i < |a| ==> m[i] == Times(c, L, a[i])
  {
    seq(|a|, i requires 0 <= i < |a| => Times(c, L, a[i]))
  }

  ghost function BatchPointsOf<E>(c: Curve<E>, b: E, a: seq<E>, r: seq<E>): (e: seq<E>)
    ensures |e| == 1 + |a| + |r|
  {
    [b] + Negatives(c, a) + Negatives(c, r)
  }

  /** a and r are the points that the keys and the first halves of the signatures denote. */
  ghost predicate DenoteAll<E>(c: Curve<E>, batch: Batch, a: seq<E>, r: seq<E>)
    requires Sized(batch)
  {
    && |a| == |batch.ms| == |r|
    && forall i :: 0 <= i < |a| ==> Denotes(c, batch.pks[i], a[i]) && Denotes(c, batch.sigs[i][..32], r[i])
  }

  // ---- the sum of a batch ----------------------------------------------------

  lemma {:induction false} SumAppend<E(!new)>(c: Curve<E>, v: seq<int>, e: seq<E>, w: seq<int>, g: seq<E>, k: nat)
    requires Valid(c) && |v| == |e| && k <= |w| && k <= |g|
    ensures SumOf(c, v + w, e + g, |v| + k) == c.add(SumOf(c, v, e, |v|), SumOf(c, w, g, k))
  {
    hide CurveGroup.Valid, Times;
    if k == 0 {
      SumSame(c, v, e, v + w, e + g, |v|);
      AddZero(c, SumOf(c, v, e, |v|));
    } else {
      SumAppend(c, v, e, w, g, k - 1);
      Assoc(c, SumOf(c, v, e, |v|), SumOf(c, w, g, k - 1), Times(c, w[k - 1], g[k - 1]));
    }
  }

  /** A sum of sums is the sum of the sums. */
  lemma {:induction false} SumPointwise<E(!new)>(c: Curve<E>, r: seq<int>, d: seq<E>, x: seq<E>, y: seq<E>, n: nat)
    requires Valid(c) && n <= |r| && n <= |d| && n <= |x| && n <= |y|
    requires forall i :: 0 <= i < n ==> 0 <= r[i] && d[i] == c.add(x[i], y[i])
    ensures SumOf(c, r, d, n) == c.add(SumOf(c, r, x, n), SumOf(c, r, y, n))
  {
    hide CurveGroup.Valid, Times;
    if n == 0 {
      AddZero(c, c.zero);
    } else {
      SumPointwise(c, r, d, x, y, n - 1);
      var t, u := Times(c, r[n - 1], x[n - 1]), Times(c, r[n - 1], y[n - 1]);
      TimesSum(c, r[n - 1], x[n - 1], y[n - 1]);
      Interchange(c, SumOf(c, r, x, n - 1), SumOf(c, r, y, n - 1), t, u);
    }
  }

  /** [r s]b for a dot product of factors and responses. */
  lemma {:induction false} DotMultiple<E(!new)>(c: Curve<E>, r: seq<int>, s: seq<int>, x: seq<E>, b: E, n: nat)
    requires Valid(c) && n <= |r| && n <= |s| && n <= |x|
    requires forall i :: 0 <= i < n ==> 0 <= r[i] && x[i] == Times(c, s[i], b)
    ensures SumOf(c, r, x, n) == Times(c, Dot(r, s, n), b)
  {
    hide CurveGroup.Valid, Times;
    if n == 0 {
      TimesNothing(c, b);
    } else {
      DotMultiple(c, r, s, x, b, n - 1);
      TimesTimes(c, r[n - 1], s[n - 1], b);
      TimesAdd(c, Dot(r, s, n - 1), r[n - 1] * s[n - 1], b);
    }
  }

  /** A multiple of any point, with the multiples of L apart. */
  lemma SplitMultiple<E(!new)>(c: Curve<E>, n: nat, a: E)
    requires Valid(c)
    ensures Times(c, n, a) == c.add(Times(c, n % L, a), Times(c, n / L, Times(c, L, a)))
  {
    hide CurveGroup.Valid, Times;
    var q := n / L;
    assert n == n % L + q * L;
    TimesTimes(c, q, L, a);
    TimesAdd(c, n % L, q * L, a);
  }

  /** Reduced products multiply points as the products do, but for the multiples of L taken out. */
  lemma {:induction false} ReducedProducts<E(!new)>(c: Curve<E>, r: seq<int>, h: seq<int>, a: seq<E>, y: seq<E>, n: nat)
    requires Valid(c) && n <= |r| == |h| && n <= |a| && n <= |y|
    requires forall i :: 0 <= i < n ==> 0 <= r[i] && 0 <= h[i] && y[i] == Times(c, h[i], a[i])
    ensures c.add(SumOf(c, KeyScalars(r, h), a, n), SumOf(c, KeyCarries(r, h), OrderMultiples(c, a), n))
         == SumOf(c, r, y, n)
  {
    hide CurveGroup.Valid, Times;
    if n == 0 {
      AddZero(c, c.zero);
    } else {
      ReducedProducts(c, r, h, a, y, n - 1);
      ReducedTerm(c, r[n - 1], h[n - 1], a[n - 1]);
      var p, k, m := KeyScalars(r, h), KeyCarries(r, h), OrderMultiples(c, a);
      Interchange(c, SumOf(c, p, a, n - 1), Times(c, p[n - 1], a[n - 1]),
                  SumOf(c, k, m, n - 1), Times(c, k[n - 1], m[n - 1]));
    }
  }

  lemma ReducedTerm<E(!new)>(c: Curve<E>, r: nat, h: nat, a: E)
    requires Valid(c)
    ensures c.add(Times(c, r * h % L, a), Times(c, r * h / L, Times(c, L, a))) == Times(c, r, Times(c, h, a))
  {
    hide CurveGroup.Valid, Times;
    MulBound(r, h, r, h);
    SplitMultiple(c, r * h, a);
    TimesTimes(c, r, h, a);
  }

  /** How far a signature is from its equation: [S]B - [h]A - R. */
  ghost function Defect<E>(c: Curve<E>, b: E, s: int, h: int, a: E, r: E): E {
    c.add(Times(c, s, b), c.add(Times(c, h, c.neg(a)), c.neg(r)))
  }

  ghost function Defects<E>(c: Curve<E>, b: E, s: seq<int>, h: seq<int>, a: seq<E>, r: seq<E>): (d: seq<E>)
    requires |s| == |h| == |a| == |r|
    ensures |d| == |s| && forall i :: 0 <= i < |s| ==> d[i] == Defect(c, b, s[i], h[i], a[i], r[i])
  {
    seq(|s|, i requires 0 <= i < |s| => Defect(c, b, s[i], h[i], a[i], r[i]))
  }

  /** What the reduction of the keys' scalars modulo L takes out of the sum: [r_i h_i / L][L](-A_i), summed. */
  ghost function Excess<E>(c: Curve<E>, r: seq<int>, h: seq<int>, a: seq<E>): E
    requires |r| == |h| == |a|
  {
    SumOf(c, KeyCarries(r, h), OrderMultiples(c, Negatives(c, a)), |r|)
  }

  /** The sum of a batch, for all keys: with what the reduction took out, it is the sum of r_i times
      the defect of signature i. */
  lemma BatchSum<E(!new)>(c: Curve<E>, b: E, r: seq<int>, s: seq<int>, h: seq<int>, a: seq<E>, q: seq<E>)
    requires Valid(c) && Times(c, L, b) == c.zero && |r| == |s| == |h| == |a| == |q|
    requires forall i :: 0 <= i < |r| ==> 0 <= r[i] && 0 <= s[i] && 0 <= h[i]
    ensures c.add(SumOf(c, BatchScalarsOf(r, s, h), BatchPointsOf(c, b, a, q), 2 * |r| + 1), Excess(c, r, h, a))
         == SumOf(c, r, Defects(c, b, s, h, a, q), |r|)
  {
    hide CurveGroup.Valid, Times, SumOf, Dot;
    var n := |r|;
    var x := seq(n, i requires 0 <= i < n => Times(c, s[i], b));
    var y := seq(n, i requires 0 <= i < n => Times(c, h[i], c.neg(a[i])));
    var z, na := Negatives(c, q), Negatives(c, a);
    var yz := seq(n, i requires 0 <= i < n => c.add(y[i], z[i]));
    DotNonNegative(r, s, n);
    TimesMod(c, Dot(r, s, n), b);
    DotMultiple(c, r, s, x, b, n);
    ReducedProducts(c, r, h, na, y, n);
    SumPointwise(c, r, yz, y, z, n);
    SumPointwise(c, r, Defects(c, b, s, h, a, q), x, yz, n);
    var p, d := KeyScalars(r, h), Dot(r, s, n) % L;
    ThreeParts(c, d, b, p, na, r, z, n);
    Regrouped(c, Times(c, d, b), SumOf(c, p, na, n), SumOf(c, r, z, n), Excess(c, r, h, a));
  }

  /** (t + (p + z)) + x == t + ((p + x) + z) */
  lemma Regrouped<E(!new)>(c: Curve<E>, t: E, p: E, z: E, x: E)
    requires Valid(c)
    ensures c.add(c.add(t, c.add(p, z)), x) == c.add(t, c.add(c.add(p, x), z))
  {
    hide CurveGroup.Valid;
    Assoc(c, t, c.add(p, z), x);
    Assoc(c, p, z, x);
    Comm(c, z, x);
    Assoc(c, p, x, z);
  }

  /** The sum of a batch in its three parts: the base point, the keys and the signatures' points. */
  lemma ThreeParts<E(!new)>(c: Curve<E>, d: int, b: E, p: seq<int>, x: seq<E>, r: seq<int>, z: seq<E>, n: nat)
    requires Valid(c) && |p| == |x| == |r| == |z| == n
    ensures SumOf(c, [d] + p + r, [b] + x + z, 2 * n + 1)
         == c.add(Times(c, d, b), c.add(SumOf(c, p, x, n), SumOf(c, r, z, n)))
  {
    hide CurveGroup.Valid, Times, SumOf;
    SumOne(c, d, b);
    SumAppend(c, [d], [b], p, x, n);
    SumAppend(c, [d] + p, [b] + x, r, z, n);
    Assoc(c, Times(c, d, b), SumOf(c, p, x, n), SumOf(c, r, z, n));
  }

  lemma SumOne<E(!new)>(c: Curve<E>, d: int, b: E)
    requires Valid(c)
    ensures SumOf(c, [d], [b], 1) == Times(c, d, b)
  {
    hide CurveGroup.Valid, Times;
    AddZero(c, Times(c, d, b));
    assert SumOf(c, [d], [b], 0) == c.zero;
  }

  lemma {:induction false} DotNonNegative(r: seq<int>, s: seq<int>, n: nat)
    requires n <= |r| && n <= |s| && forall i :: 0 <= i < n ==> 0 <= r[i] && 0 <= s[i]
    ensures 0 <= Dot(r, s, n)
  {
    if n != 0 {
      DotNonNegative(r, s, n - 1);
      MulBound(r[n - 1], s[n - 1], r[n - 1], s[n - 1]);
    }
  }

  /** The sum of a batch is neutral exactly if the weighted defects make up for what the reduction
      took out. */
  lemma NeutralIff<E(!new)>(c: Curve<E>, b: E, r: seq<int>, s: seq<int>, h: seq<int>, a: seq<E>, q: seq<E>)
    requires Valid(c) && Times(c, L, b) == c.zero && |r| == |s| == |h| == |a| == |q|
    requires forall i :: 0 <= i < |r| ==> 0 <= r[i] && 0 <= s[i] && 0 <= h[i]
    ensures SumOf(c, BatchScalarsOf(r, s, h), BatchPointsOf(c, b, a, q), 2 * |r| + 1) == c.zero
       <==> SumOf(c, r, Defects(c, b, s, h, a, q), |r|) == Excess(c, r, h, a)
  {
    hide CurveGroup.Valid, Times, SumOf, BatchScalarsOf, BatchPointsOf, Defects, Excess;
    BatchSum(c, b, r, s, h, a, q);
    var t, x := SumOf(c, BatchScalarsOf(r, s, h), BatchPointsOf(c, b, a, q), 2 * |r| + 1), Excess(c, r, h, a);
    AddZero(c, x);
    if c.add(t, x) == x {
      Cancel(c, t, c.zero, x);
    }
  }

  // ---- keys of order L, and others -------------------------------------------

  lemma OrderOfNegative<E(!new)>(c: Curve<E>, a: E)
    requires Valid(c) && Times(c, L, a) == c.zero
    ensures Times(c, L, c.neg(a)) == c.zero
  {
    hide CurveGroup.Valid, Times;
    TimesOfNegative(c, L, a);
    NegZero(c);
  }

  /** A sum of neutral points is neutral, but for its first term. */
  lemma {:induction false} FirstOnly<E(!new)>(c: Curve<E>, k: seq<int>, m: seq<E>, n: nat)
    requires Valid(c) && 1 <= n <= |k| && n <= |m| && forall i :: 1 <= i < n ==> 0 <= k[i] && m[i] == c.zero
    ensures SumOf(c, k, m, n) == Times(c, k[0], m[0])
  {
    hide CurveGroup.Valid, Times;
    AddZero(c, Times(c, k[0], m[0]));
    if n == 1 {
      assert SumOf(c, k, m, 0) == c.zero;
    } else {
      FirstOnly(c, k, m, n - 1);
      TimesZero(c, k[n - 1]);
    }
  }

  lemma SumOfNeutrals<E(!new)>(c: Curve<E>, r: seq<int>, d: seq<E>, n: nat)
    requires Valid(c) && n <= |r| && n <= |d| && forall i :: 0 <= i < n ==> 0 <= r[i] && d[i] == c.zero
    ensures SumOf(c, r, d, n) == c.zero
  {
    hide CurveGroup.Valid, Times;
    if n != 0 {
      FirstOnly(c, r, d, n);
      TimesZero(c, r[0]);
    }
  }

  lemma CarryBound(r: nat, h: nat)
    ensures 0 <= r * h / L
  {
    MulBound(r, h, r, h);
  }

  /** If all keys but the first have order L, only the first one is missed. */
  lemma ExcessOfFirst<E(!new)>(c: Curve<E>, r: seq<int>, h: seq<int>, a: seq<E>)
    requires Valid(c) && 1 <= |r| == |h| == |a| && forall i :: 0 <= i < |r| ==> 0 <= r[i] && 0 <= h[i]
    requires forall i :: 1 <= i < |a| ==> Times(c, L, a[i]) == c.zero
    ensures Excess(c, r, h, a) == Times(c, r[0] * h[0] / L, Times(c, L, c.neg(a[0])))
  {
    hide CurveGroup.Valid, Times, SumOf;
    var k, m := KeyCarries(r, h), OrderMultiples(c, Negatives(c, a));
    forall i | 1 <= i < |r| ensures 0 <= k[i] && m[i] == c.zero {
      CarryBound(r[i], h[i]);
      OrderOfNegative(c, a[i]);
    }
    FirstOnly(c, k, m, |r|);
  }

  /** Under keys of order L nothing is missed. */
  lemma NoExcess<E(!new)>(c: Curve<E>, r: seq<int>, h: seq<int>, a: seq<E>)
    requires Valid(c) && |r| == |h| == |a| && forall i :: 0 <= i < |r| ==> 0 <= r[i] && 0 <= h[i]
    requires forall i :: 0 <= i < |a| ==> Times(c, L, a[i]) == c.zero
    ensures Excess(c, r, h, a) == c.zero
  {
    hide CurveGroup.Valid, Times;
    if |r| != 0 {
      hide SumOf, Excess;
      ExcessOfFirst(c, r, h, a);
      OrderOfNegative(c, a[0]);
      CarryBound(r[0], h[0]);
      TimesZero(c, r[0] * h[0] / L);
    }
  }

  /** A key t of order 2 is missed whenever r h == L + 1. */
  lemma OrderTwo<E(!new)>(c: Curve<E>, r: nat, h: nat, t: E)
    requires Valid(c) && Times(c, 2, t) == c.zero && r * h == L + 1
    ensures Times(c, r * h / L, Times(c, L, c.neg(t))) == t
  {
    hide CurveGroup.Valid, Times;
    ModUnique(L + 1, L, 1, 1);
    TimesOne(c, Times(c, L, c.neg(t)));
    TimesOfNegative(c, L, t);
    var q := L / 2;
    assert L == q * 2 + 1;
    TimesTimes(c, q, 2, t);
    TimesZero(c, q);
    TimesAdd(c, q * 2, 1, t);
    TimesOne(c, t);
    AddZero(c, t);
    TimesAdd(c, 1, 1, t);
    AddNeg(c, t);
    Comm(c, t, c.neg(t));
    Cancel(c, t, c.neg(t), t);
  }

  /** So a batch without a defect can have a sum that is not neutral: one signature, the factor 2, the
      hash (L + 1) / 2 and a key t of order 2 leave t. */
  lemma TorsionKey<E(!new)>(c: Curve<E>, b: E, t: E)
    requires Valid(c) && Times(c, L, b) == c.zero && Times(c, 2, t) == c.zero && t != c.zero
    ensures var h := (L + 1) / 2; var q := Times(c, h, c.neg(t));
      && Defect(c, b, 0, h, t, q) == c.zero
      && SumOf(c, BatchScalarsOf([2], [0], [h]), BatchPointsOf(c, b, [t], [q]), 3) == t
  {
    hide CurveGroup.Valid, Times, SumOf, BatchScalarsOf, BatchPointsOf, Excess;
    var h := (L + 1) / 2;
    var q := Times(c, h, c.neg(t));
    AddNeg(c, q);
    TimesNothing(c, b);
    AddZero(c, c.zero);
    var d := Defects(c, b, [0], [h], [t], [q]);
    SumOfNeutrals(c, [2], d, 1);
    BatchSum(c, b, [2], [0], [h], [t], [q]);
    ExcessOfFirst(c, [2], [h], [t]);
    OrderTwo(c, 2, h, t);
    TimesAdd(c, 1, 1, t);
    TimesOne(c, t);
    Cancel(c, SumOf(c, BatchScalarsOf([2], [0], [h]), BatchPointsOf(c, b, [t], [q]), 3), t, t);
  }

  /** A signature that verifies has no defect. */
  lemma VerifiedHasNoDefect<E(!new)>(f: Sha512.Compress, c: Curve<E>, b: E, pk: seq<byte>, m: seq<byte>, rs: seq<byte>,
                                     a: E, r: E)
    requires Valid(c) && Faithful(c) && PrimeField() && |rs| == 64 && Denotes(c, pk, a) && Denotes(c, rs[..32], r)
    requires Verifies(f, c, b, pk, m, rs)
    ensures Defect(c, b, LE(rs[32..]), Challenge(f, rs[..32], pk, m), a, r) == c.zero
  {
    hide CurveGroup.Valid, Faithful, PrimeField, Denotes, Encodes, Times, LE, Challenge;
    var a' :| AcceptedFor(f, c, b, a', pk, m, rs);
    DenotesUnique(c, pk, a, a');
    var e := Expected(f, c, b, a, pk, m, rs);
    EncodesDenotes(c, rs[..32], e);
    DenotesUnique(c, rs[..32], r, e);
    var s, h := Times(c, LE(rs[32..]), b), Times(c, Challenge(f, rs[..32], pk, m), c.neg(a));
    Assoc(c, s, h, c.neg(r));
    Comm(c, s, h);
    AddNeg(c, r);
  }
}
