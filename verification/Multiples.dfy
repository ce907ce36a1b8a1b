/** Multiples and sums of group elements. */
module Multiples {
  import opened CurveGroup

  /** [n]e for any integer n. */
  ghost function Times<E>(c: Curve<E>, n: int, e: E): E
    decreases if n < 0 then -n else n
  {
    if n == 0 then c.zero
    else if n > 0 then c.add(Times(c, n - 1, e), e)
    else c.add(Times(c, n + 1, e), c.neg(e))
  }

  lemma AddZero<E(!new)>(c: Curve<E>, a: E)
    requires Valid(c)
    ensures c.add(a, c.zero) == a && c.add(c.zero, a) == a
  {
    assert ZeroAt(c, a) && CommAt(c, a, c.zero);
  }

  lemma AddNeg<E(!new)>(c: Curve<E>, a: E)
    requires Valid(c)
    ensures c.add(a, c.neg(a)) == c.zero && c.add(c.neg(a), a) == c.zero
  {
    assert NegAt(c, a) && CommAt(c, a, c.neg(a));
  }

  lemma Assoc<E(!new)>(c: Curve<E>, a: E, b: E, d: E)
    requires Valid(c)
    ensures c.add(c.add(a, b), d) == c.add(a, c.add(b, d))
  {
    assert AssocAt(c, a, b, d);
  }

  lemma Comm<E(!new)>(c: Curve<E>, a: E, b: E)
    requires Valid(c)
    ensures c.add(a, b) == c.add(b, a)
  {
    assert CommAt(c, a, b);
  }

  /** (a + b) + (d + f) == (a + d) + (b + f) */
  lemma Interchange<E(!new)>(c: Curve<E>, a: E, b: E, d: E, f: E)
    requires Valid(c)
    ensures c.add(c.add(a, b), c.add(d, f)) == c.add(c.add(a, d), c.add(b, f))
  {
    hide Valid;
    Assoc(c, a, b, c.add(d, f));
    Assoc(c, b, d, f);
    Comm(c, b, d);
    Assoc(c, d, b, f);
    Assoc(c, a, d, c.add(b, f));
  }

  lemma Step<E(!new)>(c: Curve<E>, n: int, e: E)
    requires Valid(c)
    ensures Times(c, n + 1, e) == c.add(Times(c, n, e), e)
    ensures Times(c, n - 1, e) == c.add(Times(c, n, e), c.neg(e))
  {
    hide Valid;
    if n < 0 {
      var t := Times(c, n + 1, e);
      Assoc(c, t, c.neg(e), e);
      AddNeg(c, e);
      AddZero(c, t);
    }
    if n > 0 {
      var t := Times(c, n - 1, e);
      Assoc(c, t, e, c.neg(e));
      AddNeg(c, e);
      AddZero(c, t);
    }
  }

  lemma {:induction false} TimesAdd<E(!new)>(c: Curve<E>, m: int, n: int, e: E)
    requires Valid(c)
    ensures Times(c, m + n, e) == c.add(Times(c, m, e), Times(c, n, e))
    decreases if n < 0 then -n else n
  {
    hide Valid, Times;
    TimesNothing(c, e);
    if n == 0 {
      AddZero(c, Times(c, m, e));
    } else if n > 0 {
      TimesAdd(c, m, n - 1, e);
      Step(c, m + (n - 1), e);
      Step(c, n - 1, e);
      Assoc(c, Times(c, m, e), Times(c, n - 1, e), e);
      assert m + (n - 1) + 1 == m + n;
    } else {
      TimesAdd(c, m, n + 1, e);
      Step(c, m + (n + 1), e);
      Step(c, n + 1, e);
      Assoc(c, Times(c, m, e), Times(c, n + 1, e), c.neg(e));
      assert m + (n + 1) - 1 == m + n;
    }
  }

  lemma TimesNothing<E>(c: Curve<E>, e: E)
    ensures Times(c, 0, e) == c.zero
  {
  }

  lemma TimesOne<E(!new)>(c: Curve<E>, e: E)
    requires Valid(c)
    ensures Times(c, 1, e) == e && Times(c, -1, e) == c.neg(e)
  {
    assert Times(c, 0, e) == c.zero;
    AddZero(c, e);
    AddZero(c, c.neg(e));
  }

  /** Inverses are unique, so [-n]e is the inverse of [n]e. */
  lemma TimesNeg<E(!new)>(c: Curve<E>, n: int, e: E)
    requires Valid(c)
    ensures Times(c, -n, e) == c.neg(Times(c, n, e))
  {
    hide Valid;
    TimesAdd(c, n, -n, e);
    var a, b := Times(c, n, e), Times(c, -n, e);
    AddNeg(c, a);
    Assoc(c, c.neg(a), a, b);
    AddZero(c, b);
    AddZero(c, c.neg(a));
  }

  lemma {:induction false} TimesSum<E(!new)>(c: Curve<E>, n: nat, a: E, b: E)
    requires Valid(c)
    ensures Times(c, n, c.add(a, b)) == c.add(Times(c, n, a), Times(c, n, b))
  {
    hide Valid;
    if n == 0 {
      AddZero(c, c.zero);
    } else {
      TimesSum(c, n - 1, a, b);
      Interchange(c, Times(c, n - 1, a), Times(c, n - 1, b), a, b);
    }
  }

  lemma {:induction false} TimesZero<E(!new)>(c: Curve<E>, n: nat)
    requires Valid(c)
    ensures Times(c, n, c.zero) == c.zero
  {
    if n != 0 {
      TimesZero(c, n - 1);
      AddZero(c, c.zero);
    }
  }

  lemma {:induction false} TimesTimes<E(!new)>(c: Curve<E>, m: nat, n: int, e: E)
    requires Valid(c)
    ensures Times(c, m, Times(c, n, e)) == Times(c, m * n, e)
  {
    hide Valid;
    if m == 0 {
      assert m * n == 0;
    } else {
      TimesTimes(c, m - 1, n, e);
      TimesAdd(c, (m - 1) * n, n, e);
      assert (m - 1) * n + n == m * n;
    }
  }

  /** [u]a + [v]b */
  ghost function Lin<E>(c: Curve<E>, u: int, a: E, v: int, b: E): E {
    c.add(Times(c, u, a), Times(c, v, b))
  }

  lemma LinAdd<E(!new)>(c: Curve<E>, u: int, v: int, u': int, v': int, a: E, b: E)
    requires Valid(c)
    ensures c.add(Lin(c, u, a, v, b), Lin(c, u', a, v', b)) == Lin(c, u + u', a, v + v', b)
  {
    hide Valid, Times;
    Interchange(c, Times(c, u, a), Times(c, v, b), Times(c, u', a), Times(c, v', b));
    TimesAdd(c, u, u', a);
    TimesAdd(c, v, v', b);
  }

  lemma LinFirst<E(!new)>(c: Curve<E>, u: int, a: E, b: E)
    requires Valid(c)
    ensures Lin(c, u, a, 0, b) == Times(c, u, a) && Lin(c, 0, a, u, b) == Times(c, u, b)
  {
    assert Times(c, 0, a) == c.zero && Times(c, 0, b) == c.zero;
    AddZero(c, Times(c, u, a));
    AddZero(c, Times(c, u, b));
  }

  lemma Cancel<E(!new)>(c: Curve<E>, a: E, b: E, z: E)
    requires Valid(c) && c.add(a, z) == c.add(b, z)
    ensures a == b
  {
    hide Valid;
    Assoc(c, a, z, c.neg(z));
    Assoc(c, b, z, c.neg(z));
    AddNeg(c, z);
    AddZero(c, a);
    AddZero(c, b);
  }

  /** [v0]e0 + ... + [v(n-1)]e(n-1) */
  ghost function SumOf<E>(c: Curve<E>, v: seq<int>, e: seq<E>, n: nat): E
    requires n <= |v| && n <= |e|
  {
    if n == 0 then c.zero else c.add(SumOf(c, v, e, n - 1), Times(c, v[n - 1], e[n - 1]))
  }

  lemma {:induction false} SumSame<E>(c: Curve<E>, v: seq<int>, e: seq<E>, v': seq<int>, e': seq<E>, n: nat)
    requires n <= |v| && n <= |e| && n <= |v'| && n <= |e'|
    requires forall k :: 0 <= k < n ==> v'[k] == v[k] && e'[k] == e[k]
    ensures SumOf(c, v', e', n) == SumOf(c, v, e, n)
  {
    if n != 0 {
      SumSame(c, v, e, v', e', n - 1);
    }
  }

  /** Changing one term of a sum. */
  lemma {:induction false} SumChange<E(!new)>(c: Curve<E>, v: seq<int>, e: seq<E>, v': seq<int>, e': seq<E>, i: nat,
                                              n: nat)
    requires Valid(c) && i < n && n <= |v| && n <= |e| && n <= |v'| && n <= |e'|
    requires forall k :: 0 <= k < n && k != i ==> v'[k] == v[k] && e'[k] == e[k]
    ensures c.add(SumOf(c, v', e', n), Times(c, v[i], e[i])) == c.add(SumOf(c, v, e, n), Times(c, v'[i], e'[i]))
  {
    hide Valid, Times;
    var s, s' := SumOf(c, v, e, n - 1), SumOf(c, v', e', n - 1);
    var t, t' := Times(c, v[i], e[i]), Times(c, v'[i], e'[i]);
    if i == n - 1 {
      SumSame(c, v, e, v', e', n - 1);
      Assoc(c, s, t', t);
      Comm(c, t', t);
      Assoc(c, s, t, t');
    } else {
      SumChange(c, v, e, v', e', i, n - 1);
      var z := Times(c, v[n - 1], e[n - 1]);
      Assoc(c, s', z, t);
      Comm(c, z, t);
      Assoc(c, s', t, z);
      Assoc(c, s, t', z);
      Comm(c, t', z);
      Assoc(c, s, z, t');
    }
  }

  /** The step of the Bos-Coster method: p x + q y = (p - q) x + q (y + x). */
  lemma SumConserved<E(!new)>(c: Curve<E>, v: seq<int>, e: seq<E>, a: nat, b: nat, n: nat)
    requires Valid(c) && n <= |v| && n <= |e| && a < n && b < n && a != b && 0 <= v[b]
    ensures SumOf(c, v[a := v[a] - v[b]], e[b := c.add(e[b], e[a])], n) == SumOf(c, v, e, n)
  {
    hide Valid, Times, SumOf;
    var p, q, x, y := v[a], v[b], e[a], e[b];
    var v1, e2 := v[a := p - q], e[b := c.add(y, x)];
    var s0, s1, s2 := SumOf(c, v, e, n), SumOf(c, v1, e, n), SumOf(c, v1, e2, n);
    SumChange(c, v, e, v1, e, a, n);
    SumChange(c, v1, e, v1, e2, b, n);
    TimesSum(c, q, y, x);
    var qx, qy, rx := Times(c, q, x), Times(c, q, y), Times(c, p - q, x);
    Comm(c, qy, qx);
    Assoc(c, s1, qx, qy);
    Cancel(c, s2, c.add(s1, qx), qy);
    TimesAdd(c, q, p - q, x);
    Assoc(c, s1, qx, rx);
    Cancel(c, s2, s0, rx);
  }

  /** A sum with a single nonzero scalar. */
  lemma {:induction false} SumSingle<E(!new)>(c: Curve<E>, v: seq<int>, e: seq<E>, i: nat, n: nat)
    requires Valid(c) && n <= |v| && n <= |e| && forall k :: 0 <= k < n && k != i ==> v[k] == 0
    ensures SumOf(c, v, e, n) == if i < n then Times(c, v[i], e[i]) else c.zero
  {
    hide Valid;
    if n != 0 {
      SumSingle(c, v, e, i, n - 1);
      AddZero(c, c.zero);
      if i == n - 1 {
        AddZero(c, Times(c, v[i], e[i]));
      } else {
        assert Times(c, 0, e[n - 1]) == c.zero;
        AddZero(c, SumOf(c, v, e, n - 1));
      }
    }
  }
}
