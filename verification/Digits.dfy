/** Scalars as five 56-bit limbs, and digit strings in any base. */
module Digits {
  import opened Words

  /** bignum256modm */
  type Limbs = seq<int>

  function Radix56(x0: int, x1: int, x2: int, x3: int, x4: int): int {
    x0 + TWO56 * x1 + TWO56 * TWO56 * x2 + TWO56 * TWO56 * TWO56 * x3 + TWO56 * TWO56 * TWO56 * TWO56 * x4
  }

  function Value(x: Limbs): int
    requires |x| == 5
  {
    Radix56(x[0], x[1], x[2], x[3], x[4])
  }

  /** Five limbs of at most 56 bits. */
  predicate Carried(x: Limbs) {
    |x| == 5 && forall i :: 0 <= i < 5 ==> 0 <= x[i] < TWO56
  }

  /** The number a digit string spells, least significant digit first. Digits may be negative. */
  function Eval(s: seq<int>, b: int): int {
    if s == [] then 0 else Eval(s[..|s| - 1], b) + s[|s| - 1] * Pow(b, |s| - 1)
  }

  lemma EvalSnoc(s: seq<int>, d: int, b: int)
    ensures Eval(s + [d], b) == Eval(s, b) + d * Pow(b, |s|)
  {
    assert (s + [d])[..|s|] == s;
  }

  lemma {:induction false} EvalUpdate(s: seq<int>, k: nat, d: int, b: int)
    requires k < |s|
    ensures Eval(s[k := d], b) == Eval(s, b) + (d - s[k]) * Pow(b, k)
  {
    var n := |s| - 1;
    if k == n {
      assert s[k := d][..n] == s[..n];
    } else {
      assert s[k := d][..n] == s[..n][k := d];
      EvalUpdate(s[..n], k, d, b);
    }
  }

  lemma {:induction false} PowPositive(b: int, e: nat)
    requires b >= 1
    ensures Pow(b, e) >= 1
  {
    if e != 0 {
      PowPositive(b, e - 1);
    }
  }

  /** Digits that are not negative leave no prefix above the whole. */
  lemma {:induction false} EvalPrefix(s: seq<int>, n: nat, b: int)
    requires b >= 1 && n <= |s| && forall i :: n <= i < |s| ==> 0 <= s[i]
    ensures Eval(s[..n], b) <= Eval(s, b)
  {
    if n == |s| {
      assert s[..n] == s;
    } else {
      var t := s[..|s| - 1];
      assert t[..n] == s[..n];
      EvalPrefix(t, n, b);
      PowPositive(b, |s| - 1);
      assert 0 <= s[|s| - 1] * Pow(b, |s| - 1);
    }
  }

  lemma {:induction false} EvalNonNegative(s: seq<int>, b: int)
    requires b >= 1 && forall i :: 0 <= i < |s| ==> 0 <= s[i]
    ensures 0 <= Eval(s, b)
  {
    EvalPrefix(s, 0, b);
  }

  /** A nonzero digit is worth at least its weight. */
  lemma EvalDigit(s: seq<int>, k: nat, b: int)
    requires b >= 1 && k < |s| && (forall i :: 0 <= i < |s| ==> 0 <= s[i]) && s[k] >= 1
    ensures Pow(b, k) <= Eval(s, b)
  {
    hide Eval, Pow;
    EvalPrefix(s, k + 1, b);
    assert s[..k + 1] == s[..k] + [s[k]];
    EvalSnoc(s[..k], s[k], b);
    EvalNonNegative(s[..k], b);
    PowPositive(b, k);
    MulBound(1, Pow(b, k), s[k], Pow(b, k));
  }

  /** The value of the binary digits from position k up, in units of 2^k. */
  function Horner(s: seq<int>, k: nat): int
    requires k <= |s|
    decreases |s| - k
  {
    if k == |s| then 0 else s[k] + 2 * Horner(s, k + 1)
  }

  lemma {:induction false} HornerEval(s: seq<int>, k: nat)
    requires k <= |s|
    ensures Eval(s[..k], 2) + Pow(2, k) * Horner(s, k) == Eval(s, 2)
    decreases |s| - k
  {
    if k == |s| {
      assert s[..k] == s;
    } else {
      HornerEval(s, k + 1);
      assert s[..k + 1] == s[..k] + [s[k]];
      EvalSnoc(s[..k], s[k], 2);
      var w, h := Pow(2, k), Horner(s, k + 1);
      assert w * (s[k] + 2 * h) == s[k] * w + (2 * w) * h;
    }
  }

  /** The expansion of a scalar into `m` digits of base `b` per limb and `last` for the top limb,
      as both recodings start: 14 and 8 nibbles, or 56 and 32 bits. */
  method Expand(r: array<int>, s: Limbs, b: int, m: nat, last: nat)
    requires Carried(s) && s[4] < TWO32 && 2 <= b && 1 <= m && 1 <= last
    requires Pow(b, m) == TWO56 && Pow(b, last) == TWO32 && r.Length == 4 * m + last
    modifies r
    ensures Eval(r[..], b) == Value(s) && forall k :: 0 <= k < r.Length ==> 0 <= r[k] < b
  {
    hide Pow, Eval;
    var q := 0;
    assert r[..0] == [];
    EvalEmpty(b);
    ghost var done := 0;
    for i := 0 to 5
      invariant q == if i == 5 then r.Length else i * m
      invariant Eval(r[..q], b) == done
      invariant done == LimbPrefix(s, i)
      invariant forall k :: 0 <= k < q ==> 0 <= r[k] < b
    {
      var n := if i == 4 then last else m;
      ghost var before := r[..q];
      PowWeight(b, m, i);
      q := Limb(r, q, s[i], b, n);
      done := done + s[i] * Pow(b, i * m);
    }
    assert r[..] == r[..q];
  }

  lemma EvalEmpty(b: int)
    ensures Eval([], b) == 0
  {
  }

  ghost function LimbPrefix(s: Limbs, i: nat): int
    requires |s| == 5 && i <= 5
  {
    Radix56(if i > 0 then s[0] else 0, if i > 1 then s[1] else 0, if i > 2 then s[2] else 0, if i > 3 then s[3] else 0,
            if i > 4 then s[4] else 0)
  }

  lemma PowWeight(b: int, m: nat, i: nat)
    requires Pow(b, m) == TWO56 && i <= 4
    ensures Pow(b, i * m) == if i == 0 then 1 else if i == 1 then TWO56 else if i == 2 then TWO56 * TWO56
      else if i == 3 then TWO56 * TWO56 * TWO56 else TWO56 * TWO56 * TWO56 * TWO56
  {
    assert Pow(b, 0) == 1;
    hide Pow;
    PowAdd(b, m, m);
    PowAdd(b, m + m, m);
    PowAdd(b, m + m + m, m);
  }

  /** One limb: `n` digits of v stored from position q on. */
  method Limb(r: array<int>, q0: nat, v0: int, b: int, n: nat) returns (q: nat)
    requires 2 <= b && 0 <= v0 < Pow(b, n) && q0 + n <= r.Length
    modifies r
    ensures q == q0 + n
    ensures forall k :: 0 <= k < q0 ==> r[k] == old(r[k])
    ensures forall k :: q0 <= k < q ==> 0 <= r[k] < b
    ensures Eval(r[..q], b) == old(Eval(r[..q0], b)) + v0 * Pow(b, q0)
  {
    hide Eval;
    q := q0;
    var v := v0;
    for j := 0 to n
      invariant q == q0 + j
      invariant 0 <= v < Pow(b, n - j)
      invariant forall k :: 0 <= k < q0 ==> r[k] == old(r[k])
      invariant forall k :: q0 <= k < q ==> 0 <= r[k] < b
      invariant Eval(r[..q], b) + v * Pow(b, q) == old(Eval(r[..q0], b)) + v0 * Pow(b, q0)
    {
      ghost var pre := r[..q];
      r[q] := v % b;
      assert r[..q + 1] == pre + [v % b];
      EvalSnoc(pre, v % b, b);
      LimbStep(v, b, q, Pow(b, n - j - 1));
      v := v / b;
      q := q + 1;
    }
    assert Pow(b, 0) == 1;
  }

  lemma LimbStep(v: int, b: int, q: nat, t: int)
    requires 2 <= b && 0 <= v < b * t
    ensures (v % b) * Pow(b, q) + (v / b) * Pow(b, q + 1) == v * Pow(b, q)
    ensures 0 <= v / b < t
  {
    var w := Pow(b, q);
    assert v == b * (v / b) + v % b;
    assert (v / b) * (b * w) == (b * (v / b)) * w;
    assert (b * (v / b)) * w + (v % b) * w == v * w;
  }
}
