/** The batch helpers in the 32-bit layout, nine limbs of 30 bits (modm-donna-32bit.h), and their
    agreement with the 64-bit layout on the same scalars. */
module BatchScalars30 {
  import opened Words
  import opened Digits
  import opened BatchScalars
  import Heap

  const TWO30: int := 0x4000_0000

  predicate Carried30(x: Limbs) {
    |x| == 9 && forall i :: 0 <= i < 9 ==> 0 <= x[i] < TWO30
  }

  /** The value of the limbs below n. */
  ghost function Part(x: Limbs, n: nat): int
    requires n <= |x|
  {
    Eval(x[..n], TWO30)
  }

  ghost function Unit30(n: nat): int {
    Pow(TWO30, n)
  }

  lemma PartStep(x: Limbs, n: nat)
    requires n < |x|
    ensures Part(x, n + 1) == Part(x, n) + x[n] * Unit30(n) && Unit30(n + 1) == TWO30 * Unit30(n)
  {
    hide Eval;
    assert x[..n + 1] == x[..n] + [x[n]];
    EvalSnoc(x[..n], x[n], TWO30);
  }

  lemma PartNone(x: Limbs)
    ensures Part(x, 0) == 0 && Unit30(0) == 1
  {
  }

  lemma {:induction false} PartBound(x: Limbs, n: nat)
    requires Carried30(x) && n <= 9
    ensures 0 <= Part(x, n) < Unit30(n)
  {
    hide Part, Unit30;
    if n == 0 {
      PartNone(x);
    } else {
      PartBound(x, n - 1);
      PartStep(x, n - 1);
      MulBound(x[n - 1], Unit30(n - 1), TWO30 - 1, Unit30(n - 1));
    }
  }

  /** Limbs that agree from i up leave the comparison to the limbs below. */
  lemma {:induction false} SameAbove(a: Limbs, b: Limbs, i: nat, n: nat)
    requires i <= n <= |a| && n <= |b| && forall k :: i <= k < n ==> a[k] == b[k]
    ensures Part(a, n) - Part(b, n) == Part(a, i) - Part(b, i)
  {
    hide Part, Unit30;
    if i < n {
      SameAbove(a, b, i, n - 1);
      PartStep(a, n - 1);
      PartStep(b, n - 1);
    }
  }

  /** The highest limb that differs decides. */
  lemma FirstDifference(a: Limbs, b: Limbs, i: nat, n: nat)
    requires Carried30(a) && Carried30(b) && i < n <= 9 && a[i] < b[i] && forall k :: i < k < n ==> a[k] == b[k]
    ensures Part(a, n) < Part(b, n)
  {
    hide Part, Unit30;
    SameAbove(a, b, i + 1, n);
    PartStep(a, i);
    PartStep(b, i);
    PartBound(a, i);
    PartBound(b, i);
    var w := Unit30(i);
    Dominates(Part(a, i) - Part(b, i), a[i] - b[i], w);
    assert (a[i] - b[i]) * w == a[i] * w - b[i] * w;
  }

  /** lt256_modm_batch and lte256_modm_batch, which differ in the answer for equal limbs. */
  method Compare(a: Limbs, b: Limbs, limbsize: nat, same: bool) returns (r: bool)
    requires Carried30(a) && Carried30(b) && limbsize <= 8
    ensures r <==> Part(a, limbsize + 1) < Part(b, limbsize + 1) || (same && Part(a, limbsize + 1) == Part(b, limbsize + 1))
  {
    hide Part;
    var i: int := limbsize;
    while i >= 0
      invariant -1 <= i <= limbsize && forall k :: i < k < limbsize + 1 ==> a[k] == b[k]
    {
      if a[i] > b[i] {
        FirstDifference(b, a, i, limbsize + 1);
        return false;
      }
      if a[i] < b[i] {
        FirstDifference(a, b, i, limbsize + 1);
        return true;
      }
      i := i - 1;
    }
    SameAbove(a, b, 0, limbsize + 1);
    PartNone(a);
    PartNone(b);
    r := same;
  }

  method Lt30(a: Limbs, b: Limbs, limbsize: nat) returns (r: bool)
    requires Carried30(a) && Carried30(b) && limbsize <= 8
    ensures r <==> Part(a, limbsize + 1) < Part(b, limbsize + 1)
  {
    r := Compare(a, b, limbsize, false);
  }

  method Lte30(a: Limbs, b: Limbs, limbsize: nat) returns (r: bool)
    requires Carried30(a) && Carried30(b) && limbsize <= 8
    ensures r <==> Part(a, limbsize + 1) <= Part(b, limbsize + 1)
  {
    r := Compare(a, b, limbsize, true);
  }

  /** One limb of a subtraction in 32 bits. */
  method Borrow30(a: int, b: int, carry: int) returns (t: int, next: int)
    requires 0 <= a < TWO30 && 0 <= b < TWO30 && 0 <= carry <= 1
    ensures next == (if a - b - carry < 0 then 1 else 0) && t % TWO30 == a - b - carry + TWO30 * next
    ensures next == 0 ==> t == a - b - carry
  {
    t := W32(W32(a - b) - carry);
    next := t / TWO31;
  }

  /** sub256_modm_batch with out and a the same array. */
  method Sub30(a: Limbs, b: Limbs, limbsize: nat) returns (out: Limbs)
    requires Carried30(a) && Carried30(b) && limbsize <= 8 && Part(b, limbsize + 1) <= Part(a, limbsize + 1)
    ensures Carried30(out) && Part(out, limbsize + 1) == Part(a, limbsize + 1) - Part(b, limbsize + 1)
    ensures forall i :: limbsize < i < 9 ==> out[i] == a[i]
  {
    hide Part, Unit30;
    out := a;
    var carry := 0;
    PartNone(a); PartNone(b); PartNone(out);
    for i := 0 to limbsize
      invariant Carried30(out) && 0 <= carry <= 1 && forall k :: i <= k < 9 ==> out[k] == a[k]
      invariant Part(out, i) == Part(a, i) - Part(b, i) + carry * Unit30(i)
    {
      var t, next := Borrow30(a[i], b[i], carry);
      DigitStep30(a, b, out, i, carry, next, t % TWO30);
      out := out[i := t % TWO30];
      carry := next;
    }
    var t, next := Borrow30(a[limbsize], b[limbsize], carry);
    DigitStep30(a, b, out, limbsize, carry, next, t % TWO30);
    NoBorrow(out[limbsize := t % TWO30], a, b, limbsize + 1, next);
    out := out[limbsize := t];
  }

  lemma DigitStep30(a: Limbs, b: Limbs, out: Limbs, i: nat, carry: int, next: int, d: int)
    requires |a| == 9 && |b| == 9 && |out| == 9 && i < 9 && Part(out, i) == Part(a, i) - Part(b, i) + carry * Unit30(i)
    requires d == a[i] - b[i] - carry + TWO30 * next
    ensures Part(out[i := d], i + 1) == Part(a, i + 1) - Part(b, i + 1) + next * Unit30(i + 1)
  {
    hide Eval, Pow;
    assert out[i := d][..i] == out[..i];
    PartStep(out[i := d], i);
    PartStep(a, i);
    PartStep(b, i);
    hide Part, Unit30;
    DigitIdentity(a[i], b[i], carry, next, Unit30(i));
  }

  lemma DigitIdentity(a: int, b: int, carry: int, next: int, w: int)
    ensures (a - b - carry + TWO30 * next) * w == a * w - b * w - carry * w + next * (TWO30 * w)
  {
  }

  /** A difference that is not negative ends without a borrow. */
  lemma NoBorrow(out: Limbs, a: Limbs, b: Limbs, n: nat, next: int)
    requires Carried30(out) && |a| == 9 && |b| == 9 && n <= 9 && 0 <= next <= 1 && Part(b, n) <= Part(a, n)
    requires Part(out, n) == Part(a, n) - Part(b, n) + next * Unit30(n)
    ensures next == 0
  {
    hide Part, Unit30;
    PartBound(out, n);
  }

  lemma {:induction false} PartZero(x: Limbs, n: nat)
    requires Carried30(x) && n <= 9
    ensures Part(x, n) == 0 <==> forall i :: 0 <= i < n ==> x[i] == 0
  {
    hide Part, Unit30;
    if n == 0 {
      PartNone(x);
    } else {
      PartZero(x, n - 1);
      PartStep(x, n - 1);
      PartBound(x, n - 1);
      MulBound(x[n - 1], Unit30(n - 1), x[n - 1], Unit30(n - 1));
      if x[n - 1] != 0 {
        MulBound(1, Unit30(n - 1), x[n - 1], Unit30(n - 1));
      }
    }
  }

  /** iszero256_modm_batch */
  method IsZero30(a: Limbs) returns (r: bool)
    requires Carried30(a)
    ensures r <==> Part(a, 9) == 0
  {
    hide Part;
    PartZero(a, 9);
    for i := 0 to 9
      invariant forall k :: 0 <= k < i ==> a[k] == 0
    {
      if a[i] != 0 {
        return false;
      }
    }
    return true;
  }

  /** isone256_modm_batch */
  method IsOne30(a: Limbs) returns (r: bool)
    requires Carried30(a)
    ensures r <==> Part(a, 9) == 1
  {
    hide Part;
    OneIff(a);
    if a[0] != 1 {
      return false;
    }
    for i := 1 to 9
      invariant forall k :: 1 <= k < i ==> a[k] == 0
    {
      if a[i] != 0 {
        return false;
      }
    }
    return true;
  }

  lemma OneIff(x: Limbs)
    requires Carried30(x)
    ensures Part(x, 9) == 1 <==> x[0] == 1 && forall i :: 1 <= i < 9 ==> x[i] == 0
  {
    hide Part, Unit30;
    if i :| 1 <= i < 9 && x[i] != 0 {
      LimbAtLeast(x, i, 9);
      UnitGrows(1, i);
      PartNone(x);
      PartStep(x, 0);
    } else {
      var z := [x[0], 0, 0, 0, 0, 0, 0, 0, 0];
      assert x == z;
      SameAbove(x, [0, 0, 0, 0, 0, 0, 0, 0, 0], 1, 9);
      PartZero([0, 0, 0, 0, 0, 0, 0, 0, 0], 9);
      PartZero([0, 0, 0, 0, 0, 0, 0, 0, 0], 1);
      PartNone(x);
      PartStep(x, 0);
    }
  }

  lemma {:induction false} LimbAtLeast(x: Limbs, i: nat, n: nat)
    requires Carried30(x) && i < n <= 9 && x[i] != 0
    ensures Unit30(i) <= Part(x, n)
  {
    hide Part, Unit30;
    PartStep(x, n - 1);
    PartBound(x, n - 1);
    MulBound(x[n - 1], Unit30(n - 1), x[n - 1], Unit30(n - 1));
    if i == n - 1 {
      MulBound(1, Unit30(i), x[i], Unit30(i));
    } else {
      LimbAtLeast(x, i, n - 1);
    }
  }

  lemma {:induction false} UnitGrows(a: nat, b: nat)
    requires a <= b
    ensures 1 <= Unit30(a) <= Unit30(b)
  {
    PowPositive(TWO30, a);
    if a < b {
      UnitGrows(a, b - 1);
    }
  }

  /** A scalar fits in the limbs up to limbsize exactly when it is below their weight, and then
      truncation to them is exact. */
  lemma Truncation30(x: Limbs, limbsize: nat)
    requires Carried30(x) && limbsize <= 8
    ensures Part(x, 9) < Unit30(limbsize + 1) <==> forall i :: limbsize < i < 9 ==> x[i] == 0
    ensures Part(x, 9) < Unit30(limbsize + 1) ==> Part(x, limbsize + 1) == Part(x, 9)
  {
    hide Part, Unit30;
    if i :| limbsize < i < 9 && x[i] != 0 {
      LimbAtLeast(x, i, 9);
      UnitGrows(limbsize + 1, i);
    } else {
      var z := seq(9, _ => 0);
      SameAbove(x, z, limbsize + 1, 9);
      PartZero(z, 9);
      PartZero(z, limbsize + 1);
      PartBound(x, limbsize + 1);
    }
  }

  /** isatmost128bits256_modm_batch */
  method IsAtMost128In30(a: Limbs) returns (r: bool)
    requires Carried30(a)
    ensures r <==> Part(a, 9) < TWO128
  {
    hide Part, Or, And;
    var mask := Or(Or(Or(Or(a[8], a[7]), a[6]), a[5]), And(a[4], 0x3f_ffff * TWO8));
    OrZeroIff(a[8], a[7]);
    OrZeroIff(Or(a[8], a[7]), a[6]);
    OrZeroIff(Or(Or(a[8], a[7]), a[6]), a[5]);
    OrZeroIff(Or(Or(Or(a[8], a[7]), a[6]), a[5]), And(a[4], 0x3f_ffff * TWO8));
    HighBits30(a[4]);
    Below128(a);
    r := mask == 0;
  }

  lemma HighBits30(x: nat)
    requires x < TWO30
    ensures And(x, 0x3f_ffff * TWO8) == 0 <==> x < TWO8
  {
    hide And, Pow2;
    var m := 0x3f_ffff;
    AndSixteen(x, 0x10 * m);
    AndSixteen(x / 0x10, m);
    Pow22();
    AndOnes(x / TWO8, 22);
    AndCommutes(x / TWO8, m);
  }

  lemma Pow22()
    ensures Pow2(22) == 0x40_0000
  {
    hide Pow2;
    TwoPowers();
    Pow2Add(16, 6);
    SixBits();
  }

  lemma SixBits()
    ensures Pow2(6) == 64
  {
  }

  lemma Below128(x: Limbs)
    requires Carried30(x)
    ensures Part(x, 9) < TWO128 <==> x[4] < TWO8 && forall i :: 5 <= i < 9 ==> x[i] == 0
  {
    hide Part, Unit30;
    Units();
    Truncation30(x, 4);
    PartStep(x, 4);
    PartBound(x, 4);
    var w := Unit30(4);
    if x[4] < TWO8 {
      MulBound(x[4], w, TWO8 - 1, w);
    } else {
      MulBound(TWO8, w, x[4], w);
    }
  }

  lemma Units()
    ensures Unit30(4) * TWO8 == TWO128 && TWO128 <= Unit30(5)
  {
    assert Unit30(1) == TWO30;
    assert Unit30(2) == TWO30 * TWO30;
    assert Unit30(3) == TWO30 * Unit30(2);
    assert Unit30(4) == TWO30 * Unit30(3);
    assert Unit30(5) == TWO30 * Unit30(4);
  }

  // ---- agreement of the layouts ----------------------------------------------

  /** The two layouts hold the same scalar, and it fits the limbs that are looked at in each. */
  ghost predicate SameScalar(x: Limbs, y: Limbs, limbsize: nat, limbsize30: nat) {
    && Carried(x) && Carried30(y) && limbsize <= 4 && limbsize30 <= 8
    && Value(x) == Part(y, 9) && Value(x) < Weight(limbsize + 1) && Part(y, 9) < Unit30(limbsize30 + 1)
  }

  /** Both layouts order the same scalars in the same way, whatever they truncate to. */
  method CompareBoth(a: Limbs, b: Limbs, l: nat, a30: Limbs, b30: Limbs, l30: nat) returns (lt: bool, lt30: bool,
                     lte: bool, lte30: bool)
    requires SameScalar(a, a30, l, l30) && SameScalar(b, b30, l, l30)
    ensures lt == lt30 == (Value(a) < Value(b)) && lte == lte30 == (Value(a) <= Value(b))
  {
    hide Part, Unit30, Low, Weight, Radix56;
    Heap.TruncationIsSound(a, l);
    Heap.TruncationIsSound(b, l);
    Truncation30(a30, l30);
    Truncation30(b30, l30);
    lt := Lt(a, b, l);
    lte := Lte(a, b, l);
    lt30 := Lt30(a30, b30, l30);
    lte30 := Lte30(a30, b30, l30);
  }

  /** Both layouts subtract to the same scalar. */
  method SubtractBoth(a: Limbs, b: Limbs, l: nat, a30: Limbs, b30: Limbs, l30: nat) returns (out: Limbs, out30: Limbs)
    requires SameScalar(a, a30, l, l30) && SameScalar(b, b30, l, l30) && Value(b) <= Value(a)
    ensures SameScalar(out, out30, l, l30) && Value(out) == Value(a) - Value(b)
  {
    hide Part, Unit30, Low, Weight, Radix56;
    Heap.TruncationIsSound(a, l);
    Heap.TruncationIsSound(b, l);
    FitsIffBelow(a, l);
    Truncation30(a30, l30);
    Truncation30(b30, l30);
    out := Sub(a, b, l);
    out30 := Sub30(a30, b30, l30);
    LowSuffix(out, l + 1);
    Heap.TruncationIsSound(b, l);
    Truncation30(out30, l30);
  }
}
