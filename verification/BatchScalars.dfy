/** The limb-truncated helpers for batch verification: comparison, subtraction and tests that
    look only at limbs 0 to `limbsize`. */
module BatchScalars {
  import opened Words
  import opened Digits

  /** The value of the limbs below n. */
  function Low(x: Limbs, n: nat): int
    requires n <= |x|
  {
    if n == 0 then 0 else Low(x, n - 1) + x[n - 1] * Weight(n - 1)
  }

  function Weight(n: nat): (w: int)
    ensures w >= 1
  {
    if n == 0 then 1 else TWO56 * Weight(n - 1)
  }

  lemma {:induction false} LowBound(x: Limbs, n: nat)
    requires Carried(x) && n <= 5
    ensures 0 <= Low(x, n) < Weight(n)
  {
    if n != 0 {
      LowBound(x, n - 1);
      var w := Weight(n - 1);
      MulBound(x[n - 1], w, TWO56 - 1, w);
    }
  }

  lemma LowAll(x: Limbs)
    requires |x| == 5
    ensures Low(x, 5) == Value(x)
  {
    assert Weight(1) == TWO56;
    assert Weight(2) == TWO56 * TWO56;
    assert Weight(3) == TWO56 * TWO56 * TWO56;
    assert Weight(4) == TWO56 * TWO56 * TWO56 * TWO56;
    assert Low(x, 0) == 0 && Weight(0) == 1;
    assert Low(x, 1) == x[0];
    assert Low(x, 2) == x[0] + x[1] * Weight(1);
    assert Low(x, 4) == Low(x, 2) + x[2] * Weight(2) + x[3] * Weight(3);
  }

  /** The limbs above `limbsize` are zero. */
  ghost predicate Fits(x: Limbs, limbsize: int)
    requires |x| == 5
  {
    forall i :: limbsize < i < 5 && 0 <= i ==> x[i] == 0
  }

  lemma {:induction false} LowSuffix(x: Limbs, n: nat)
    requires Carried(x) && n <= 5 && forall i :: n <= i < 5 ==> x[i] == 0
    ensures Low(x, n) == Value(x)
    decreases 5 - n
  {
    if n == 5 {
      LowAll(x);
    } else {
      LowSuffix(x, n + 1);
    }
  }

  /** A scalar fits in the limbs up to `limbsize` exactly when it is below their weight. */
  lemma FitsIffBelow(x: Limbs, limbsize: nat)
    requires Carried(x) && limbsize <= 4
    ensures Fits(x, limbsize) <==> Value(x) < Weight(limbsize + 1)
  {
    if Fits(x, limbsize) {
      LowSuffix(x, limbsize + 1);
      LowBound(x, limbsize + 1);
    } else {
      var i :| limbsize < i < 5 && x[i] != 0;
      LimbBelow(x, i, 5);
      LowAll(x);
      WeightGrows(limbsize + 1, i);
    }
  }

  lemma {:induction false} WeightGrows(a: nat, b: nat)
    requires a <= b
    ensures Weight(a) <= Weight(b)
  {
    if a < b {
      WeightGrows(a, b - 1);
    }
  }

  lemma {:induction false} LimbBelow(x: Limbs, i: nat, n: nat)
    requires Carried(x) && i < n <= 5 && x[i] != 0
    ensures Weight(i) <= Low(x, n)
  {
    LowBound(x, n - 1);
    var w := Weight(n - 1);
    if i == n - 1 {
      MulBound(1, w, x[i], w);
    } else {
      LimbBelow(x, i, n - 1);
      MulBound(x[n - 1], w, x[n - 1], w);
    }
  }

  /** One limb of a subtraction in 64 bits; the borrow is the sign bit of the wrapped difference. */
  method Borrow(a: int, b: int, carry: int) returns (t: int, next: int)
    requires 0 <= a < TWO56 && 0 <= b < TWO56 && 0 <= carry <= 1
    ensures next == (if a - b - carry < 0 then 1 else 0) && t == W64(a - b - carry)
  {
    t := W64(W64(a - b) - carry);
    next := t / TWO63;
  }

  /** The comparison of the differences so far. */
  lemma BorrowStep(a: Limbs, b: Limbs, i: nat, carry: int, next: int)
    requires Carried(a) && Carried(b) && i < 5 && carry == (if Low(a, i) < Low(b, i) then 1 else 0)
    requires next == if a[i] - b[i] - carry < 0 then 1 else 0
    ensures next == if Low(a, i + 1) < Low(b, i + 1) then 1 else 0
  {
    LowBound(a, i);
    LowBound(b, i);
    var w, d := Weight(i), a[i] - b[i];
    assert Low(a, i + 1) - Low(b, i + 1) == (Low(a, i) - Low(b, i)) + d * w;
    Dominates(Low(a, i) - Low(b, i), d, w);
  }

  lemma Dominates(low: int, d: int, w: int)
    requires -w < low < w
    ensures d >= 1 ==> low + d * w > 0
    ensures d <= -1 ==> low + d * w < 0
  {
  }

  /** lt256_modm_batch */
  method Lt(a: Limbs, b: Limbs, limbsize: nat) returns (r: bool)
    requires Carried(a) && Carried(b) && limbsize <= 4
    ensures r <==> Low(a, limbsize + 1) < Low(b, limbsize + 1)
  {
    hide Low, Weight;
    var carry, t := 0, 0;
    LowNone(a);
    LowNone(b);
    for i := 0 to limbsize + 1
      invariant carry == if Low(a, i) < Low(b, i) then 1 else 0
    {
      ghost var before := carry;
      t, carry := Borrow(a[i], b[i], carry);
      BorrowStep(a, b, i, before, carry);
    }
    r := carry == 1;
  }

  lemma LowNone(x: Limbs)
    ensures Low(x, 0) == 0
  {
  }

  /** lte256_modm_batch: the borrow of b - a, negated. */
  method Lte(a: Limbs, b: Limbs, limbsize: nat) returns (r: bool)
    requires Carried(a) && Carried(b) && limbsize <= 4
    ensures r <==> Low(a, limbsize + 1) <= Low(b, limbsize + 1)
  {
    var less := Lt(b, a, limbsize);
    r := !less;
  }

  /** sub256_modm_batch with out and a the same array: only limbs 0 to limbsize are written, the
      top one unmasked. */
  method Sub(a: Limbs, b: Limbs, limbsize: nat) returns (out: Limbs)
    requires Carried(a) && Carried(b) && limbsize <= 4 && Low(b, limbsize + 1) <= Low(a, limbsize + 1)
    ensures Carried(out) && Low(out, limbsize + 1) == Low(a, limbsize + 1) - Low(b, limbsize + 1)
    ensures forall i :: limbsize < i < 5 ==> out[i] == a[i]
  {
    hide Low, Weight;
    out := a;
    var carry := 0;
    LowNone(a); LowNone(b); LowNone(out);
    for i := 0 to limbsize
      invariant Carried(out) && forall k :: i <= k < 5 ==> out[k] == a[k]
      invariant carry == if Low(a, i) < Low(b, i) then 1 else 0
      invariant Low(out, i) == Low(a, i) - Low(b, i) + carry * Weight(i)
    {
      var t, next := Borrow(a[i], b[i], carry);
      BorrowStep(a, b, i, carry, next);
      var d := t % TWO56;
      DigitStep(a, b, out, i, carry, next, d);
      out := out[i := d];
      carry := next;
    }
    var t, next := Borrow(a[limbsize], b[limbsize], carry);
    BorrowStep(a, b, limbsize, carry, next);
    DigitStep(a, b, out, limbsize, carry, next, t);
    out := out[limbsize := t];
  }

  lemma DigitStep(a: Limbs, b: Limbs, out: Limbs, i: nat, carry: int, next: int, d: int)
    requires |a| == 5 && |b| == 5 && |out| == 5 && i < 5
    requires Low(out, i) == Low(a, i) - Low(b, i) + carry * Weight(i)
    requires d == a[i] - b[i] - carry + TWO56 * next
    ensures Low(out[i := d], i + 1) == Low(a, i + 1) - Low(b, i + 1) + next * Weight(i + 1)
  {
    LowUpdate(out, i, d, i);
    var w := Weight(i);
    assert d * w == a[i] * w - b[i] * w - carry * w + next * (TWO56 * w);
  }

  lemma {:induction false} LowUpdate(x: Limbs, i: nat, d: int, n: nat)
    requires n <= i < |x|
    ensures Low(x[i := d], n) == Low(x, n)
  {
    if n != 0 {
      LowUpdate(x, i, d, n - 1);
    }
  }

  lemma ZeroIffNoLimb(x: Limbs)
    requires Carried(x)
    ensures Value(x) == 0 <==> forall i :: 0 <= i < 5 ==> x[i] == 0
  {
    LowAll(x);
    if i :| 0 <= i < 5 && x[i] != 0 {
      LimbBelow(x, i, 5);
    }
  }

  /** iszero256_modm_batch */
  method IsZero(a: Limbs) returns (r: bool)
    requires Carried(a)
    ensures r <==> Value(a) == 0
  {
    hide Radix56;
    ZeroIffNoLimb(a);
    for i := 0 to 5
      invariant forall k :: 0 <= k < i ==> a[k] == 0
    {
      if a[i] != 0 {
        return false;
      }
    }
    return true;
  }

  /** isone256_modm_batch */
  method IsOne(a: Limbs) returns (r: bool)
    requires Carried(a)
    ensures r <==> Value(a) == 1
  {
    for i := 0 to 5
      invariant forall k :: 0 <= k < i ==> a[k] == if k == 0 then 1 else 0
    {
      if a[i] != if i == 0 then 1 else 0 {
        return false;
      }
    }
    return true;
  }

  /** isatmost128bits256_modm_batch */
  method IsAtMost128(a: Limbs) returns (r: bool)
    requires Carried(a)
    ensures r <==> Value(a) < TWO128
  {
    hide Or, And;
    var mask := Or(Or(a[4], a[3]), And(a[2], 0xff_ffff_ffff * TWO16));
    OrZeroIff(a[4], a[3]);
    OrZeroIff(Or(a[4], a[3]), And(a[2], 0xff_ffff_ffff * TWO16));
    HighBits(a[2]);
    r := mask == 0;
  }

  lemma HighBits(x: nat)
    requires x < TWO56
    ensures And(x, 0xff_ffff_ffff * TWO16) == 0 <==> x < TWO16
  {
    hide And, Pow2;
    TwoPowers();
    var m := 0xff_ffff_ffff;
    AndSixteen(x, 0x1000 * m);
    AndSixteen(x / 0x10, 0x100 * m);
    AndSixteen(x / 0x100, 0x10 * m);
    AndSixteen(x / 0x1000, m);
    AndOnes(x / TWO16, 40);
    AndCommutes(x / TWO16, TWO40 - 1);
  }

  /** Masking with a multiple of 16 ignores the low four bits. */
  lemma AndSixteen(x: nat, h: nat)
    ensures And(x, 16 * h) == 16 * And(x / 16, h)
  {
    hide And;
    AndDouble(x, 16 * h, x / 2, 8 * h);
    AndDouble(x / 2, 8 * h, x / 4, 4 * h);
    AndDouble(x / 4, 4 * h, x / 8, 2 * h);
    AndDouble(x / 8, 2 * h, x / 16, h);
  }

  lemma AndDouble(x: nat, m: nat, y: nat, h: nat)
    requires m == 2 * h && y == x / 2
    ensures And(x, m) == 2 * And(y, h)
  {
  }
}
