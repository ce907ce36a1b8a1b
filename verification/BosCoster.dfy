/** ge25519_multi_scalarmult_vartime: the Bos-Coster method on the batch heap.

    The loop keeps the sum of all multiples and the common divisors of the scalars, and ends
    when one scalar of the heap is left. Whether the heap was extended to the 128-bit scalars by
    then is decided by the input alone (`Extends`). */
module BosCoster {
  import opened Words
  import opened Digits
  import opened BatchScalars
  import opened Heap
  import opened CurveGroup
  import opened Points
  import opened PointGroup
  import opened Multiples

  // ---- common divisors -----------------------------------------------------

  ghost predicate DividesAll(d: int, v: seq<int>, n: nat) {
    d >= 1 && n <= |v| && forall i :: 0 <= i < n ==> v[i] % d == 0
  }

  ghost predicate SameDivisors(v: seq<int>, w: seq<int>, n: nat) {
    forall d :: DividesAll(d, v, n) <==> DividesAll(d, w, n)
  }

  lemma MultipleOf(x: int, d: int, q: int)
    requires d >= 1 && x == q * d
    ensures x % d == 0
  {
    ModUnique(x, d, q, 0);
  }

  lemma DifferenceDivides(x: int, y: int, d: int)
    requires d >= 1 && y % d == 0
    ensures (x - y) % d == 0 <==> x % d == 0
  {
    var q := y / d;
    assert y == q * d;
    if x % d == 0 {
      assert x == (x / d) * d;
      assert x - y == (x / d - q) * d;
      MultipleOf(x - y, d, x / d - q);
    }
    if (x - y) % d == 0 {
      assert x - y == ((x - y) / d) * d;
      assert x == ((x - y) / d + q) * d;
      MultipleOf(x, d, (x - y) / d + q);
    }
  }

  lemma DivisorsKept(v: seq<int>, a: nat, b: nat, n: nat)
    requires n <= |v| && a < n && b < n && a != b
    ensures SameDivisors(v, v[a := v[a] - v[b]], n)
  {
    var w := v[a := v[a] - v[b]];
    forall d
      ensures DividesAll(d, v, n) <==> DividesAll(d, w, n)
    {
      if DividesAll(d, v, n) {
        DifferenceDivides(v[a], v[b], d);
      }
      if DividesAll(d, w, n) {
        assert w[b] % d == 0 && w[a] % d == 0;
        DifferenceDivides(v[a], v[b], d);
        forall i | 0 <= i < n
          ensures v[i] % d == 0
        {
          assert w[i] % d == 0;
        }
      }
    }
  }

  lemma SameDivisorsTrans(u: seq<int>, v: seq<int>, w: seq<int>, n: nat)
    requires SameDivisors(u, v, n) && SameDivisors(v, w, n)
    ensures SameDivisors(u, w, n)
  {
  }

  lemma DivisorAtMost(x: int, d: int)
    requires x >= 1 && d >= 1 && x % d == 0
    ensures d <= x
  {
    var q := x / d;
    assert x == q * d;
    MultipleOutside(q, d);
  }

  ghost predicate TwoNonzero(v: seq<int>, n: nat) {
    n <= |v| && exists i, j :: 0 <= i < j < n && v[i] != 0 && v[j] != 0
  }

  /** The inputs on which the heap is extended: at least two of the first n scalars are nonzero
      and they have no common divisor of 2^128 or more. */
  ghost predicate Extends(v: seq<int>, n: nat) {
    TwoNonzero(v, n) && forall d :: DividesAll(d, v, n) ==> d < TWO128
  }

  // ---- termination ---------------------------------------------------------

  ghost function Total(v: seq<int>, n: nat): int
    requires n <= |v|
  {
    if n == 0 then 0 else Total(v, n - 1) + v[n - 1]
  }

  lemma {:induction false} TotalUpdate(v: seq<int>, a: nat, x: int, n: nat)
    requires n <= |v| && a < |v|
    ensures Total(v[a := x], n) == Total(v, n) + if a < n then x - v[a] else 0
  {
    if n != 0 {
      TotalUpdate(v, a, x, n - 1);
    }
  }

  lemma {:induction false} TotalNonNegative(v: seq<int>, n: nat)
    requires n <= |v| && forall i :: 0 <= i < n ==> 0 <= v[i]
    ensures 0 <= Total(v, n)
  {
    if n != 0 {
      TotalNonNegative(v, n - 1);
    }
  }

  // ---- one step ------------------------------------------------------------

  ghost predicate AllPoints<E>(c: Curve<E>, p: seq<Ge>, e: seq<E>, count: nat) {
    count <= |p| && count == |e| && forall i :: 0 <= i < count ==> FullOf(c, p[i], e[i])
  }

  /** Subtraction on the limbs up to limbsize is subtraction. */
  lemma SubtractionIsSound(a: Limbs, b: Limbs, out: Limbs, limbsize: nat)
    requires Carried(a) && Carried(b) && Carried(out) && limbsize <= 4
    requires Value(a) < Weight(limbsize + 1) && Value(b) < Weight(limbsize + 1)
    requires Low(out, limbsize + 1) == Low(a, limbsize + 1) - Low(b, limbsize + 1)
    requires forall i :: limbsize < i < 5 ==> out[i] == a[i]
    ensures Value(out) == Value(a) - Value(b)
  {
    hide Radix56, Low, Weight;
    TruncationIsSound(a, limbsize);
    TruncationIsSound(b, limbsize);
    FitsIffBelow(a, limbsize);
    LowSuffix(out, limbsize + 1);
  }

  /** Changing only the root's scalar leaves a heap whose root may sink. */
  lemma RootChanged(h: seq<int>, pos: seq<int>, v: seq<int>, n: nat, x: int)
    requires 1 <= n && Permutation(h, pos, n) && InRange(h, v, n) && Ordered(h, v, n)
    ensures InRange(h, v[h[0] := x], n) && Sinking(h, v[h[0] := x], n, 0)
  {
    var w := v[h[0] := x];
    forall k | 1 <= k < n && k != 0 && Parent(k) != 0
      ensures OrderAt(h, w, Parent(k), k)
    {
      assert OrderAt(h, v, Parent(k), k);
      assert pos[h[k]] == k && pos[h[Parent(k)]] == Parent(k) && pos[h[0]] == 0;
    }
  }

  /** The body of the loop after the tests: subtract, add, repair. */
  method Step<E(!new)>(b: BatchHeap, max1: int, max2: int, limbsize: nat, count: nat, ghost c: Curve<E>,
                       ghost e: seq<E>)
    returns (ghost e': seq<E>)
    requires Valid(c) && b.IsHeap() && 3 <= b.size <= count <= CAPACITY && b.size % 2 == 1 && limbsize <= 4
    requires Loaded(b.scalars[..], b.size, limbsize) && AllPoints(c, b.points[..], e, count)
    requires 0 <= max1 < b.size && 0 <= max2 < b.size && max1 != max2 && max1 == b.heap[0]
    requires Key(b.scalars[max2]) <= Key(b.scalars[max1])
    modifies b`pos, b.heap, b.scalars, b.points
    ensures b.IsHeap() && AllPoints(c, b.points[..], e', count) && Loaded(b.scalars[..], b.size, limbsize)
    ensures e' == e[max2 := c.add(e[max2], e[max1])]
    ensures forall i :: 0 <= i < CAPACITY && i != max1 ==> b.scalars[i] == old(b.scalars[i])
    ensures Keys(b.scalars[..]) == old(Keys(b.scalars[..]))[max1 := old(Key(b.scalars[max1])) - old(Key(b.scalars[max2]))]
  {
    hide CurveGroup.Valid, FullOf, Low, Weight, Radix56;
    ghost var s, v := b.scalars[..], Keys(b.scalars[..]);
    var x, y := b.scalars[max1], b.scalars[max2];
    assert x == s[max1] && y == s[max2];
    TruncationIsSound(x, limbsize);
    TruncationIsSound(y, limbsize);
    var out := BatchScalars.Sub(x, y, limbsize);
    SubtractionIsSound(x, y, out, limbsize);
    RootChanged(b.heap[..], b.pos, v, b.size, Value(out));
    b.scalars[max1] := out;
    assert b.scalars[..] == s[max1 := out];
    assert Keys(b.scalars[..]) == v[max1 := Value(out)];
    var p := b.points[max2];
    assert p == b.points[..][max2] && b.points[max1] == b.points[..][max1];
    p := AddPoints(p, b.points[max1], c, e[max2], e[max1]);
    b.points[max2] := p;
    e' := e[max2 := c.add(e[max2], e[max1])];
    b.UpdatedRoot(limbsize);
  }

  // ---- the loop ------------------------------------------------------------

  ghost function Quotients(v: seq<int>, d: int): (w: seq<int>)
    requires d >= 1
    ensures |w| == |v| && forall i :: 0 <= i < |v| ==> w[i] == v[i] / d
  {
    seq(|v|, i requires 0 <= i < |v| => v[i] / d)
  }

  /** The sum with a common divisor of the scalars taken out. */
  ghost predicate QuotientKept<E>(c: Curve<E>, v0: seq<int>, e0: seq<E>, v: seq<int>, e: seq<E>, n: nat, d: int)
    requires n <= |v0| && n <= |e0| && n <= |v| && n <= |e|
  {
    DividesAll(d, v0, n) ==> SumOf(c, Quotients(v, d), e, n) == SumOf(c, Quotients(v0, d), e0, n)
  }

  /** Over the first n terms the sum, the common divisors, and the sum with any common divisor taken
      out are those of the input. */
  ghost predicate Kept<E>(c: Curve<E>, v0: seq<int>, e0: seq<E>, v: seq<int>, e: seq<E>, n: nat)
  {
    && n <= |v0| && n <= |e0| && n <= |v| && n <= |e| && SumOf(c, v, e, n) == SumOf(c, v0, e0, n) && SameDivisors(v0, v, n)
    && forall d :: QuotientKept(c, v0, e0, v, e, n, d)
  }

  lemma KeptStep<E(!new)>(c: Curve<E>, v0: seq<int>, e0: seq<E>, v: seq<int>, e: seq<E>, n: nat, a: nat, b: nat)
    requires Valid(c) && Kept(c, v0, e0, v, e, n) && a < n && b < n && a != b && 0 <= v[b]
    ensures Kept(c, v0, e0, v[a := v[a] - v[b]], e[b := c.add(e[b], e[a])], n)
  {
    hide Valid, SumOf, SameDivisors, QuotientKept;
    SumConserved(c, v, e, a, b, n);
    DivisorsKept(v, a, b, n);
    SameDivisorsTrans(v0, v, v[a := v[a] - v[b]], n);
    var w, f := v[a := v[a] - v[b]], e[b := c.add(e[b], e[a])];
    forall d ensures QuotientKept(c, v0, e0, w, f, n, d) {
      assert QuotientKept(c, v0, e0, v, e, n, d);
      QuotientStep(c, v0, e0, v, e, n, a, b, d);
    }
  }

  lemma QuotientStep<E(!new)>(c: Curve<E>, v0: seq<int>, e0: seq<E>, v: seq<int>, e: seq<E>, n: nat, a: nat, b: nat,
                              d: int)
    requires Valid(c) && n <= |v0| && n <= |e0| && n <= |v| && n <= |e| && a < n && b < n && a != b && 0 <= v[b]
    requires SameDivisors(v0, v, n) && QuotientKept(c, v0, e0, v, e, n, d)
    ensures QuotientKept(c, v0, e0, v[a := v[a] - v[b]], e[b := c.add(e[b], e[a])], n, d)
  {
    hide Valid, SumOf;
    if DividesAll(d, v0, n) {
      assert DividesAll(d, v, n);
      var q := Quotients(v, d);
      QuotientDifference(v[a], v[b], d);
      assert Quotients(v[a := v[a] - v[b]], d) == q[a := q[a] - q[b]];
      SumConserved(c, q, e, a, b, n);
    }
  }

  lemma QuotientDifference(x: int, y: int, d: int)
    requires d >= 1 && y % d == 0 && 0 <= y
    ensures (x - y) / d == x / d - y / d && 0 <= y / d
  {
    var p, r, q := x / d, x % d, y / d;
    assert x - y == (p - q) * d + r by {
      assert x == p * d + r && y == q * d;
      assert (p - q) * d == p * d - q * d;
    }
    ModUnique(x - y, d, p - q, r);
  }

  /** Where the loop stands: `pair` are two indices, i and j, whose scalars together still reach
      2^128 once a step was taken without extending. */
  datatype State<E> = State(v: seq<int>, e: seq<E>, size: nat, limbsize: nat, extended: bool, started: bool, i: nat, j: nat)

  ghost predicate Inv<E>(c: Curve<E>, v0: seq<int>, e0: seq<E>, n0: nat, count: nat, s: State<E>) {
    && n0 < count <= |v0| == |s.v| && |e0| == |s.e| == count && s.limbsize <= 4
    && (forall i :: 0 <= i < count ==> 0 <= s.v[i])
    && Kept(c, v0, e0, s.v, s.e, count)
    && (s.extended ==> s.size == count && Extends(v0, n0) && s.started && forall i :: 0 <= i < count ==> s.v[i] < TWO128)
    && (!s.extended ==>
          && s.size == n0 && Kept(c, v0, e0, s.v, s.e, n0) && 2 <= s.limbsize && (s.limbsize == 4 || s.started)
          && (forall i :: n0 <= i < count ==> s.v[i] == v0[i] < TWO128 && s.e[i] == e0[i])
          && (s.started ==> TwoNonzero(v0, n0) && s.i < n0 && s.j < n0 && s.i != s.j && s.v[s.i] + s.v[s.j] >= TWO128))
    && (!s.started ==> s.v == v0 && s.e == e0)
  }

  /** max1 indexes a largest scalar of the heap and max2 a largest of the others. */
  ghost predicate Top2(v: seq<int>, size: nat, max1: int, max2: int) {
    && size <= |v| && 0 <= max1 < size && 0 <= max2 < size && max1 != max2
    && (forall i :: 0 <= i < size ==> v[i] <= v[max1])
    && (forall i :: 0 <= i < size && i != max1 ==> v[i] <= v[max2])
  }

  lemma WeightsUsed()
    ensures Weight(2) * 0x8000 < TWO128 && TWO128 < Weight(3) && Weight(3) <= Weight(4) <= Weight(5)
  {
    assert Weight(0) == 1;
    assert Weight(1) == TWO56;
    assert Weight(2) == TWO56 * TWO56;
    assert Weight(3) == TWO56 * Weight(2);
  }

  /** A largest scalar below 2^128 proves that the input extends. */
  lemma InvExtend<E(!new)>(c: Curve<E>, v0: seq<int>, e0: seq<E>, n0: nat, count: nat, s: State<E>, max1: int,
                           max2: int)
    requires Inv(c, v0, e0, n0, count, s) && !s.extended && Top2(s.v, s.size, max1, max2) && s.v[max2] != 0 && s.v[max1] < TWO128
    ensures Inv(c, v0, e0, n0, count, s.(extended := true, started := true, size := count))
  {
    assert TwoNonzero(v0, n0) by {
      if !s.started {
        if max1 < max2 { assert s.v[max1] != 0 && s.v[max2] != 0; } else { assert s.v[max2] != 0 && s.v[max1] != 0; }
      }
    }
    forall d | DividesAll(d, v0, n0)
      ensures d < TWO128
    {
      assert DividesAll(d, s.v, n0);
      DivisorAtMost(s.v[max1], d);
    }
  }

  /** limbsize never drops below what the 128-bit scalars need before they are in the heap: after
      a first step the largest scalar is at least 2^127. */
  lemma ShrinkBound<E(!new)>(c: Curve<E>, v0: seq<int>, e0: seq<E>, n0: nat, count: nat, s: State<E>, max1: int,
                             max2: int)
    requires Inv(c, v0, e0, n0, count, s) && Top2(s.v, s.size, max1, max2) && s.v[max1] < Weight(s.limbsize) && !s.extended
    ensures 3 <= s.limbsize
  {
    hide Weight, Kept, Extends, TwoNonzero;
    WeightsUsed();
  }

  /** Subtracting keeps the invariant; without extension the two scalars it touched add up to the
      old maximum. */
  lemma InvStep<E(!new)>(c: Curve<E>, v0: seq<int>, e0: seq<E>, n0: nat, count: nat, s: State<E>, max1: int,
                         max2: int, l: nat)
    requires Valid(c) && Inv(c, v0, e0, n0, count, s) && Top2(s.v, s.size, max1, max2) && s.v[max2] != 0
    requires s.extended || s.v[max1] >= TWO128
    requires l <= 4 && (!s.extended ==> 2 <= l)
    ensures Inv(c, v0, e0, n0, count, State(s.v[max1 := s.v[max1] - s.v[max2]], s.e[max2 := c.add(s.e[max2], s.e[max1])],
                                            s.size, l, s.extended, true, max1, max2))
    ensures Total(s.v[max1 := s.v[max1] - s.v[max2]], count) < Total(s.v, count)
  {
    hide Valid, Kept, Extends;
    KeptStep(c, v0, e0, s.v, s.e, count, max1, max2);
    TotalUpdate(s.v, max1, s.v[max1] - s.v[max2], count);
    if !s.extended {
      KeptStep(c, v0, e0, s.v, s.e, n0, max1, max2);
      if !s.started {
        if max1 < max2 { assert s.v[max1] != 0 && s.v[max2] != 0; } else { assert s.v[max2] != 0 && s.v[max1] != 0; }
      }
    }
  }

  /** When one scalar is left the loop has extended exactly if the input extends. */
  lemma ExitDecided<E(!new)>(c: Curve<E>, v0: seq<int>, e0: seq<E>, n0: nat, count: nat, s: State<E>, max1: int,
                             max2: int)
    requires Inv(c, v0, e0, n0, count, s) && Top2(s.v, s.size, max1, max2) && s.v[max2] == 0
    ensures s.extended <==> Extends(v0, n0)
    ensures forall i :: 0 <= i < s.size && i != max1 ==> s.v[i] == 0
  {
    if !s.extended && s.started {
      var d := s.v[max1];
      assert d >= TWO128;
      assert DividesAll(d, s.v, n0) by { LeftoverDivides(s.v, max1, n0); }
      assert DividesAll(d, v0, n0);
    }
  }

  lemma LeftoverDivides(v: seq<int>, m: nat, n: nat)
    requires n <= |v| && m < n && v[m] >= 1 && forall i :: 0 <= i < n && i != m ==> v[i] == 0
    ensures DividesAll(v[m], v, n)
  {
    MultipleOf(0, v[m], 0);
    MultipleOf(v[m], v[m], 1);
  }

  /** The survivor is the greatest common divisor of the input: it has the same divisors. */
  lemma SurvivorIsGcd(v0: seq<int>, v: seq<int>, m: nat, n: nat)
    requires SameDivisors(v0, v, n) && n <= |v| && m < n && 0 <= v[m] && forall i :: 0 <= i < n && i != m ==> v[i] == 0
    ensures forall d :: d >= 1 ==> (DividesAll(d, v0, n) <==> v[m] % d == 0)
  {
    forall d | d >= 1
      ensures DividesAll(d, v0, n) <==> v[m] % d == 0
    {
      MultipleOf(0, d, 0);
      assert DividesAll(d, v, n) <==> v[m] % d == 0;
    }
  }

  /** `exhausted another limb?` */
  method Shrink(b: BatchHeap, max1: int, limbsize: nat, ghost max2: int) returns (l: nat)
    requires limbsize <= 4 && b.IsHeap() && Loaded(b.scalars[..], b.size, limbsize)
    requires Top2(Keys(b.scalars[..]), b.size, max1, max2) && 0 < Keys(b.scalars[..])[max2]
    ensures Loaded(b.scalars[..], b.size, l) && limbsize - 1 <= l <= limbsize
    ensures l < limbsize ==> Keys(b.scalars[..])[max1] < Weight(limbsize)
  {
    hide Weight, Low, Radix56;
    l := limbsize;
    var x := b.scalars[max1];
    assert x == b.scalars[..][max1];
    if x[limbsize] == 0 {
      FitsIffBelow(x, limbsize);
      if limbsize == 0 {
        ZeroIffNoLimb(x);
      }
      l := l - 1;
      FitsIffBelow(x, l);
      forall i | 0 <= i < b.size
        ensures Key(b.scalars[..][i]) < Weight(l + 1)
      {
        assert Keys(b.scalars[..])[i] <= Keys(b.scalars[..])[max1];
      }
    }
  }

  /** `can we extend to the 128 bit scalars?` */
  method TryExtend(b: BatchHeap, max1: int, max2: int, limbsize: nat, count: nat) returns (m1: int, m2: int,
                   extended: bool)
    requires b.IsHeap() && 3 <= b.size <= count <= CAPACITY && 2 <= limbsize <= 4
    requires Loaded(b.scalars[..], b.size, limbsize) && Loaded(b.scalars[..], count, 4)
    requires forall i :: b.size <= i < count ==> Keys(b.scalars[..])[i] < TWO128
    requires Top2(Keys(b.scalars[..]), b.size, max1, max2) && max1 == b.heap[0]
    modifies b`pos, b`size, b.heap
    ensures extended <==> Keys(b.scalars[..])[max1] < TWO128
    ensures b.size == if extended then count else old(b.size)
    ensures b.IsHeap() && Loaded(b.scalars[..], b.size, limbsize)
    ensures Top2(Keys(b.scalars[..]), b.size, m1, m2) && m1 == b.heap[0] && Keys(b.scalars[..])[max2] <= Keys(b.scalars[..])[m2]
    ensures !extended ==> m1 == max1 && m2 == max2
  {
    hide Weight, Radix56, Ordered, Permutation, InRange;
    m1, m2, extended := max1, max2, false;
    assert b.scalars[max1] == b.scalars[..][max1];
    var small := IsAtMost128(b.scalars[max1]);
    if small {
      WeightsUsed();
      WeightGrows(3, limbsize + 1);
      b.Extend(count);
      forall i | 0 <= i < count
        ensures Carried(b.scalars[..][i]) && Key(b.scalars[..][i]) < Weight(limbsize + 1)
      {
        assert b.scalars[i] == b.scalars[..][i];
      }
      m1, m2 := b.GetTop2(limbsize);
      extended := true;
    }
  }

  /** The ghost state agrees with the heap object. */
  ghost predicate Matches<E>(c: Curve<E>, b: BatchHeap, count: nat, s: State<E>)
    reads b, b.heap, b.scalars, b.points
  {
    && b.IsHeap() && b.size == s.size && 3 <= b.size <= count && b.size % 2 == 1 && s.v == Keys(b.scalars[..])
    && s.limbsize <= 4 && Loaded(b.scalars[..], b.size, s.limbsize) && Loaded(b.scalars[..], count, 4)
    && AllPoints(c, b.points[..], s.e, count)
  }

  lemma StillLoaded(s: seq<Limbs>, s': seq<Limbs>, count: nat, m: int, size: nat, limbsize: nat)
    requires Loaded(s, count, 4) && |s'| == |s| && 0 <= m < size <= count && limbsize <= 4 && Loaded(s', size, limbsize)
    requires forall i :: 0 <= i < |s| && i != m ==> s'[i] == s[i]
    ensures Loaded(s', count, 4)
  {
    hide Weight;
    WeightGrows(limbsize + 1, 5);
  }

  /** The two tests of a turn: another limb exhausted, and time to extend. */
  method Prepare<E(!new)>(b: BatchHeap, max1: int, max2: int, limbsize: nat, extended: bool, count: nat,
                          ghost c: Curve<E>, ghost v0: seq<int>, ghost e0: seq<E>, ghost n0: nat, ghost s: State<E>)
    returns (m1: int, m2: int, l: nat, ext: bool, ghost t: State<E>)
    requires count <= CAPACITY && (count % 2 == 1 || !Extends(v0, n0))
    requires Inv(c, v0, e0, n0, count, s) && Matches(c, b, count, s)
    requires s.limbsize == limbsize && s.extended == extended
    requires Top2(s.v, s.size, max1, max2) && s.v[max2] != 0 && max1 == b.heap[0]
    modifies b`pos, b`size, b.heap
    ensures Inv(c, v0, e0, n0, count, t) && Matches(c, b, count, t.(limbsize := l)) && t.extended == ext
    ensures t.v == s.v && t.e == s.e && Top2(t.v, t.size, m1, m2) && t.v[m2] != 0 && m1 == b.heap[0]
    ensures !ext ==> 2 <= l && t.v[m1] >= TWO128
  {
    hide Kept, Extends, TwoNonzero, Weight, Radix56, Ordered, Permutation, InRange, AllPoints, Loaded;
    ext, m1, m2, t := extended, max1, max2, s;
    l := Shrink(b, max1, limbsize, max2);
    if l < limbsize && !extended {
      ShrinkBound(c, v0, e0, n0, count, s, max1, max2);
    }
    if !extended {
      m1, m2, ext := TryExtend(b, max1, max2, l, count);
      if ext {
        InvExtend(c, v0, e0, n0, count, s, max1, max2);
        t := s.(extended := true, started := true, size := count);
      }
    }
  }

  /** The part of a turn of the loop after the test for the end. */
  method Turn<E(!new)>(b: BatchHeap, max1: int, max2: int, limbsize: nat, extended: bool, count: nat,
                       ghost c: Curve<E>, ghost v0: seq<int>, ghost e0: seq<E>, ghost n0: nat, ghost s: State<E>)
    returns (l: nat, ext: bool, ghost t: State<E>)
    requires Valid(c) && count <= CAPACITY && (count % 2 == 1 || !Extends(v0, n0))
    requires Inv(c, v0, e0, n0, count, s) && Matches(c, b, count, s)
    requires s.limbsize == limbsize && s.extended == extended
    requires Top2(s.v, s.size, max1, max2) && s.v[max2] != 0 && max1 == b.heap[0]
    modifies b`pos, b`size, b.heap, b.scalars, b.points
    ensures Inv(c, v0, e0, n0, count, t) && Matches(c, b, count, t) && t.limbsize == l && t.extended == ext
    ensures Total(t.v, count) < Total(s.v, count)
  {
    hide CurveGroup.Valid, Inv, Weight, Radix56, FullOf, Ordered, Permutation, InRange, Total, Loaded, AllPoints;
    var m1, m2;
    m1, m2, l, ext, t := Prepare(b, max1, max2, limbsize, extended, count, c, v0, e0, n0, s);
    InvStep(c, v0, e0, n0, count, t, m1, m2, l);
    ghost var before := b.scalars[..];
    ghost var e := Step(b, m1, m2, l, count, c, t.e);
    StillLoaded(before, b.scalars[..], count, m1, b.size, l);
    t := State(t.v[m1 := t.v[m1] - t.v[m2]], e, t.size, l, ext, true, m1, m2);
  }

  /** `((count + 1) / 2) | 1`: the size of the first heap. */
  function HeapStart(count: nat): (n: nat)
    ensures n % 2 == 1 && (count + 1) / 2 <= n <= (count + 1) / 2 + 1
  {
    OrOne((count + 1) / 2);
    Or((count + 1) / 2, 1)
  }

  /** The size of the heap stays odd, as its repair needs it. */
  ghost predicate OddSizes(v: seq<int>, count: nat) {
    count % 2 == 1 || !Extends(v, HeapStart(count))
  }

  lemma OrOne(x: nat)
    ensures Or(x, 1) == x - x % 2 + 1
  {
    if x != 0 {
      assert Or(x / 2, 0) == x / 2;
    }
  }

  lemma InvStart<E(!new)>(c: Curve<E>, v0: seq<int>, e0: seq<E>, n0: nat, count: nat)
    requires n0 < count <= |v0| && |e0| == count && (forall i :: 0 <= i < count ==> 0 <= v0[i])
    requires forall i :: n0 <= i < count ==> v0[i] < TWO128
    ensures Inv(c, v0, e0, n0, count, State(v0, e0, n0, 4, false, false, 0, 0))
  {
  }

  lemma KeysNonNegative(s: seq<Limbs>, count: nat)
    requires Loaded(s, count, 4)
    ensures forall i :: 0 <= i < count ==> 0 <= Keys(s)[i]
  {
    hide Weight, Low, Radix56;
    forall i | 0 <= i < count
      ensures 0 <= Keys(s)[i]
    {
      TruncationIsSound(s[i], 4);
    }
  }

  /** The loop of ge25519_multi_scalarmult_vartime. It ends for every input. */
  method Reduce<E(!new)>(b: BatchHeap, count: nat, ghost c: Curve<E>, ghost e0: seq<E>) returns (max1: int,
                         extended: bool, ghost s: State<E>)
    requires Valid(c) && b.Valid() && 5 <= count <= CAPACITY && OddSizes(Keys(b.scalars[..]), count)
    requires Loaded(b.scalars[..], count, 4) && |e0| == count && AllPoints(c, b.points[..], e0, count)
    requires forall i :: HeapStart(count) <= i < count ==> Keys(b.scalars[..])[i] < TWO128
    modifies b, b.heap, b.scalars, b.points
    ensures Inv(c, old(Keys(b.scalars[..])), e0, HeapStart(count), count, s) && Matches(c, b, count, s)
    ensures extended == s.extended && (extended <==> Extends(old(Keys(b.scalars[..])), HeapStart(count)))
    ensures 0 <= max1 < s.size && forall i :: 0 <= i < s.size && i != max1 ==> s.v[i] == 0
  {
    hide CurveGroup.Valid, Inv, Weight, Radix56, FullOf, Ordered, Permutation, InRange, Total, AllPoints, HeapStart;
    hide Extends;
    var limbsize, max2 := 4, 0;
    extended := false;
    ghost var v0, n0 := Keys(b.scalars[..]), HeapStart(count);
    KeysNonNegative(b.scalars[..], count);
    InvStart(c, v0, e0, n0, count);
    s := State(v0, e0, n0, 4, false, false, 0, 0);
    b.Build(HeapStart(count));
    max1 := 0;
    while true
      invariant Inv(c, v0, e0, n0, count, s) && Matches(c, b, count, s) && s.limbsize == limbsize && s.extended == extended
      decreases Total(s.v, count)
    {
      max1, max2 := b.GetTop2(limbsize);
      assert Top2(s.v, s.size, max1, max2);
      assert b.scalars[max2] == b.scalars[..][max2];
      var done := IsZero(b.scalars[max2]);
      if done {
        ExitDecided(c, v0, e0, n0, count, s, max1, max2);
        break;
      }
      TotalKept(c, v0, e0, n0, count, s);
      limbsize, extended, s := Turn(b, max1, max2, limbsize, extended, count, c, v0, e0, n0, s);
    }
  }

  lemma TotalKept<E(!new)>(c: Curve<E>, v0: seq<int>, e0: seq<E>, n0: nat, count: nat, s: State<E>)
    requires Inv(c, v0, e0, n0, count, s)
    ensures 0 <= Total(s.v, count)
  {
    hide Kept, Extends, TwoNonzero;
    TotalNonNegative(s.v, count);
  }

  // ---- the final multiplication --------------------------------------------

  const TOPBIT: int := 0x80_0000_0000_0000
  /** limb128bits */
  const LIMB128: nat := 3

  /** What the scan has still to read: the bits of limb `limb` below `2 flag`, and the limbs below. */
  ghost function Unread(x: Limbs, limb: nat, flag: int): int
    requires |x| == 5 && limb < 5 && flag >= 1
  {
    (x[limb] % (2 * flag)) * Weight(limb) + Low(x, limb)
  }

  ghost predicate PowerOfTwo(flag: int) {
    exists f: nat :: f < 56 && flag == Pow2(f)
  }

  lemma HalfPower(flag: int)
    requires PowerOfTwo(flag) && flag >= 1
    ensures flag == 1 ==> flag / 2 == 0
    ensures flag > 1 ==> flag % 2 == 0 && PowerOfTwo(flag / 2) && flag / 2 >= 1
  {
    var f: nat :| f < 56 && flag == Pow2(f);
    if f == 0 {
    } else {
      assert flag / 2 == Pow2(f - 1);
    }
  }

  lemma TopbitPower()
    ensures PowerOfTwo(TOPBIT)
  {
    assert Pow2(5) == 32 && Pow2(10) == 0x400;
    hide Pow2;
    Pow2Add(10, 10);
    Pow2Add(20, 20);
    Pow2Add(40, 10);
    Pow2Add(50, 5);
    assert TOPBIT == Pow2(55);
  }

  /** Reading one bit: 2 acc + bit, at half the weight. */
  lemma ReadBit(x: Limbs, limb: nat, flag: int, acc: int)
    requires Carried(x) && limb < 5 && flag >= 1
    ensures acc * (2 * flag * Weight(limb)) + Unread(x, limb, flag)
      == (2 * acc + x[limb] / flag % 2) * (flag * Weight(limb)) + (x[limb] % flag) * Weight(limb) + Low(x, limb)
  {
    hide Low, Weight;
    BitSplit(x[limb], flag);
    ReadIdentity(acc, x[limb] / flag % 2, flag, Weight(limb), x[limb] % flag);
  }

  lemma ReadIdentity(acc: int, bit: int, flag: int, w: int, lo: int)
    ensures acc * (2 * flag * w) + (bit * flag + lo) * w == (2 * acc + bit) * (flag * w) + lo * w
  {
    assert (bit * flag + lo) * w == bit * (flag * w) + lo * w;
    assert acc * (2 * flag * w) == (2 * acc) * (flag * w);
    assert (2 * acc + bit) * (flag * w) == (2 * acc) * (flag * w) + bit * (flag * w);
  }

  lemma BitSplit(y: int, flag: int)
    requires flag >= 1 && y >= 0
    ensures y % (2 * flag) == (y / flag % 2) * flag + y % flag
  {
    var q := y / flag;
    var h, bit := q / 2, q % 2;
    assert y == q * flag + y % flag;
    assert q == 2 * h + bit;
    assert y == h * (2 * flag) + (bit * flag + y % flag) by { assert (2 * h + bit) * flag == h * (2 * flag) + bit * flag; }
    assert bit * flag <= flag;
    ModUnique(y, 2 * flag, h, bit * flag + y % flag);
  }

  /** Moving to the next limb down changes neither the weight nor what is unread. */
  lemma NextLimb(x: Limbs, limb: nat)
    requires Carried(x) && 1 <= limb < 5
    ensures 2 * TOPBIT * Weight(limb - 1) == Weight(limb) && Unread(x, limb - 1, TOPBIT) == Low(x, limb)
  {
    assert x[limb - 1] % (2 * TOPBIT) == x[limb - 1];
  }

  datatype FinalResult = OutOfBounds | Done(point: Ge)

  /** The scan for the highest bit of the limbs 3 to 0. */
  method TopBit(scalar: Limbs) returns (limb: int, flag: int)
    requires Carried(scalar)
    ensures limb < 0 <==> Low(scalar, 4) == 0
    ensures limb >= 0 ==> limb <= 3 && PowerOfTwo(flag) && 1 <= flag <= scalar[limb] < 2 * flag
    ensures forall i :: limb < i <= 3 && 0 <= i ==> scalar[i] == 0
  {
    hide Low, Weight, Pow2, PowerOfTwo;
    limb, flag := LIMB128, TOPBIT;
    LowZero(scalar, 4);
    while limb >= 0 && scalar[limb] == 0
      invariant -1 <= limb <= 3 && forall i :: limb < i <= 3 ==> scalar[i] == 0
    {
      limb := limb - 1;
    }
    if limb < 0 {
      return;
    }
    TopbitPower();
    while scalar[limb] / flag % 2 == 0
      invariant PowerOfTwo(flag) && 1 <= flag && scalar[limb] < 2 * flag
      decreases flag
    {
      HalfPower(flag);
      assert scalar[limb] < flag by {
        if scalar[limb] >= flag { QuotientOne(scalar[limb], flag); }
      }
      flag := flag / 2;
    }
    if scalar[limb] < flag {
      SmallDivision(scalar[limb], flag);
    }
  }

  lemma QuotientOne(y: int, flag: int)
    requires 1 <= flag <= y < 2 * flag
    ensures y / flag == 1
  {
    ModUnique(y, flag, 1, y - flag);
  }

  lemma SmallDivision(y: int, flag: int)
    requires 0 <= y < flag
    ensures y / flag == 0
  {
    ModUnique(y, flag, 0, y);
  }

  lemma {:induction false} LowZero(x: Limbs, n: nat)
    requires Carried(x) && n <= 5
    ensures Low(x, n) == 0 <==> forall i :: 0 <= i < n ==> x[i] == 0
  {
    if i :| 0 <= i < n && x[i] != 0 {
      LimbBelow(x, i, n);
    } else if n != 0 {
      LowZero(x, n - 1);
    }
  }

  /** The double-and-add loop: it starts from the point itself, so the leading bit counts twice. */
  method Exponentiate<E(!new)>(point: Ge, scalar: Limbs, limb0: nat, flag0: int, ghost c: Curve<E>,
                               ghost e: E) returns (r: Ge)
    requires Valid(c) && FullOf(c, point, e) && Carried(scalar) && limb0 <= 3 && PowerOfTwo(flag0) && 1 <= flag0
    ensures FullOf(c, r, Times(c, 2 * flag0 * Weight(limb0) + Unread(scalar, limb0, flag0), e))
  {
    hide CurveGroup.Valid, FullOf, PartialOf, Times, Low, Weight, PowerOfTwo, Unread;
    r := point;
    var limb, flag := limb0, flag0;
    ghost var acc := 1;
    ghost var target := 2 * flag0 * Weight(limb0) + Unread(scalar, limb0, flag0);
    TimesOne(c, e);
    while true
      invariant 0 <= limb <= 3 && PowerOfTwo(flag) && 1 <= flag
      invariant FullOf(c, r, Times(c, acc, e))
      invariant acc * (2 * flag * Weight(limb)) + Unread(scalar, limb, flag) == target
      decreases limb, flag
    {
      FullIsPartial(c, r, Times(c, acc, e));
      r := Double(r, c, Times(c, acc, e));
      TimesAdd(c, acc, acc, e);
      ghost var bit := scalar[limb] / flag % 2;
      if scalar[limb] / flag % 2 == 1 {
        r := AddPoints(r, point, c, Times(c, 2 * acc, e), e);
        TimesAdd(c, 2 * acc, 1, e);
      }
      ReadBit(scalar, limb, flag, acc);
      acc := 2 * acc + bit;
      HalfPower(flag);
      ghost var was := flag;
      flag := flag / 2;
      if flag == 0 {
        if limb == 0 {
          LastBit(scalar);
          break;
        }
        NextLimb(scalar, limb);
        limb := limb - 1;
        flag := TOPBIT;
        TopbitPower();
      } else {
        UnreadHalf(scalar, limb, was);
      }
    }
  }

  lemma LastBit(x: Limbs)
    requires |x| == 5
    ensures Weight(0) == 1 && Low(x, 0) == 0
  {
  }

  lemma UnreadHalf(x: Limbs, limb: nat, flag: int)
    requires |x| == 5 && limb < 5 && flag >= 2 && flag % 2 == 0
    ensures Unread(x, limb, flag / 2) == (x[limb] % flag) * Weight(limb) + Low(x, limb)
    ensures 2 * (flag / 2) * Weight(limb) == flag * Weight(limb)
  {
    assert 2 * (flag / 2) == flag;
  }

  /** What a full scan reads is the value of the limbs 0 to 3, and the leading weight is the power
      of two above it. */
  lemma ScanValue(x: Limbs, limb: nat, flag: int) returns (k: nat)
    requires Carried(x) && limb <= 3 && PowerOfTwo(flag) && 1 <= flag <= x[limb] < 2 * flag && forall i :: limb < i <= 3 ==> x[i] == 0
    ensures Unread(x, limb, flag) == Low(x, 4) && 2 * flag * Weight(limb) == Pow2(k + 1)
    ensures Pow2(k) <= Low(x, 4) < Pow2(k + 1)
  {
    var f: nat :| f < 56 && flag == Pow2(f);
    k := f + 56 * limb;
    LeadingWeight(f, limb);
    LeadingLimb(x, limb, flag);
    LowTail(x, limb + 1);
    LowBound(x, limb);
    assert Low(x, limb + 1) == x[limb] * Weight(limb) + Low(x, limb);
    hide Low, Weight, Pow2;
    Between(x[limb], flag, Weight(limb), Low(x, limb));
  }

  lemma LeadingLimb(x: Limbs, limb: nat, flag: int)
    requires Carried(x) && limb <= 3 && 1 <= flag <= x[limb] < 2 * flag
    ensures Unread(x, limb, flag) == x[limb] * Weight(limb) + Low(x, limb)
  {
    hide Weight, Low;
    ModUnique(x[limb], 2 * flag, 0, x[limb]);
  }

  lemma LeadingWeight(f: nat, limb: nat)
    ensures Pow2(f) * Weight(limb) == Pow2(f + 56 * limb) && 2 * Pow2(f) * Weight(limb) == Pow2(f + 56 * limb + 1)
  {
    hide Weight;
    WeightIsPow2(limb);
    Pow2Add(f, 56 * limb);
    assert Pow2(f + 56 * limb + 1) == 2 * Pow2(f + 56 * limb);
    assert 2 * Pow2(f) * Weight(limb) == 2 * (Pow2(f) * Weight(limb));
  }

  /** A leading digit between flag and 2 flag, in units of w, with less than w below it. */
  lemma Between(d: int, flag: int, w: int, low: int)
    requires 1 <= flag <= d < 2 * flag && 0 <= low < w
    ensures flag * w <= d * w + low < 2 * flag * w
  {
    MulBound(flag, w, d, w);
    MulBound(d + 1, w, 2 * flag, w);
    assert (d + 1) * w == d * w + w;
  }

  lemma {:induction false} LowTail(x: Limbs, n: nat)
    requires |x| == 5 && n <= 4 && forall i :: n <= i <= 3 ==> x[i] == 0
    ensures Low(x, 4) == Low(x, n)
    decreases 4 - n
  {
    if n < 4 {
      LowTail(x, n + 1);
    }
  }

  lemma {:induction false} WeightIsPow2(n: nat)
    ensures Weight(n) == Pow2(56 * n)
  {
    if n != 0 {
      WeightIsPow2(n - 1);
      Pow2Add(56, 56 * (n - 1));
      TwoTo56();
    } else {
      assert Pow2(0) == 1;
    }
  }

  lemma TwoTo56()
    ensures Pow2(56) == TWO56
  {
    hide Pow2;
    TwoPowers();
  }

  /** The multiple of the point that the final step returns, with 2^k the highest power of two in the
      limbs 0 to 3 of the scalar g. */
  ghost function FinalMultiple(g: int, k: nat): int {
    if g <= 1 then g else Pow2(k + 1) + g % Weight(4)
  }

  ghost predicate Leading(g: int, k: nat) {
    g > 1 ==> Pow2(k) <= g % Weight(4) < Pow2(k + 1)
  }

  /** The scalars without a leading limb among those the scan looks at. */
  ghost predicate Unscannable(g: int) {
    g > 1 && g % Weight(4) == 0
  }

  /** The final step is exact for 0 and 1, and among the larger scalars only where the bit that
      counts twice makes up for a limb 4 of 1 that is not read. */
  lemma FinalExactIff(g: int, k: nat)
    requires 0 <= g && Leading(g, k)
    ensures FinalMultiple(g, k) == g <==> g <= 1 || (g / Weight(4) == 1 && k == 223)
  {
    hide Weight, Pow2;
    if g > 1 {
      var w, h, low := Weight(4), g / Weight(4), g % Weight(4);
      WeightIsPow2(4);
      WeightsUsed();
      assert g == w * h + low;
      TopWeightExact(k, h);
    }
  }

  lemma TopWeightExact(k: nat, h: int)
    requires Pow2(k) < Pow2(224)
    ensures Pow2(k + 1) == Pow2(224) * h <==> h == 1 && k == 223
  {
    hide Pow2;
    var w := Pow2(224);
    Pow2Step(k);
    Pow2Step(223);
    if k >= 224 {
      Pow2Monotonic(224, k);
    } else if k < 223 {
      Pow2Monotonic(k + 1, 223);
      SmallerMultiple(Pow2(k + 1), w, h);
    } else {
      OnlyOnce(w, h);
    }
  }

  lemma Pow2Step(k: nat)
    ensures Pow2(k + 1) == 2 * Pow2(k) && Pow2(k) >= 1
  {
  }

  lemma SmallerMultiple(a: int, w: int, h: int)
    requires 1 <= a < w
    ensures a != w * h
  {
    MultipleOutside(h, w);
  }

  lemma OnlyOnce(w: int, h: int)
    requires w >= 1
    ensures w == w * h <==> h == 1
  {
    MultipleOutside(h - 1, w);
    assert w * h == w + (h - 1) * w;
  }

  /** ge25519_multi_scalarmult_vartime_final. A scalar above 1 whose limbs 0 to 3 are all zero sends
      the limb scan below the array. Otherwise the point is the wanted multiple exactly if the
      multiple that is too much vanishes. */
  method Final<E(!new)>(point: Ge, scalar: Limbs, ghost c: Curve<E>, ghost e: E) returns (r: FinalResult, ghost k: nat)
    requires Valid(c) && FullOf(c, point, e) && Carried(scalar)
    ensures r.OutOfBounds? <==> Unscannable(Value(scalar))
    ensures Leading(Value(scalar), k) || r.OutOfBounds?
    ensures r.Done? ==> FullOf(c, r.point, Times(c, FinalMultiple(Value(scalar), k), e))
    ensures r.Done? && Faithful(c) ==>
      (FullOf(c, r.point, Times(c, Value(scalar), e)) <==> Times(c, FinalMultiple(Value(scalar), k) - Value(scalar), e) == c.zero)
  {
    hide CurveGroup.Valid, Faithful, FullOf, Times, Low, Weight, Radix56, Pow2, PowerOfTwo, Unread;
    k := 0;
    ZeroIsSmall(scalar);
    LowIsRemainder(scalar);
    ghost var g := Value(scalar);
    var one := IsOne(scalar);
    var zero := IsZero(scalar);
    if one {
      TimesOne(c, e);
      r := Done(point);
    } else if zero {
      NeutralIsZero(c);
      TimesNothing(c, e);
      r := Done(NEUTRAL);
    } else {
      var limb, flag := TopBit(scalar);
      if limb < 0 {
        return OutOfBounds, 0;
      }
      k := ScanValue(scalar, limb, flag);
      var p := Exponentiate(point, scalar, limb, flag, c, e);
      r := Done(p);
    }
    if Faithful(c) {
      StandsForOne(c, r.point, Times(c, FinalMultiple(g, k), e), Times(c, g, e));
      SameMultipleIff(c, FinalMultiple(g, k), g, e);
    }
  }

  lemma SameMultipleIff<E(!new)>(c: Curve<E>, m: int, n: int, e: E)
    requires Valid(c)
    ensures Times(c, m, e) == Times(c, n, e) <==> Times(c, m - n, e) == c.zero
  {
    hide Valid, Times;
    TimesAdd(c, m - n, n, e);
    AddZero(c, Times(c, n, e));
    if Times(c, m, e) == Times(c, n, e) {
      Cancel(c, Times(c, m - n, e), c.zero, Times(c, n, e));
    }
  }

  lemma LowIsRemainder(x: Limbs)
    requires Carried(x)
    ensures Low(x, 4) == Value(x) % Weight(4)
  {
    LowAll(x);
    LowBound(x, 4);
    assert Low(x, 5) == x[4] * Weight(4) + Low(x, 4);
    hide Low, Weight;
    ModUnique(Value(x), Weight(4), x[4], Low(x, 4));
  }

  /** For example the scalar 2 gives six times the point, which is twice the point only if four times
      the point vanishes. */
  method FinalOfTwo<E(!new)>(point: Ge, ghost c: Curve<E>, ghost e: E) returns (r: FinalResult)
    requires Valid(c) && Faithful(c) && FullOf(c, point, e)
    ensures r.Done? && FullOf(c, r.point, Times(c, 6, e))
    ensures FullOf(c, r.point, Times(c, 2, e)) <==> Times(c, 4, e) == c.zero
  {
    hide CurveGroup.Valid, Faithful, FullOf, Times;
    ghost var k;
    assert Value([2, 0, 0, 0, 0]) == 2;
    r, k := Final(point, [2, 0, 0, 0, 0], c, e);
    LeadingOfTwo(k);
  }

  lemma LeadingOfTwo(k: nat)
    ensures !Unscannable(2) && (Leading(2, k) ==> FinalMultiple(2, k) == 6)
  {
    WeightsUsed();
    assert 2 % Weight(4) == 2;
    assert Pow2(1) == 2 && Pow2(2) == 4;
    if k >= 2 {
      Pow2Monotonic(2, k);
    }
  }

  lemma ZeroIsSmall(x: Limbs)
    requires Carried(x)
    ensures 0 <= Value(x)
  {
  }

  // ---- the whole -----------------------------------------------------------

  /** Every common divisor of the first n scalars is 1. */
  ghost predicate Coprime(v: seq<int>, n: nat) {
    forall d :: DividesAll(d, v, n) ==> d == 1
  }

  /** How many terms the loop takes in: all of them if the heap is extended. */
  ghost function Reached(v: seq<int>, count: nat): (n: nat)
    requires 3 <= count
    ensures n <= count
  {
    if Extends(v, HeapStart(count)) then count else HeapStart(count)
  }

  /** g is the greatest common divisor of the first n scalars (0 if they are all 0), and x is their
      sum with g taken out. */
  ghost predicate Survives<E>(c: Curve<E>, v: seq<int>, e: seq<E>, n: nat, g: int, x: E) {
    && n <= |v| && n <= |e| && 0 <= g && (forall d :: d >= 1 ==> (DividesAll(d, v, n) <==> g % d == 0))
    && Times(c, g, x) == SumOf(c, v, e, n) && (g >= 1 ==> x == SumOf(c, Quotients(v, g), e, n))
  }

  /** ge25519_multi_scalarmult_vartime: what is returned, for every input. */
  method MultiScalarMult<E(!new)>(b: BatchHeap, count: nat, ghost c: Curve<E>, ghost e0: seq<E>)
    returns (r: FinalResult, ghost g: int, ghost x: E, ghost k: nat)
    requires Valid(c) && b.Valid() && 5 <= count <= CAPACITY && OddSizes(Keys(b.scalars[..]), count)
    requires Loaded(b.scalars[..], count, 4) && |e0| == count && AllPoints(c, b.points[..], e0, count)
    requires forall i :: HeapStart(count) <= i < count ==> Keys(b.scalars[..])[i] < TWO128
    modifies b, b.heap, b.scalars, b.points
    // one term is left of those in the heap
    ensures Survives(c, old(Keys(b.scalars[..])), e0, Reached(old(Keys(b.scalars[..])), count), g, x)
    ensures Extends(old(Keys(b.scalars[..])), HeapStart(count)) ==> g < TWO128 && r.Done?
    // what the final step makes of it
    ensures r.OutOfBounds? <==> Unscannable(g)
    ensures r.OutOfBounds? <==> Stuck(old(Keys(b.scalars[..])), HeapStart(count))
    ensures r.Done? ==> Leading(g, k) && FullOf(c, r.point, Times(c, FinalMultiple(g, k), x))
    // the point is the whole sum exactly if what is too much is what was left out
    ensures r.Done? && Faithful(c) ==>
      (FullOf(c, r.point, SumOf(c, old(Keys(b.scalars[..])), e0, count))
       <==> Times(c, FinalMultiple(g, k) - g, x) == SumFrom(c, old(Keys(b.scalars[..])), e0, Reached(old(Keys(b.scalars[..])), count), count))
    ensures Extends(old(Keys(b.scalars[..])), HeapStart(count)) && Coprime(old(Keys(b.scalars[..])), count) ==>
      FullOf(c, r.point, SumOf(c, old(Keys(b.scalars[..])), e0, count))
  {
    hide CurveGroup.Valid, Faithful, FullOf, Times, Low, Weight, Radix56, Ordered, Permutation, InRange, HeapStart;
    hide Extends, SumOf, SumFrom;
    hide FinalMultiple, Leading, Unscannable, Stuck, Survives, Coprime, Inv, Reached, Matches, Loaded, AllPoints, Keys;
    ghost var v0, n0 := Keys(b.scalars[..]), HeapStart(count);
    var max1, extended;
    ghost var s;
    max1, extended, s := Reduce(b, count, c, e0);
    ghost var n := Reached(v0, count);
    AtExit(c, v0, e0, count, s, max1);
    g, x := s.v[max1], s.e[max1];
    SlotOf(c, b, count, s, max1);
    r, k := Final(b.points[max1], b.scalars[max1], c, x);
    StuckIff(c, v0, e0, count, g, x);
    if extended {
      Scannable(c, v0, e0, count, g, x, k);
    }
    if r.Done? && Faithful(c) {
      StandsForOne(c, r.point, Times(c, FinalMultiple(g, k), x), SumOf(c, v0, e0, count));
      WholeSumIff(c, v0, e0, n, count, g, FinalMultiple(g, k), x);
    }
  }

  /** After an extension the survivor can be scanned, and it is 1 for coprime scalars. */
  lemma Scannable<E>(c: Curve<E>, v: seq<int>, e: seq<E>, n: nat, g: int, x: E, k: nat)
    requires Survives(c, v, e, n, g, x) && g < TWO128
    ensures !Unscannable(g) && (Coprime(v, n) ==> Times(c, FinalMultiple(g, k), x) == SumOf(c, v, e, n))
  {
    hide Times, SumOf, Quotients;
    SmallRemainder(g);
    if Coprime(v, n) {
      CoprimeSurvivor(v, g, n);
    }
  }

  lemma SlotOf<E>(c: Curve<E>, b: BatchHeap, count: nat, s: State<E>, m: int)
    requires Matches(c, b, count, s) && 0 <= m < s.size
    ensures m < b.points.Length && m < b.scalars.Length && m < |s.e| && m < |s.v|
    ensures FullOf(c, b.points[m], s.e[m]) && Carried(b.scalars[m]) && Value(b.scalars[m]) == s.v[m]
  {
    hide FullOf, Radix56, Weight;
    assert b.points[m] == b.points[..][m] && b.scalars[m] == b.scalars[..][m];
  }

  lemma AtExit<E(!new)>(c: Curve<E>, v0: seq<int>, e0: seq<E>, count: nat, s: State<E>, m: int)
    requires Valid(c) && 3 <= count && Inv(c, v0, e0, HeapStart(count), count, s) && (s.extended <==> Extends(v0, HeapStart(count)))
    requires 0 <= m < s.size && forall i :: 0 <= i < s.size && i != m ==> s.v[i] == 0
    ensures m < |s.v| && m < |s.e| && |v0| >= count && |e0| == count && (s.extended ==> Reached(v0, count) == count && s.v[m] < TWO128)
    ensures Survives(c, v0, e0, Reached(v0, count), s.v[m], s.e[m]) && Times(c, s.v[m], s.e[m]) == SumOf(c, v0, e0, Reached(v0, count))
  {
    hide Valid, Kept, Extends, Survives, HeapStart, TwoNonzero;
    LastTerm(c, v0, e0, s.v, s.e, s.size, m);
  }

  /** The state that the loop ends in, read back to the input. */
  lemma LastTerm<E(!new)>(c: Curve<E>, v0: seq<int>, e0: seq<E>, v: seq<int>, e: seq<E>, n: nat, m: nat)
    requires Valid(c) && Kept(c, v0, e0, v, e, n) && m < n && 0 <= v[m] && forall i :: 0 <= i < n && i != m ==> v[i] == 0
    ensures Survives(c, v0, e0, n, v[m], e[m]) && Times(c, v[m], e[m]) == SumOf(c, v0, e0, n)
  {
    hide Valid, SumOf, Times, SameDivisors;
    SumSingle(c, v, e, m, n);
    SurvivorIsGcd(v0, v, m, n);
    var g := v[m];
    if g >= 1 {
      LeftoverDivides(v, m, n);
      MultipleOf(g, g, 1);
      assert DividesAll(g, v0, n);
      assert QuotientKept(c, v0, e0, v, e, n, g);
      ModUnique(g, g, 1, 0);
      ModUnique(0, g, 0, 0);
      SumSingle(c, Quotients(v, g), e, m, n);
      TimesOne(c, e[m]);
    }
  }

  /** The returned multiple is the whole sum exactly if what it has too much is what the heap left
      out. */
  lemma WholeSumIff<E(!new)>(c: Curve<E>, v: seq<int>, e: seq<E>, n: nat, count: nat, g: int, m: int, x: E)
    requires Valid(c) && n <= count <= |v| && count <= |e| && Times(c, g, x) == SumOf(c, v, e, n)
    ensures Times(c, m, x) == SumOf(c, v, e, count) <==> Times(c, m - g, x) == SumFrom(c, v, e, n, count)
  {
    hide Valid, Times, SumOf, SumFrom;
    SumSplits(c, v, e, n, count);
    var a, t := SumOf(c, v, e, n), SumFrom(c, v, e, n, count);
    TimesAdd(c, m - g, g, x);
    Comm(c, a, t);
    if Times(c, m, x) == SumOf(c, v, e, count) {
      Cancel(c, Times(c, m - g, x), t, a);
    }
  }

  /** On an extended heap: nothing is left out, and what is too much is a power of two, or nothing for
      a survivor of at most 1. */
  lemma ExtendedIff<E(!new)>(c: Curve<E>, v: seq<int>, e: seq<E>, count: nat, g: int, k: nat, x: E)
    requires count <= |v| && count <= |e| && 0 <= g < TWO128 && Leading(g, k)
    ensures Times(c, FinalMultiple(g, k) - g, x) == SumFrom(c, v, e, count, count) <==> g <= 1 || Times(c, Pow2(k + 1), x) == c.zero
  {
    SmallRemainder(g);
    TimesNothing(c, x);
  }

  lemma SmallRemainder(g: int)
    requires 0 <= g < TWO128
    ensures g % Weight(4) == g
  {
    WeightsUsed();
    hide Weight;
    ModUnique(g, Weight(4), 0, g);
  }

  lemma CoprimeSurvivor(v0: seq<int>, g: int, n: nat)
    requires Coprime(v0, n) && 0 <= g && forall d :: d >= 1 ==> (DividesAll(d, v0, n) <==> g % d == 0)
    ensures g == 1
  {
    var d := if g == 0 then 2 else g;
    MultipleOf(g, d, if g == 0 then 0 else 1);
    assert DividesAll(d, v0, n);
  }

  // ---- what the input decides ----------------------------------------------

  /** The inputs on which the limb scan leaves its array: the first n scalars are multiples of 2^224,
      and not all of them are 0. */
  ghost predicate Stuck(v: seq<int>, n: nat) {
    DividesAll(Weight(4), v, n) && exists i :: 0 <= i < n && v[i] != 0
  }

  lemma StuckIff<E>(c: Curve<E>, v: seq<int>, e: seq<E>, count: nat, g: int, x: E)
    requires 3 <= count && Survives(c, v, e, Reached(v, count), g, x)
    ensures Unscannable(g) <==> Stuck(v, HeapStart(count))
  {
    var n := Reached(v, count);
    SurvivorScan(c, v, e, n, g, x);
    WeightsUsed();
    hide Weight, HeapStart, Survives, Unscannable;
    assert DividesAll(Weight(4), v, n) ==> DividesAll(Weight(4), v, HeapStart(count));
  }

  lemma SurvivorScan<E>(c: Curve<E>, v: seq<int>, e: seq<E>, n: nat, g: int, x: E)
    requires Survives(c, v, e, n, g, x)
    ensures Unscannable(g) <==> Stuck(v, n)
  {
    hide SumOf, Times, Quotients;
    WeightsUsed();
    hide Weight;
    var w := Weight(4);
    assert DividesAll(w, v, n) <==> g % w == 0;
    if g == 0 {
      forall i | 0 <= i < n ensures v[i] == 0 {
        var d := if v[i] < 0 then 1 - v[i] else 1 + v[i];
        MultipleOf(0, d, 0);
        assert DividesAll(d, v, n);
        OnlyZero(v[i], d);
      }
    } else {
      if forall i :: 0 <= i < n ==> v[i] == 0 {
        MultipleOf(0, g + 1, 0);
        assert DividesAll(g + 1, v, n);
        DivisorAtMost(g, g + 1);
      }
      if g == 1 {
        ModUnique(1, w, 0, 1);
      }
    }
  }

  lemma OnlyZero(x: int, d: int)
    requires d > x && d > -x && x % d == 0
    ensures x == 0
  {
    MultipleOutside(x / d, d);
    assert x == (x / d) * d;
  }

  lemma SamePrefix(v: seq<int>, w: seq<int>, n: nat)
    requires n <= |v| && n <= |w| && forall i :: 0 <= i < n ==> v[i] == w[i]
    ensures Extends(v, n) <==> Extends(w, n)
  {
    assert TwoNonzero(v, n) <==> TwoNonzero(w, n);
    forall d ensures DividesAll(d, v, n) <==> DividesAll(d, w, n) {
    }
  }

  /** What survives depends only on the scalars that are read. */
  lemma SameSurvivor<E>(c: Curve<E>, v: seq<int>, w: seq<int>, e: seq<E>, count: nat, g: int, x: E)
    requires 3 <= count <= |v| && count <= |w| && forall i :: 0 <= i < count ==> v[i] == w[i]
    requires Survives(c, v, e, Reached(v, count), g, x)
    ensures Survives(c, w, e, Reached(w, count), g, x)
  {
    hide Times, SumOf, Extends, HeapStart;
    var n := Reached(v, count);
    SamePrefix(v, w, HeapStart(count));
    forall d ensures DividesAll(d, v, n) <==> DividesAll(d, w, n) {
    }
    SumSame(c, v, e, w, e, n);
    if g >= 1 {
      SumSame(c, Quotients(v, g), e, Quotients(w, g), e, n);
    }
  }

  // ---- inputs that never extend --------------------------------------------

  /** The terms the first heap leaves out. */
  ghost function SumFrom<E>(c: Curve<E>, v: seq<int>, e: seq<E>, n: nat, count: nat): E
    requires n <= count <= |v| && count <= |e|
  {
    if n == count then c.zero else c.add(SumFrom(c, v, e, n, count - 1), Times(c, v[count - 1], e[count - 1]))
  }

  lemma {:induction false} SumSplits<E(!new)>(c: Curve<E>, v: seq<int>, e: seq<E>, n: nat, count: nat)
    requires Valid(c) && n <= count <= |v| && count <= |e|
    ensures SumOf(c, v, e, count) == c.add(SumOf(c, v, e, n), SumFrom(c, v, e, n, count))
  {
    hide Valid, Times;
    if n == count {
      AddZero(c, SumOf(c, v, e, n));
    } else {
      SumSplits(c, v, e, n, count - 1);
      Assoc(c, SumOf(c, v, e, n), SumFrom(c, v, e, n, count - 1), Times(c, v[count - 1], e[count - 1]));
    }
  }

  /** One nonzero scalar in the first heap of five ends the loop before the 128-bit scalars are looked
      at: the returned point is e[0], and the term 7 e[3] of the sum is lost. */
  method LostTerm<E(!new)>(b: BatchHeap, ghost c: Curve<E>, ghost e: seq<E>) returns (r: FinalResult)
    requires Valid(c) && Faithful(c) && b.Valid() && |e| == 5 && AllPoints(c, b.points[..], e, 5)
    requires forall i :: 0 <= i < 5 ==> b.scalars[i] == [if i == 0 then 1 else if i == 3 then 7 else 0, 0, 0, 0, 0]
    modifies b, b.heap, b.scalars, b.points
    ensures r.Done? && FullOf(c, r.point, e[0])
    ensures SumOf(c, old(Keys(b.scalars[..])), e, 5) == c.add(e[0], Times(c, 7, e[3]))
    ensures FullOf(c, r.point, SumOf(c, old(Keys(b.scalars[..])), e, 5)) <==> Times(c, 7, e[3]) == c.zero
  {
    hide CurveGroup.Valid, Faithful, FullOf, Times, SumOf, SumFrom, Weight, AllPoints, HeapStart, Extends, Survives;
    hide Leading, Unscannable, FinalMultiple;
    ghost var v := Keys(b.scalars[..]);
    SmallLoad(b.scalars[..], 5);
    FirstOfFive(v);
    ghost var g, x, k;
    r, g, x, k := MultiScalarMult(b, 5, c, e);
    OneSurvivor(c, v, e, g, x, k);
  }

  /** Scalars below 2^56 are loaded. */
  lemma SmallLoad(s: seq<Limbs>, count: nat)
    requires count <= |s| && forall i :: 0 <= i < count ==> |s[i]| == 5 && 0 <= s[i][0] < TWO56 && s[i][1..] == [0, 0, 0, 0]
    ensures Loaded(s, count, 4) && forall i :: 0 <= i < count ==> Keys(s)[i] == s[i][0]
  {
    forall i | 0 <= i < count ensures Carried(s[i]) && Key(s[i]) == s[i][0] {
      assert s[i][1] == s[i][1..][0] && s[i][2] == s[i][1..][1] && s[i][3] == s[i][1..][2] && s[i][4] == s[i][1..][3];
    }
    WeightsUsed();
  }

  ghost predicate LostInput(v: seq<int>) {
    |v| >= 5 && v[0] == 1 && v[1] == 0 && v[2] == 0 && v[3] == 7 && v[4] == 0
  }

  lemma FirstOfFive(v: seq<int>)
    requires |v| >= 5 && v[1] == 0 && v[2] == 0
    ensures HeapStart(5) == 3 && !Extends(v, 3)
  {
    OrOne(3);
  }

  lemma OneSurvivor<E(!new)>(c: Curve<E>, v: seq<int>, e: seq<E>, g: int, x: E, k: nat)
    requires Valid(c) && LostInput(v) && |e| == 5 && Survives(c, v, e, 3, g, x)
    ensures !Unscannable(g) && Times(c, FinalMultiple(g, k), x) == e[0] && Times(c, FinalMultiple(g, k) - g, x) == c.zero
    ensures SumFrom(c, v, e, 3, 5) == Times(c, 7, e[3]) && SumOf(c, v, e, 5) == c.add(e[0], Times(c, 7, e[3]))
  {
    hide Valid, Times, Weight, Pow2;
    assert Coprime(v, 3) by {
      forall d | DividesAll(d, v, 3) ensures d == 1 {
        DivisorAtMost(v[0], d);
      }
    }
    CoprimeSurvivor(v, g, 3);
    SumSingle(c, v, e, 0, 3);
    TimesOne(c, x);
    TimesOne(c, e[0]);
    TimesNothing(c, x);
    TimesNothing(c, e[4]);
    var t := Times(c, 7, e[3]);
    AddZero(c, t);
    assert SumFrom(c, v, e, 3, 3) == c.zero;
    assert SumFrom(c, v, e, 3, 4) == t;
    assert SumFrom(c, v, e, 3, 5) == t;
    SumSplits(c, v, e, 3, 5);
  }

  /** A first heap of 2^224 and zeros leaves a scalar that the final step cannot scan. */
  method ScanLeavesArray<E(!new)>(b: BatchHeap, ghost c: Curve<E>, ghost e: seq<E>) returns (r: FinalResult)
    requires Valid(c) && b.Valid() && |e| == 5 && AllPoints(c, b.points[..], e, 5)
    requires b.scalars[0] == [0, 0, 0, 0, 1] && forall i :: 1 <= i < 5 ==> b.scalars[i] == [0, 0, 0, 0, 0]
    modifies b, b.heap, b.scalars, b.points
    ensures r.OutOfBounds?
  {
    hide CurveGroup.Valid, FullOf, Times, SumOf, SumFrom, Weight, AllPoints, HeapStart, Extends, Survives, Leading;
    hide Unscannable, FinalMultiple;
    ghost var v := Keys(b.scalars[..]);
    TopLoad(b.scalars[..]);
    FirstOfFive(v);
    ghost var g, x, k;
    r, g, x, k := MultiScalarMult(b, 5, c, e);
    TopSurvivor(c, v, e, g, x);
  }

  lemma TopLoad(s: seq<Limbs>)
    requires 5 <= |s| && s[0] == [0, 0, 0, 0, 1] && forall i :: 1 <= i < 5 ==> s[i] == [0, 0, 0, 0, 0]
    ensures Loaded(s, 5, 4) && Keys(s)[0] == Weight(4) && forall i :: 1 <= i < 5 ==> Keys(s)[i] == 0
  {
    LowAll(s[0]);
    LowAll(s[1]);
    LowBound(s[0], 5);
    LowBound(s[1], 5);
    LowZero(s[0], 4);
    LowZero(s[1], 5);
    assert Low(s[0], 5) == Weight(4) + Low(s[0], 4);
    hide Low, Weight, Radix56;
    forall i | 0 <= i < 5 ensures Carried(s[i]) && Key(s[i]) < Weight(5) {
    }
  }

  lemma TopSurvivor<E>(c: Curve<E>, v: seq<int>, e: seq<E>, g: int, x: E)
    requires |v| >= 5 && v[0] == Weight(4) && v[1] == 0 && v[2] == 0 && Survives(c, v, e, 3, g, x)
    ensures Unscannable(g)
  {
    hide SumOf, Times, Quotients;
    WeightsUsed();
    hide Weight;
    var w := Weight(4);
    MultipleOf(w, w, 1);
    MultipleOf(0, w, 0);
    assert DividesAll(w, v, 3);
    if g == 0 {
      MultipleOf(0, w + 1, 0);
      assert DividesAll(w + 1, v, 3);
      DivisorAtMost(w, w + 1);
    } else if g == 1 {
      ModUnique(1, w, 0, 1);
    }
  }
}
