/** The index heap of ed25519-donna-batchverify.h: a max-heap of indices ordered by the scalars
    they point to.

    The order argument is about the keys only, so it is made on sequences first: `h` is the heap
    array, `v` the values of the scalars, `n` the heap size. */
module Heap {
  import opened Digits
  import opened BatchScalars
  import opened Points

  function Parent(k: int): int { (k - 1) / 2 }

  /** Every heap slot below n points to a scalar. */
  ghost predicate InRange(h: seq<int>, v: seq<int>, n: nat) {
    n <= |h| && forall k :: 0 <= k < n ==> 0 <= h[k] < |v|
  }

  ghost predicate OrderAt(h: seq<int>, v: seq<int>, p: int, k: int)
    requires 0 <= p < |h| && 0 <= k < |h| && 0 <= h[p] < |v| && 0 <= h[k] < |v|
  {
    v[h[k]] <= v[h[p]]
  }

  /** No key is above its parent's. */
  ghost predicate Ordered(h: seq<int>, v: seq<int>, n: nat)
    requires InRange(h, v, n)
  {
    forall k :: 1 <= k < n ==> OrderAt(h, v, Parent(k), k)
  }

  /** Ordered, but for slot x against its parent; x's children are below x's parent. */
  ghost predicate Rising(h: seq<int>, v: seq<int>, n: nat, x: int)
    requires InRange(h, v, n)
  {
    && 0 <= x < n
    && (forall k :: 1 <= k < n && k != x ==> OrderAt(h, v, Parent(k), k))
    && (forall k :: 1 <= k < n && Parent(k) == x && x >= 1 ==> OrderAt(h, v, Parent(x), k))
  }

  /** Ordered, but for slot x against its parent and its children; x's children are below x's parent. */
  ghost predicate Sinking(h: seq<int>, v: seq<int>, n: nat, x: int)
    requires InRange(h, v, n)
  {
    && 0 <= x < n
    && (forall k :: 1 <= k < n && k != x && Parent(k) != x ==> OrderAt(h, v, Parent(k), k))
    && (forall k :: 1 <= k < n && Parent(k) == x && x >= 1 ==> OrderAt(h, v, Parent(x), k))
  }

  function Swapped(h: seq<int>, a: int, b: int): (r: seq<int>)
    requires 0 <= a < |h| && 0 <= b < |h|
    ensures |r| == |h|
  {
    h[a := h[b]][b := h[a]]
  }

  lemma SwapInRange(h: seq<int>, v: seq<int>, n: nat, a: int, b: int)
    requires InRange(h, v, n) && 0 <= a < n && 0 <= b < n
    ensures InRange(Swapped(h, a, b), v, n)
  {
  }

  lemma RiseStep(h: seq<int>, v: seq<int>, n: nat, x: int)
    requires InRange(h, v, n) && Rising(h, v, n, x) && 1 <= x && v[h[Parent(x)]] <= v[h[x]]
    ensures InRange(Swapped(h, Parent(x), x), v, n) && Rising(Swapped(h, Parent(x), x), v, n, Parent(x))
  {
    var p, h' := Parent(x), Swapped(h, Parent(x), x);
    forall k | 1 <= k < n && k != p
      ensures OrderAt(h', v, Parent(k), k)
    {
      if k == x {
      } else if Parent(k) == x {
        assert OrderAt(h, v, Parent(x), k);
      } else {
        assert OrderAt(h, v, Parent(k), k);
      }
    }
    forall k | 1 <= k < n && Parent(k) == p && p >= 1
      ensures OrderAt(h', v, Parent(p), k)
    {
      assert OrderAt(h, v, Parent(p), p);
      if k != x {
        assert OrderAt(h, v, p, k);
      }
    }
  }

  lemma Risen(h: seq<int>, v: seq<int>, n: nat, x: int)
    requires InRange(h, v, n) && Rising(h, v, n, x) && (x == 0 || v[h[x]] <= v[h[Parent(x)]])
    ensures Ordered(h, v, n)
  {
  }

  lemma SinkStep(h: seq<int>, v: seq<int>, n: nat, x: int, c: int)
    requires InRange(h, v, n) && Sinking(h, v, n, x) && 2 * x + 2 < n && (c == 2 * x + 1 || c == 2 * x + 2)
    requires v[h[2 * x + 1]] <= v[h[c]] && v[h[2 * x + 2]] <= v[h[c]]
    ensures InRange(Swapped(h, x, c), v, n) && Sinking(Swapped(h, x, c), v, n, c)
  {
    var h' := Swapped(h, x, c);
    forall k | 1 <= k < n && k != c && Parent(k) != c
      ensures OrderAt(h', v, Parent(k), k)
    {
      SinkAt(h, v, n, x, c, k);
    }
    forall k | 1 <= k < n && Parent(k) == c
      ensures OrderAt(h', v, Parent(c), k)
    {
      assert OrderAt(h, v, Parent(k), k);
    }
  }

  lemma SinkAt(h: seq<int>, v: seq<int>, n: nat, x: int, c: int, k: int)
    requires InRange(h, v, n) && Sinking(h, v, n, x) && 2 * x + 2 < n && (c == 2 * x + 1 || c == 2 * x + 2)
    requires v[h[2 * x + 1]] <= v[h[c]] && v[h[2 * x + 2]] <= v[h[c]]
    requires 1 <= k < n && k != c && Parent(k) != c
    ensures v[Swapped(h, x, c)[k]] <= v[Swapped(h, x, c)[Parent(k)]]
  {
    if Parent(k) == x {
      assert k == 2 * x + 1 || k == 2 * x + 2;
    } else if k == x {
      assert Parent(c) == x;
      assert OrderAt(h, v, Parent(x), c);
    } else {
      assert OrderAt(h, v, Parent(k), k);
    }
  }

  /** The comparison of a sift: a key that is not below its parent's moves up. */
  ghost predicate Lifts(h: seq<int>, v: seq<int>, x: int, strict: bool) {
    && 1 <= x < |h| && 0 <= h[x] < |v| && 0 <= h[Parent(x)] < |v|
    && (v[h[Parent(x)]] < v[h[x]] || (!strict && v[h[Parent(x)]] == v[h[x]]))
  }

  /** A sift from x0 that has come to x: if it moved at all, the parent's index is now at x0, and
      nothing beside or below x0 changed. */
  ghost predicate Lifted(h0: seq<int>, h: seq<int>, v: seq<int>, x0: int, x: int, strict: bool) {
    && |h| == |h0| && 0 <= x0 < |h|
    && (if x == x0 then h == h0 else 0 <= x <= Parent(x0) && Lifts(h0, v, x0, strict) && h[x0] == h0[Parent(x0)])
    && forall k :: Parent(x0) < k < |h| && k != x0 ==> h[k] == h0[k]
  }

  lemma SiftStart(h: seq<int>, v: seq<int>, m: nat, x: int, strict: bool)
    requires InRange(h, v, m) && Rising(h, v, m, x)
    ensures 0 <= x < m && Lifted(h, h, v, x, x, strict)
  {
  }

  lemma LiftedStep(h0: seq<int>, h: seq<int>, v: seq<int>, x0: int, x: int, strict: bool)
    requires Lifted(h0, h, v, x0, x, strict) && Lifts(h, v, x, strict)
    ensures Lifted(h0, Swapped(h, Parent(x), x), v, x0, Parent(x), strict)
  {
  }

  /** Where a sift from x0 ends: the index that slot x0 holds afterwards. */
  ghost predicate SiftedTo(h0: seq<int>, h: seq<int>, v: seq<int>, x0: int, strict: bool) {
    && |h| == |h0| && 0 <= x0 < |h|
    && h[x0] == (if Lifts(h0, v, x0, strict) then h0[Parent(x0)] else h0[x0])
    && forall k :: Parent(x0) < k < |h| && k != x0 ==> h[k] == h0[k]
  }

  lemma SiftEnded(h0: seq<int>, h: seq<int>, v: seq<int>, x0: int, x: int, strict: bool)
    requires Lifted(h0, h, v, x0, x, strict) && !Lifts(h, v, x, strict)
    ensures SiftedTo(h0, h, v, x0, strict)
  {
  }

  /** A slot without children that sank may rise again. */
  lemma Sunk(h: seq<int>, v: seq<int>, n: nat, x: int)
    requires InRange(h, v, n) && Sinking(h, v, n, x) && n <= 2 * x + 1
    ensures Rising(h, v, n, x)
  {
    forall k | 1 <= k < n && k != x
      ensures OrderAt(h, v, Parent(k), k)
    {
      assert Parent(k) != x;
    }
  }

  lemma {:induction false} RootIsMax(h: seq<int>, v: seq<int>, n: nat, k: nat)
    requires InRange(h, v, n) && Ordered(h, v, n) && k < n
    ensures v[h[k]] <= v[h[0]]
  {
    if k != 0 {
      assert OrderAt(h, v, Parent(k), k);
      RootIsMax(h, v, n, Parent(k));
    }
  }

  /** Every slot but the root is below one of the root's children. */
  lemma {:induction false} ChildrenAreNext(h: seq<int>, v: seq<int>, n: nat, k: nat)
    requires 3 <= n && InRange(h, v, n) && Ordered(h, v, n) && 1 <= k < n
    ensures v[h[k]] <= v[h[1]] || v[h[k]] <= v[h[2]]
  {
    if k > 2 {
      assert OrderAt(h, v, Parent(k), k);
      ChildrenAreNext(h, v, n, Parent(k));
    }
  }

  /** The heap below n is a permutation of 0..n-1, with `pos` its inverse. */
  ghost predicate Permutation(h: seq<int>, pos: seq<int>, n: nat) {
    && n <= |h| && |pos| == n
    && (forall k :: 0 <= k < n ==> 0 <= h[k] < n && pos[h[k]] == k)
    && (forall i :: 0 <= i < n ==> 0 <= pos[i] < n && h[pos[i]] == i)
  }

  ghost function SwappedPos(h: seq<int>, pos: seq<int>, a: int, b: int): seq<int>
    requires 0 <= a < |h| && 0 <= b < |h| && 0 <= h[a] < |pos| && 0 <= h[b] < |pos|
  {
    pos[h[a] := b][h[b] := a]
  }

  lemma SwapPermutation(h: seq<int>, pos: seq<int>, n: nat, a: int, b: int)
    requires Permutation(h, pos, n) && 0 <= a < n && 0 <= b < n
    ensures Permutation(Swapped(h, a, b), SwappedPos(h, pos, a, b), n)
  {
  }

  // ---- the heap object -----------------------------------------------------

  /** heap_batch_size */
  const CAPACITY: int := 129

  function Key(x: Limbs): int { if |x| == 5 then Value(x) else 0 }

  ghost function Keys(s: seq<Limbs>): (v: seq<int>)
    ensures |v| == |s| && forall i :: 0 <= i < |s| ==> v[i] == Key(s[i])
  {
    seq(|s|, i requires 0 <= i < |s| => Key(s[i]))
  }

  /** The first `count` scalars are carried and below the weight of limb `limbsize + 1`. */
  ghost predicate Loaded(s: seq<Limbs>, count: nat, limbsize: nat) {
    count <= |s| && forall i :: 0 <= i < count ==> Carried(s[i]) && Key(s[i]) < Weight(limbsize + 1)
  }

  /** Comparing or subtracting only the limbs up to limbsize is comparing or subtracting. */
  lemma TruncationIsSound(x: Limbs, limbsize: nat)
    requires Carried(x) && limbsize <= 4 && Value(x) < Weight(limbsize + 1)
    ensures Low(x, limbsize + 1) == Value(x) && 0 <= Value(x)
  {
    FitsIffBelow(x, limbsize);
    LowSuffix(x, limbsize + 1);
    LowBound(x, limbsize + 1);
  }

  /** How many slots heap_updated_root orders: all of an odd size, all but the last of an even one. */
  ghost function Repaired(n: nat): (m: nat)
    requires 1 <= n
    ensures m % 2 == 1 && n - 1 <= m <= n
  {
    if n % 2 == 1 then n else n - 1
  }

  /** The child with the larger key, the left one of two equal ones. */
  ghost function LargerChild(h: seq<int>, v: seq<int>, n: nat, x: nat): (c: nat)
    requires InRange(h, v, n) && 2 * x + 2 < n
    ensures c == 2 * x + 1 || c == 2 * x + 2
  {
    if v[h[2 * x + 1]] < v[h[2 * x + 2]] then 2 * x + 2 else 2 * x + 1
  }

  /** The right child is taken only for a larger key. */
  lemma LargerChildIs(h: seq<int>, v: seq<int>, n: nat, x: nat)
    requires InRange(h, v, n) && 2 * x + 2 < n
    ensures LargerChild(h, v, n, x) == 2 * x + 2 <==> v[h[2 * x + 1]] < v[h[2 * x + 2]]
  {
  }

  /** Where the path along the larger children ends: at the first slot without a right child. */
  ghost function PathEnd(h: seq<int>, v: seq<int>, n: nat, x: nat): (y: nat)
    requires InRange(h, v, n) && x < n
    ensures x <= y < n <= 2 * y + 2
    decreases n - x
  {
    if 2 * x + 2 < n then PathEnd(h, v, n, LargerChild(h, v, n, x)) else x
  }

  /** The path reads only slots below the one it starts from. */
  lemma {:induction false} PathLocal(h: seq<int>, h': seq<int>, v: seq<int>, n: nat, x: nat)
    requires InRange(h, v, n) && InRange(h', v, n) && x < n
    requires forall k :: x < k < n ==> h[k] == h'[k]
    ensures PathEnd(h, v, n, x) == PathEnd(h', v, n, x)
    decreases n - x
  {
    if 2 * x + 2 < n {
      PathLocal(h, h', v, n, LargerChild(h, v, n, x));
    }
  }

  /** The root has sunk to slot x: what was there is one slot up, and the slots beside and below x
      are as they were. */
  ghost predicate Moved(h0: seq<int>, h: seq<int>, x: int) {
    && |h| == |h0| && 1 <= x < |h| && h[x] == h0[0] && h[Parent(x)] == h0[x]
    && forall k :: Parent(x) < k < |h| && k != x ==> h[k] == h0[k]
  }

  lemma MovedStep(h0: seq<int>, h: seq<int>, x: nat, c: nat)
    requires if x == 0 then h == h0 else Moved(h0, h, x)
    requires c < |h| && (c == 2 * x + 1 || c == 2 * x + 2)
    ensures Moved(h0, Swapped(h, x, c), c)
  {
  }

  /** The root has sunk from h0 along the path to slot x. */
  ghost predicate OnPath(h0: seq<int>, h: seq<int>, v: seq<int>, n: nat, x: nat)
    requires 3 <= n && InRange(h0, v, n)
  {
    && InRange(h, v, n) && x < Repaired(n) && InRange(h, v, Repaired(n)) && Sinking(h, v, Repaired(n), x)
    && (if x == 0 then h == h0 else Moved(h0, h, x)) && PathEnd(h, v, n, x) == PathEnd(h0, v, n, 0)
  }

  lemma PathStart(h: seq<int>, v: seq<int>, n: nat)
    requires 3 <= n && InRange(h, v, n) && InRange(h, v, Repaired(n)) && Sinking(h, v, Repaired(n), 0)
    ensures OnPath(h, h, v, n, 0)
  {
  }

  lemma OnPathSinks(h0: seq<int>, h: seq<int>, v: seq<int>, n: nat, x: nat)
    requires 3 <= n && InRange(h0, v, n) && OnPath(h0, h, v, n, x)
    ensures InRange(h, v, Repaired(n)) && Sinking(h, v, Repaired(n), x)
  {
  }

  lemma PathStep(h0: seq<int>, h: seq<int>, h': seq<int>, v: seq<int>, n: nat, x: nat, c: nat)
    requires 3 <= n && InRange(h0, v, n) && OnPath(h0, h, v, n, x) && 2 * x + 2 < n && c == LargerChild(h, v, n, x)
    requires h' == Swapped(h, x, c) && InRange(h', v, n) && InRange(h', v, Repaired(n)) && Sinking(h', v, Repaired(n), c)
    ensures OnPath(h0, h', v, n, c)
  {
    hide Sinking, Moved;
    PathLocal(h, h', v, n, c);
    MovedStep(h0, h, x, c);
  }

  lemma PathDone(h0: seq<int>, h: seq<int>, v: seq<int>, n: nat, x: nat)
    requires 3 <= n && InRange(h0, v, n) && 1 <= x && OnPath(h0, h, v, n, x) && n <= 2 * x + 2
    ensures InRange(h, v, Repaired(n)) && Rising(h, v, Repaired(n), x) && x == PathEnd(h0, v, n, 0) && Moved(h0, h, x)
  {
    hide Sinking, Rising, Moved;
    Sunk(h, v, Repaired(n), x);
  }

  lemma SinkingPrefix(h: seq<int>, v: seq<int>, n: nat)
    requires 3 <= n && InRange(h, v, n) && Sinking(h, v, n, 0)
    ensures InRange(h, v, Repaired(n)) && Sinking(h, v, Repaired(n), 0)
  {
  }

  /** A heap that sank from h0 to h1 and rose to h2 is in order everywhere exactly if h0 was
      repairable. */
  lemma RepairDecided(h0: seq<int>, h1: seq<int>, h2: seq<int>, v: seq<int>, n: nat, x: nat)
    requires 3 <= n && |h0| == |h1| == |h2| && InRange(h0, v, n) && InRange(h1, v, n) && InRange(h2, v, n)
    requires Sinking(h0, v, n, 0) && x == PathEnd(h0, v, n, 0) && Moved(h0, h1, x) && x < Repaired(n)
    requires Ordered(h2, v, Repaired(n)) && SiftedTo(h1, h2, v, x, false)
    ensures Ordered(h2, v, n) <==> Repairable(h0, v, n)
  {
    hide PathEnd, Sinking, Ordered;
    if n % 2 == 0 {
      var q, last := n / 2 - 1, n - 1;
      assert Parent(last) == q && h2[last] == h0[last];
      LastOrdered(h0, v, n);
      LastSlot(h2, v, n);
      if x != q {
        assert Parent(x) < q && h2[q] == h0[q];
      }
    }
  }

  lemma LastOrdered(h: seq<int>, v: seq<int>, n: nat)
    requires 4 <= n && n % 2 == 0 && InRange(h, v, n) && Sinking(h, v, n, 0)
    ensures v[h[n - 1]] <= v[h[n / 2 - 1]]
  {
    assert OrderAt(h, v, Parent(n - 1), n - 1);
  }

  /** In an even size the last slot is the only one left to compare. */
  lemma LastSlot(h: seq<int>, v: seq<int>, n: nat)
    requires 4 <= n && n % 2 == 0 && InRange(h, v, n) && Ordered(h, v, n - 1)
    ensures Ordered(h, v, n) <==> v[h[n - 1]] <= v[h[n / 2 - 1]]
  {
    if v[h[n - 1]] <= v[h[n / 2 - 1]] {
      forall k | 1 <= k < n ensures OrderAt(h, v, Parent(k), k) {
        assert k < n - 1 || k == n - 1;
      }
    } else {
      assert !OrderAt(h, v, Parent(n - 1), n - 1);
    }
  }

  /** Which heaps heap_updated_root repairs completely: those of odd size, those whose path of larger
      children does not end at the parent of the last slot, and those whose last key is at most
      the new key of the root. */
  ghost predicate Repairable(h: seq<int>, v: seq<int>, n: nat)
    requires 3 <= n && InRange(h, v, n)
  {
    n % 2 == 1 || PathEnd(h, v, n, 0) != n / 2 - 1 || v[h[n - 1]] <= v[h[0]]
  }

  /** Slot a is k or an ancestor of k. */
  ghost predicate Above(a: nat, k: nat)
    decreases k
  {
    a == k || (k >= 1 && Above(a, Parent(k)))
  }

  /** Exactly one child of a proper ancestor is above k too. */
  lemma {:induction false} OneChildAbove(a: nat, k: nat)
    requires Above(a, k) && a < k
    ensures Above(2 * a + 1, k) != Above(2 * a + 2, k)
    decreases k
  {
    if Parent(k) == a {
      NotAbove(2 * a + 1, a);
      NotAbove(2 * a + 2, a);
    } else {
      AtMost(a, Parent(k));
      OneChildAbove(a, Parent(k));
      if k == 2 * a + 1 || k == 2 * a + 2 {
        assert false;
      }
    }
  }

  lemma {:induction false} AtMost(a: nat, k: nat)
    requires Above(a, k)
    ensures a <= k
    decreases k
  {
    if a != k {
      AtMost(a, Parent(k));
    }
  }

  lemma NotAbove(a: nat, k: nat)
    requires k < a
    ensures !Above(a, k)
  {
    if Above(a, k) {
      AtMost(a, k);
    }
  }

  lemma {:induction false} AboveParent(a: nat, k: nat)
    requires Above(a, k) && a >= 1
    ensures Above(Parent(a), k)
    decreases k
  {
    if a != k {
      AboveParent(a, Parent(k));
    } else {
      assert Above(Parent(a), Parent(k));
    }
  }

  /** Keys that lead the path to the parent of the last slot, under a root that dropped to 0. */
  ghost function LeadingKeys(n: nat): (v: seq<int>)
    ensures |v| == n
  {
    seq(n, k requires 0 <= k < n => if k == 0 then 0 else if Above(k, n - 1) then 2 else 1)
  }

  ghost function Identity(n: nat): (h: seq<int>)
    ensures |h| == n && forall k :: 0 <= k < n ==> h[k] == k
  {
    seq(n, k => k)
  }

  lemma {:induction false} PathLed(n: nat, x: nat)
    requires 4 <= n && n % 2 == 0 && x < n - 1 && Above(x, n - 1)
    ensures PathEnd(Identity(n), LeadingKeys(n), n, x) == n / 2 - 1
    decreases n - x
  {
    hide Above, LeadingKeys, Identity;
    OneChildAbove(x, n - 1);
    if 2 * x + 2 < n {
      var c := LedTo(n, x);
      PathLed(n, c);
    } else {
      NotAbove(2 * x + 2, n - 1);
      AtMost(2 * x + 1, n - 1);
    }
  }

  lemma LedTo(n: nat, x: nat) returns (c: nat)
    requires 4 <= n && n % 2 == 0 && 2 * x + 2 < n && Above(2 * x + 1, n - 1) != Above(2 * x + 2, n - 1)
    ensures x < c < n - 1 && Above(c, n - 1)
    ensures InRange(Identity(n), LeadingKeys(n), n) && c == LargerChild(Identity(n), LeadingKeys(n), n, x)
  {
    hide Above;
    c := if Above(2 * x + 1, n - 1) then 2 * x + 1 else 2 * x + 2;
  }

  /** Every even size from 4 has a heap that heap_updated_root leaves out of order. */
  lemma EvenSizesFail(n: nat)
    requires 4 <= n && n % 2 == 0
    ensures InRange(Identity(n), LeadingKeys(n), n) && Sinking(Identity(n), LeadingKeys(n), n, 0)
    ensures !Repairable(Identity(n), LeadingKeys(n), n)
  {
    var h, v := Identity(n), LeadingKeys(n);
    RootAbove(n - 1);
    PathLed(n, 0);
    forall k | 1 <= k < n && k != 0 && Parent(k) != 0 ensures OrderAt(h, v, Parent(k), k) {
      if Above(k, n - 1) {
        AboveParent(k, n - 1);
      }
    }
  }

  lemma {:induction false} RootAbove(k: nat)
    ensures Above(0, k)
  {
    if k != 0 {
      RootAbove(Parent(k));
    }
  }

  /** batch_heap: scalars, the points they multiply, and the index heap over the scalars. */
  class BatchHeap {
    const points: array<Ge>
    const scalars: array<Limbs>
    const heap: array<int>
    var size: nat
    ghost var pos: seq<int>

    constructor (ps: array<Ge>, ss: array<Limbs>)
      requires ps.Length == CAPACITY && ss.Length == CAPACITY
      ensures points == ps && scalars == ss && fresh(heap) && size == 0 && Valid()
    {
      points, scalars := ps, ss;
      heap := new int[CAPACITY];
      size := 0;
      pos := [];
    }

    ghost predicate Valid() {
      points.Length == CAPACITY && scalars.Length == CAPACITY && heap.Length == CAPACITY
    }

    /** The first n slots are a permutation of 0..n-1. */
    ghost predicate Shape(n: nat)
      reads this, heap, scalars
    {
      Valid() && n <= CAPACITY && Permutation(heap[..], pos, n) && InRange(heap[..], Keys(scalars[..]), n)
    }

    /** ... and heap-ordered by their scalars. */
    ghost predicate IsHeap()
      reads this, heap, scalars
    {
      Shape(size) && Ordered(heap[..], Keys(scalars[..]), size)
    }

    /** heap_swap */
    method Swap(a: int, b: int, ghost n: nat)
      requires Shape(n) && 0 <= a < n && 0 <= b < n
      modifies heap, this`pos
      ensures Shape(n) && heap[..] == Swapped(old(heap[..]), a, b)
    {
      ghost var h := heap[..];
      SwapPermutation(h, pos, n, a, b);
      SwapInRange(h, Keys(scalars[..]), n, a, b);
      pos := SwappedPos(h, pos, a, b);
      var temp := heap[a];
      heap[a] := heap[b];
      heap[b] := temp;
      assert heap[..] == Swapped(h, a, b);
    }

    /** Compares the scalars of two slots on the limbs up to limbsize. */
    method SlotLess(a: int, b: int, limbsize: nat, strict: bool, ghost n: nat) returns (r: bool)
      requires Shape(n) && 0 <= a < n && 0 <= b < n && limbsize <= 4 && Loaded(scalars[..], n, limbsize)
      ensures r <==> (Key(scalars[heap[a]]) < Key(scalars[heap[b]]) || (!strict && Key(scalars[heap[a]]) == Key(scalars[heap[b]])))
    {
      var x, y := scalars[heap[a]], scalars[heap[b]];
      assert x == scalars[..][heap[a]] && y == scalars[..][heap[b]];
      TruncationIsSound(x, limbsize);
      TruncationIsSound(y, limbsize);
      if strict {
        r := Lt(x, y, limbsize);
      } else {
        r := Lte(x, y, limbsize);
      }
    }

    /** Sifts a slot up to its place; `strict` is the comparison of heap_insert_next (less than),
        the other that of heap_updated_root (at most). Only the first m slots take part. */
    method SiftUp(node0: nat, strict: bool, limbsize: nat, ghost n: nat, ghost m: nat)
      requires limbsize <= 4 && Shape(n) && Loaded(scalars[..], n, limbsize) && m <= n && Rising(heap[..], Keys(scalars[..]), m, node0)
      modifies heap, this`pos
      ensures Shape(n) && Ordered(heap[..], Keys(scalars[..]), m)
      ensures SiftedTo(old(heap[..]), heap[..], Keys(scalars[..]), node0, strict)
    {
      hide Permutation, Lifted, SiftedTo, Rising;
      var node := node0;
      ghost var v, h0 := Keys(scalars[..]), heap[..];
      SiftStart(h0, v, m, node, strict);
      while node != 0
        invariant 0 <= node < m && Shape(n) && Rising(heap[..], v, m, node) && Lifted(h0, heap[..], v, node0, node, strict)
        decreases node
      {
        var parent := Parent(node);
        var up := SlotLess(parent, node, limbsize, strict, n);
        if !up {
          break;
        }
        RiseStep(heap[..], v, m, node);
        LiftedStep(h0, heap[..], v, node0, node, strict);
        Swap(parent, node, n);
        node := parent;
      }
      Risen(heap[..], v, m, node);
      SiftEnded(h0, heap[..], v, node0, node, strict);
    }

    /** heap_insert_next */
    method InsertNext()
      requires IsHeap() && size < CAPACITY && Loaded(scalars[..], size + 1, 4)
      modifies heap, this`pos, this`size
      ensures IsHeap() && size == old(size) + 1
    {
      var node := size;
      ghost var h := heap[..];
      heap[node] := node;
      pos := pos + [node];
      assert heap[..] == h[node := node];
      Appended(h, pos, Keys(scalars[..]), node);
      SiftUp(node, true, 4, node + 1, node + 1);
      size := size + 1;
    }

    /** heap_build */
    method Build(count: nat)
      requires Valid() && 1 <= count <= CAPACITY && Loaded(scalars[..], count, 4)
      modifies heap, this`pos, this`size
      ensures IsHeap() && size == count
    {
      heap[0] := 0;
      size := 0;
      pos := [];
      Extend(count);
    }

    /** heap_extend */
    method Extend(count: nat)
      requires IsHeap() && size <= count <= CAPACITY && Loaded(scalars[..], count, 4)
      modifies heap, this`pos, this`size
      ensures IsHeap() && size == count
    {
      while size < count
        invariant IsHeap() && size <= count
        decreases count - size
      {
        InsertNext();
      }
    }

    /** One turn of the first loop of heap_updated_root: swaps a slot with its larger child. */
    method SinkOnce(parent: nat, childl: nat, childr: nat, limbsize: nat, ghost m: nat) returns (node: nat)
      requires limbsize <= 4 && Shape(size) && Loaded(scalars[..], size, limbsize)
      requires childl == 2 * parent + 1 && childr == childl + 1 && childr < m <= size && Sinking(heap[..], Keys(scalars[..]), m, parent)
      modifies heap, this`pos
      ensures Shape(size) && node == old(LargerChild(heap[..], Keys(scalars[..]), size, parent))
      ensures Sinking(heap[..], Keys(scalars[..]), m, node) && heap[..] == Swapped(old(heap[..]), parent, node)
    {
      hide Sinking, Permutation;
      var right := SlotLess(childl, childr, limbsize, true, size);
      node := if right then childr else childl;
      SinkStep(heap[..], Keys(scalars[..]), m, parent, node);
      Swap(parent, node, size);
    }

    /** The first loop of heap_updated_root: the root sinks along the larger children until it has
        no right child, and what it passes moves up one slot. */
    method SinkRoot(limbsize: nat) returns (node: nat)
      requires limbsize <= 4 && Shape(size) && 3 <= size && Loaded(scalars[..], size, limbsize)
      requires Sinking(heap[..], Keys(scalars[..]), Repaired(size), 0)
      modifies heap, this`pos
      ensures Shape(size) && Rising(heap[..], Keys(scalars[..]), Repaired(size), node)
      ensures node == old(PathEnd(heap[..], Keys(scalars[..]), size, 0)) && 1 <= node
      ensures Moved(old(heap[..]), heap[..], node)
    {
      hide Rising, Permutation, OnPath, Moved, PathEnd;
      var parent, childl, childr := 0, 1, 2;
      node := 1;
      ghost var v, m, h0 := Keys(scalars[..]), Repaired(size), heap[..];
      PathStart(h0, v, size);
      while childr < size
        invariant Shape(size) && childl == 2 * parent + 1 && childr == childl + 1 && 0 <= parent < m
        invariant OnPath(h0, heap[..], v, size, parent) && (parent != 0 ==> node == parent)
        decreases size - parent
      {
        ghost var h := heap[..];
        OnPathSinks(h0, h, v, size, parent);
        node := SinkOnce(parent, childl, childr, limbsize, m);
        PathStep(h0, h, heap[..], v, size, parent, node);
        parent := node;
        childl := parent * 2 + 1;
        childr := childl + 1;
      }
      PathDone(h0, heap[..], v, size, node);
    }

    /** heap_updated_root after the scalar at the root changed. All slots but a last left child
        without a right sibling are in order again, and that one is if and only if the heap was
        repairable to begin with. */
    method UpdatedRoot(limbsize: nat)
      requires limbsize <= 4 && Shape(size) && 3 <= size && Loaded(scalars[..], size, limbsize)
      requires Sinking(heap[..], Keys(scalars[..]), size, 0)
      modifies heap, this`pos
      ensures Shape(size) && Ordered(heap[..], Keys(scalars[..]), Repaired(size))
      ensures IsHeap() <==> old(Repairable(heap[..], Keys(scalars[..]), size))
    {
      ghost var v, h0 := Keys(scalars[..]), heap[..];
      SinkingPrefix(h0, v, size);
      var node := SinkRoot(limbsize);
      ghost var h1 := heap[..];
      SiftUp(node, false, limbsize, size, Repaired(size));
      RepairDecided(h0, h1, heap[..], v, size, node);
    }

    /** heap_get_top2: the index of a largest scalar and that of a largest among the others. */
    method GetTop2(limbsize: nat) returns (max1: int, max2: int)
      requires limbsize <= 4 && IsHeap() && 3 <= size && Loaded(scalars[..], size, limbsize)
      ensures 0 <= max1 < size && 0 <= max2 < size && max1 != max2 && max1 == heap[0]
      ensures forall i :: 0 <= i < size ==> Key(scalars[i]) <= Key(scalars[max1])
      ensures forall i :: 0 <= i < size && i != max1 ==> Key(scalars[i]) <= Key(scalars[max2])
    {
      var right := SlotLess(1, 2, limbsize, true, size);
      max1 := heap[0];
      max2 := if right then heap[2] else heap[1];
      ghost var v := Keys(scalars[..]);
      forall i | 0 <= i < size
        ensures Key(scalars[i]) <= Key(scalars[max1]) && (i != max1 ==> Key(scalars[i]) <= Key(scalars[max2]))
      {
        var k := pos[i];
        RootIsMax(heap[..], v, size, k);
        if i != max1 {
          ChildrenAreNext(heap[..], v, size, k);
        }
      }
    }
  }

  /** A new slot at the end that holds its own index. */
  lemma Appended(h: seq<int>, pos: seq<int>, v: seq<int>, n: nat)
    requires n < |h| && n < |v| && |pos| == n + 1 && pos[n] == n
    requires Permutation(h, pos[..n], n) && InRange(h, v, n) && Ordered(h, v, n)
    ensures Permutation(h[n := n], pos, n + 1) && InRange(h[n := n], v, n + 1) && Rising(h[n := n], v, n + 1, n)
  {
    var g := h[n := n];
    forall k | 1 <= k < n + 1 && k != n
      ensures OrderAt(g, v, Parent(k), k)
    {
      assert OrderAt(h, v, Parent(k), k);
    }
  }
}
