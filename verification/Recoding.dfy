/** The scalar recodings of modm-donna-64bit.h, in place on the digit array. */
module Recoding {
  import opened Words
  import opened Digits

  // ---- signed radix 16 -----------------------------------------------------

  lemma Radix16()
    ensures Pow(16, 14) == TWO56 && Pow(16, 8) == TWO32
  {
    assert Pow(16, 2) == 0x100;
    assert Pow(16, 4) == 0x1_0000;
    hide Pow;
    PowAdd(16, 4, 4);
    PowAdd(16, 8, 4);
    PowAdd(16, 12, 2);
  }

  /** One turn of the signing loop moves value between two digits and the carry. */
  lemma SignStep(before: seq<int>, i: nat, carry: int, lo: int, hi: int, next: int)
    requires i + 1 < |before| && before[i] + carry == lo + 16 * (hi - before[i + 1] + next)
    ensures Eval(before[i := lo][i + 1 := hi], 16) + next * Pow(16, i + 1) == Eval(before, 16) + carry * Pow(16, i)
  {
    hide Eval;
    EvalUpdate(before, i, lo, 16);
    EvalUpdate(before[i := lo], i + 1, hi, 16);
    PowStep(16, i);
    hide Pow;
    var w, d := Pow(16, i), hi - before[i + 1];
    assert (lo - before[i]) * w + d * (16 * w) + next * (16 * w) == (lo - before[i] + 16 * (d + next)) * w;
  }

  /** The signing loop of contract256_window4_modm. */
  method MakeSigned(r: array<int>)
    requires r.Length == 64 && forall k :: 0 <= k < 64 ==> 0 <= r[k] <= 15
    modifies r
    ensures Eval(r[..], 16) == old(Eval(r[..], 16))
    ensures forall k :: 0 <= k < 63 ==> -8 <= r[k] <= 7
    ensures 0 <= r[63] <= 16
  {
    hide Pow, Eval;
    var carry := 0;
    ghost var v := Eval(r[..], 16);
    for i := 0 to 63
      invariant Eval(r[..], 16) + carry * Pow(16, i) == v
      invariant forall k :: 0 <= k < i ==> -8 <= r[k] <= 7
      invariant forall k :: i < k < 64 ==> 0 <= r[k] <= 15
      invariant 0 <= carry <= 1 && 0 <= r[i] <= 16 && (r[i] == 16 ==> carry == 0)
    {
      ghost var before, c := r[..], carry;
      r[i] := r[i] + carry;
      r[i + 1] := r[i + 1] + r[i] / 16;
      r[i] := r[i] % 16;
      carry := r[i] / 8;
      r[i] := r[i] - carry * 16;
      assert r[..] == before[i := r[i]][i + 1 := r[i + 1]];
      SignStep(before, i, c, r[i], r[i + 1], carry);
    }
    ghost var before := r[..];
    r[63] := r[63] + carry;
    assert r[..] == before[63 := r[63]];
    EvalUpdate(before, 63, r[63], 16);
  }

  /** contract256_window4_modm: 64 signed digits, all in [-8, 7] but the last. */
  method ContractWindow4(r: array<int>, s: Limbs)
    requires r.Length == 64 && Carried(s) && s[4] < TWO32
    modifies r
    ensures Eval(r[..], 16) == Value(s)
    ensures forall k :: 0 <= k < 63 ==> -8 <= r[k] <= 7
    ensures 0 <= r[63] <= 16 && (s[4] < 0x8000_0000 ==> r[63] <= 8)
  {
    hide Pow, Eval;
    Radix16();
    Expand(r, s, 16, 14, 8);
    MakeSigned(r);
    if s[4] < 0x8000_0000 {
      TopWeight(s);
      LastDigit(r[..], Value(s));
    }
  }

  lemma PowStep(b: int, i: nat)
    ensures Pow(b, i + 1) == b * Pow(b, i)
  {
  }

  /** 63 digits of at least -8 pull the number down by less than one unit of the last digit. */
  lemma {:induction false} EvalAbove(s: seq<int>)
    requires forall k :: 0 <= k < |s| ==> -8 <= s[k]
    ensures 15 * Eval(s, 16) >= -8 * (Pow(16, |s|) - 1)
  {
    if s != [] {
      var n := |s| - 1;
      EvalAbove(s[..n]);
      PowPositive(16, n);
      assert Pow(16, |s|) == 16 * Pow(16, n);
      assert Eval(s, 16) == Eval(s[..n], 16) + s[n] * Pow(16, n);
      hide Eval, Pow;
      MulBound(s[n] + 8, Pow(16, n), s[n] + 8, Pow(16, n));
      assert (s[n] + 8) * Pow(16, n) == s[n] * Pow(16, n) + 8 * Pow(16, n);
    }
  }

  lemma TopWeight(s: Limbs)
    requires Carried(s) && s[4] < 0x8000_0000
    ensures Value(s) < 8 * Pow(16, 63)
  {
    Radix16();
    assert Pow(16, 7) == 0x1000_0000;
    hide Pow;
    PowWeight(16, 14, 4);
    PowAdd(16, 56, 7);
  }

  lemma LastDigit(r: seq<int>, v: int)
    requires |r| == 64 && (forall k :: 0 <= k < 63 ==> -8 <= r[k]) && Eval(r, 16) == v && v < 8 * Pow(16, 63)
    ensures r[63] <= 8
  {
    var w := Pow(16, 63);
    EvalAbove(r[..63]);
    assert v == Eval(r[..63], 16) + r[63] * w;
    hide Pow, Eval;
    PowPositive(16, 63);
    NineUnits(r[63], w);
  }

  lemma NineUnits(d: int, w: int)
    requires w >= 1
    ensures d >= 9 ==> d * w >= 9 * w
  {
  }

  // ---- the width-w form of a number ----------------------------------------

  /** The digit of width w that a number ends in: 0 if it is even, and otherwise its remainder modulo
      2^w of least absolute value. */
  ghost function LastWindow(x: int, w: nat): int
    requires w >= 1
  {
    var d := x % Pow2(w);
    if x % 2 == 0 then 0 else if d < Pow2(w - 1) then d else d - Pow2(w)
  }

  /** What is left of v once n digits of width w have been split off. */
  ghost function Left(v: int, w: nat, n: nat): int
    requires w >= 1
  {
    if n == 0 then v else var x := Left(v, w, n - 1); (x - LastWindow(x, w)) / 2
  }

  /** The number that 256 digits can hold of v. */
  ghost function Recoded(v: int, w: nat): int
    requires w >= 1
  {
    v - Left(v, w, 256) * Pow(2, 256)
  }

  lemma LastWindowIs(x: int, d: int, w: nat, q: int)
    requires w >= 2 && x == d + Pow2(w) * q && d % 2 == 1 && -Pow2(w - 1) < d < Pow2(w - 1)
    ensures LastWindow(x, w) == d
  {
    assert Pow2(w) == 2 * Pow2(w - 1);
    var m, h := Pow2(w), Pow2(w - 1);
    hide Pow2;
    assert m * q == q * m && m * q == 2 * (h * q);
    if d >= 0 {
      ModUnique(x, m, q, d);
    } else {
      assert (q - 1) * m == q * m - m;
      ModUnique(x, m, q - 1, d + m);
    }
  }

  /** Up to 2^255 nothing is left after 256 digits. */
  lemma {:induction false} LeftBound(v: int, w: nat, n: nat)
    requires 0 <= v <= Pow2(255) && 2 <= w && n <= 255
    ensures 0 <= Left(v, w, n) <= Pow2(255 - n)
    ensures n == 255 ==> Left(v, w, 256) == 0
  {
    hide Left, LastWindow, Pow2;
    if n == 0 {
      LeftStep(v, w, 0);
    } else {
      LeftBound(v, w, n - 1);
      LeftStep(v, w, n - 1);
      HalfBound(Left(v, w, n - 1), w, 256 - n);
    }
    LeftStep(v, w, n);
    HornerEnd([]);
    if n == 255 {
      OneBelow(w);
      SmallWindow(Left(v, w, 255), w);
    }
  }

  lemma OneBelow(w: nat)
    requires 2 <= w
    ensures 1 < Pow2(w - 1)
  {
    assert Pow2(w - 1) == 2 * Pow2(w - 2);
  }

  lemma HalfBound(x: int, w: nat, m: nat)
    requires 2 <= w && 1 <= m && 0 <= x <= Pow2(m)
    ensures 0 <= (x - LastWindow(x, w)) / 2 <= Pow2(m - 1)
  {
    assert Pow2(m) == 2 * Pow2(m - 1) && Pow2(w) == 2 * Pow2(w - 1);
    hide Pow2;
    if x % 2 == 1 {
      if m <= w - 1 {
        Pow2Monotonic(m, w - 1);
        SmallWindow(x, w);
      } else {
        Pow2Add(w, m - w);
        RoundedBound(x, Pow2(w), Pow2(m - w));
      }
    }
  }

  /** A number below 2^(w - 1) is its own last digit. */
  lemma SmallWindow(x: int, w: nat)
    requires 2 <= w && 0 <= x < Pow2(w - 1)
    ensures x - LastWindow(x, w) == if x % 2 == 0 then x else 0
  {
    assert Pow2(w) == 2 * Pow2(w - 1) && Pow2(w - 1) == 2 * Pow2(w - 2);
    hide Pow2;
    ModUnique(x, Pow2(w), 0, x);
  }

  /** Rounding to the nearest multiple of m does not pass a multiple of m. */
  lemma RoundedBound(x: int, m: int, k: int)
    requires 1 <= m && 0 <= x <= m * k
    ensures 0 <= x - x % m && (x % m != 0 ==> x - x % m + m <= m * k)
  {
    var q := x / m;
    assert x == m * q + x % m;
    if x % m != 0 {
      MultipleOutside(q + 1 - k, m);
      assert (q + 1 - k) * m == m * q + m - m * k;
    }
    MultipleOutside(q, m);
    assert q * m == m * q;
  }

  /** The largest 256-bit number loses its carry, at every width. */
  lemma {:induction false} AllOnes(w: nat, n: nat)
    requires 2 <= w <= 256 && 1 <= n <= 256
    ensures Left(Pow2(256) - 1, w, n) == Pow2(256 - n)
  {
    hide Pow2, Left, LastWindow;
    LeftStep(Pow2(256) - 1, w, n - 1);
    if n == 1 {
      OnesEnd(w, 256);
    } else {
      AllOnes(w, n - 1);
      EvenEnd(w, 257 - n);
    }
  }

  lemma LeftStep(v: int, w: nat, n: nat)
    requires w >= 1
    ensures Left(v, w, 0) == v && Left(v, w, n + 1) == (Left(v, w, n) - LastWindow(Left(v, w, n), w)) / 2
  {
  }

  lemma OnesEnd(w: nat, m: nat)
    requires 2 <= w <= m
    ensures (Pow2(m) - 1 - LastWindow(Pow2(m) - 1, w)) / 2 == Pow2(m - 1)
  {
    assert Pow2(m) == 2 * Pow2(m - 1) && Pow2(w - 1) == 2 * Pow2(w - 2);
    hide Pow2, LastWindow;
    Pow2Add(w, m - w);
    LastWindowIs(Pow2(m) - 1, -1, w, Pow2(m - w));
  }

  lemma EvenEnd(w: nat, m: nat)
    requires 1 <= w && 1 <= m
    ensures (Pow2(m) - LastWindow(Pow2(m), w)) / 2 == Pow2(m - 1)
  {
    assert Pow2(m) == 2 * Pow2(m - 1);
  }

  // ---- sliding window ------------------------------------------------------

  /** From position `lo` on the string is still binary. */
  ghost predicate Bits(r: seq<int>, lo: int) {
    |r| == 256 && forall k :: lo <= k < 256 && 0 <= k ==> r[k] == 0 || r[k] == 1
  }

  /** A digit of a width-w non-adjacent form: zero, or odd, below 2^(w-1) in absolute value and
      followed by w - 1 zeros. */
  ghost predicate NafDigit(r: seq<int>, i: int, w: int)
    requires 0 <= i < |r| && w >= 1
  {
    r[i] == 0 || (r[i] % 2 == 1 && -Pow2(w - 1) < r[i] < Pow2(w - 1) && forall k :: i < k < i + w && k < |r| ==> r[k] == 0)
  }

  ghost predicate Naf(r: seq<int>, n: int, w: int)
    requires n <= |r| && w >= 1
  {
    forall i :: 0 <= i < n ==> NafDigit(r, i, w)
  }

  /** The carry that a ripple past the last digit loses. */
  ghost function Carry(lost: bool): int {
    if lost then Pow(2, 256) else 0
  }

  /** The carry ripple: adds 2^q to the binary string. It stops at the first zero, or runs past the
      last digit. */
  method Ripple(r: array<int>, q: nat) returns (ghost t: nat)
    requires r.Length == 256 && q < 256 && r[q] == 1 && Bits(r[..], q)
    modifies r
    ensures q < t <= 256 && (t < 256 ==> old(r[t]) == 0 && r[t] == 1)
    ensures forall k :: q <= k < t ==> old(r[k]) == 1 && r[k] == 0
    ensures forall k :: 0 <= k < 256 && !(q <= k <= t) ==> r[k] == old(r[k])
    ensures Eval(r[..], 2) + Carry(t == 256) == old(Eval(r[..], 2)) + Pow(2, q)
  {
    hide Eval, Pow;
    t := 256;
    ghost var v := Eval(r[..], 2);
    var k := q;
    while k < 256
      invariant q <= k <= 256 && t == 256
      invariant forall i :: q <= i < k ==> old(r[i]) == 1 && r[i] == 0
      invariant forall i :: 0 <= i < 256 && !(q <= i < k) ==> r[i] == old(r[i])
      invariant Eval(r[..], 2) + Pow(2, k) == v + Pow(2, q)
    {
      ghost var before := r[..];
      assert before[k] == 0 || before[k] == 1;
      PowStep(2, k);
      if r[k] == 0 {
        r[k] := 1;
        assert r[..] == before[k := 1];
        EvalUpdate(before, k, 1, 2);
        t := k;
        break;
      }
      r[k] := 0;
      assert r[..] == before[k := 0];
      EvalUpdate(before, k, 0, 2);
      k := k + 1;
    }
  }

  /** Moving the bit at j + b into the digit at j, added or (with a carry to come) subtracted. */
  lemma AbsorbBit(s: seq<int>, j: nat, b: nat, sign: int)
    requires 1 <= b && j + b < |s| && s[j + b] == 1 && (sign == 1 || sign == -1)
    ensures sign == 1 ==> Eval(s[j := s[j] + Pow2(b)][j + b := 0], 2) == Eval(s, 2)
    ensures sign == -1 ==> Eval(s[j := s[j] - Pow2(b)], 2) == Eval(s, 2) - Pow(2, j + b)
  {
    hide Eval, Pow, Pow2;
    PowAdd(2, b, j);
    TwoPow(b);
    var d := s[j] + sign * Pow2(b);
    EvalUpdate(s, j, d, 2);
    EvalUpdate(s[j := d], j + b, 0, 2);
  }

  lemma {:induction false} TwoPow(b: nat)
    ensures Pow(2, b) == Pow2(b)
  {
    if b != 0 {
      TwoPow(b - 1);
    }
  }

  /** The state of the inner loop at position j before bit j + b is looked at: while b < w the
      digit is the positive number the bits absorbed so far spell; from b = w on it is final. A carry
      is only lost by a full window, and leaves nothing above it. */
  ghost predicate Window(r: seq<int>, j: int, b: nat, w: int, lost: bool)
    requires 0 <= j < |r| && w >= 1
  {
    && Bits(r, j + 1) && r[j] % 2 == 1
    && (b < w ==> 1 <= r[j] < Pow2(b) && !lost)
    && (b >= w ==> -Pow2(w - 1) < r[j] < Pow2(w - 1))
    && (forall k :: j < k < j + b && k < j + w && k < |r| ==> r[k] == 0)
    && (lost ==> j + w <= 256 && forall k :: j < k < 256 ==> r[k] == 0)
  }

  lemma WindowBit(r: seq<int>, j: nat, b: nat, w: int, lost: bool)
    requires 1 <= b && 2 <= w <= 7 && j + b < |r| && Window(r, j, b, w, lost)
    ensures r[j + b] == 0 || (r[j + b] == 1 && !lost)
    ensures Bits(r, j + 1) && -Pow2(w - 1) < r[j] < Pow2(w - 1) && (b < w ==> 1 <= r[j] < Pow2(b))
  {
    hide Pow2;
    if b < w { Pow2Monotonic(b, w - 1); }
  }

  lemma WindowSkip(r: seq<int>, j: nat, b: nat, w: int, lost: bool)
    requires 1 <= b <= 6 && 2 <= w <= 7 && j + b < |r| && Window(r, j, b, w, lost) && r[j + b] == 0
    ensures Window(r, j, b + 1, w, lost)
  {
    hide Pow2;
    WindowFacts(b, w);
  }

  lemma WindowAdd(r: seq<int>, j: nat, b: nat, w: int)
    requires 1 <= b <= 6 && 2 <= w <= 7 && j + b < |r| && Window(r, j, b, w, false) && r[j + b] == 1
    requires r[j] + Pow2(b) < Pow2(w - 1)
    ensures Window(r[j := r[j] + Pow2(b)][j + b := 0], j, b + 1, w, false) && b < w
  {
    hide Pow2;
    WindowFacts(b, w);
  }

  lemma WindowCarry(r: seq<int>, r': seq<int>, j: nat, b: nat, w: int, t: nat)
    requires 1 <= b <= 6 && 2 <= w <= 7 && j + b < |r| && Window(r, j, b, w, false) && r[j + b] == 1
    requires Pow2(w - 1) <= r[j] + Pow2(b) && -Pow2(w - 1) < r[j] - Pow2(b)
    requires |r'| == |r| && j + b < t <= 256 && r'[j] == r[j] - Pow2(b) && (t < 256 ==> r'[t] == 1)
    requires forall k :: j + b <= k < t ==> r'[k] == 0
    requires forall k :: j < k < |r| && !(j + b <= k <= t) ==> r'[k] == r[k]
    ensures Window(r', j, b + 1, w, t == 256) && b == w - 1
  {
    hide Pow2;
    WindowFacts(b, w);
  }

  lemma Absorbed(s: seq<int>, j: nat, b: nat, w: int, lost: bool)
    requires 1 <= b <= 6 && 2 <= w <= 7 && j + b < |s| && Window(s, j, b, w, lost)
    requires s[j] + s[j + b] * Pow2(b) < Pow2(w - 1)
    ensures var t := s[j := s[j] + s[j + b] * Pow2(b)][j + b := 0]; Window(t, j, b + 1, w, lost) && Eval(t, 2) == Eval(s, 2)
  {
    hide Eval, Pow, Pow2, Window;
    WindowBit(s, j, b, w, lost);
    if s[j + b] == 1 {
      AbsorbBit(s, j, b, 1);
      WindowAdd(s, j, b, w);
    } else {
      assert s[j := s[j] + 0][j + b := 0] == s;
      WindowSkip(s, j, b, w, lost);
    }
  }

  /** One turn of the inner loop of contract256_slidingwindow_modm. */
  method Absorb(r: array<int>, j: nat, b: nat, w: int, m: int, ghost lost0: bool) returns (stop: bool, ghost lost: bool)
    requires r.Length == 256 && 2 <= w <= 7 && m == Pow2(w - 1) - 1
    requires 1 <= b <= 6 && j + b < 256 && Window(r[..], j, b, w, lost0)
    modifies r
    ensures Eval(r[..], 2) + Carry(lost) == old(Eval(r[..], 2)) + Carry(lost0)
    ensures forall k :: 0 <= k < j ==> r[k] == old(r[k])
    ensures Window(r[..], j, if stop then b else b + 1, w, lost) && (stop ==> b >= w)
  {
    hide Eval, Pow, Pow2, Window, Carry;
    ghost var before := r[..];
    stop, lost := false, lost0;
    var bit := r[j + b];
    WindowBit(before, j, b, w, lost0);
    WindowFacts(b, w);
    var shifted := bit * Pow2(b);
    if r[j] + shifted <= m {
      r[j] := r[j] + shifted;
      r[j + b] := 0;
      assert r[..] == before[j := before[j] + shifted][j + b := 0];
      Absorbed(before, j, b, w, lost0);
    } else if r[j] - shifted >= -m {
      AbsorbBit(before, j, b, -1);
      r[j] := r[j] - shifted;
      assert r[..] == before[j := before[j] - shifted];
      ghost var t := Ripple(r, j + b);
      lost := t == 256;
      NoCarry();
      WindowCarry(before, r[..], j, b, w, t);
    } else if bit != 0 {
      stop := true;
    }
  }

  lemma NoCarry()
    ensures Carry(false) == 0
  {
  }

  /** The inner loop of contract256_slidingwindow_modm at a nonzero position j. */
  method WindowAt(r: array<int>, j: nat, w: int) returns (ghost lost: bool)
    requires r.Length == 256 && j < 256 && 2 <= w <= 7
    requires r[j] == 1 && Bits(r[..], j)
    modifies r
    ensures Eval(r[..], 2) + Carry(lost) == old(Eval(r[..], 2))
    ensures forall k :: 0 <= k < j ==> r[k] == old(r[k])
    ensures Bits(r[..], j + 1) && (lost ==> j + w <= 256 && forall k :: j < k < 256 ==> r[k] == 0)
    ensures r[j] != 0 && NafDigit(r[..], j, w)
  {
    hide Eval, Pow, Pow2, Carry;
    var m := Pow2(w - 1) - 1;
    var b := 1;
    lost := false;
    NoCarry();
    WindowFacts(1, w);
    while b < 256 - j && b <= 6
      invariant 1 <= b <= 7 && b <= 256 - j
      invariant Window(r[..], j, b, w, lost)
      invariant forall k :: 0 <= k < j ==> r[k] == old(r[k])
      invariant Eval(r[..], 2) + Carry(lost) == old(Eval(r[..], 2))
    {
      var stop;
      stop, lost := Absorb(r, j, b, w, m, lost);
      if stop { break; }
      b := b + 1;
    }
    if b < w {
      Pow2Monotonic(b, w - 1);
    }
  }

  lemma WindowFacts(b: nat, w: int)
    requires 1 <= b <= 6 && 2 <= w <= 7
    ensures Pow2(1) == 2 && Pow2(b + 1) == 2 * Pow2(b) && Pow2(b) % 2 == 0
    ensures b < w - 1 ==> Pow2(b + 1) <= Pow2(w - 1)
    ensures b >= w ==> 2 * Pow2(w - 1) <= Pow2(b)
  {
    assert Pow2(0) == 1;
    if b < w - 1 {
      Pow2Monotonic(b + 1, w - 1);
    }
    if b >= w {
      Pow2Monotonic(w, b);
    }
  }

  lemma Radix2()
    ensures Pow(2, 56) == TWO56 && Pow(2, 32) == TWO32
  {
    assert Pow(2, 8) == 0x100;
    hide Pow;
    PowAdd(2, 8, 8);
    PowAdd(2, 16, 16);
    PowAdd(2, 32, 8);
    PowAdd(2, 40, 16);
  }

  /** Once a carry is lost, nothing follows, and the last w - 1 digits are zero. */
  ghost predicate Empty(r: seq<int>, j: int, w: int) {
    |r| == 256 && forall k :: 0 <= k < 256 && (j <= k || 256 - w < k) ==> r[k] == 0
  }

  /** contract256_slidingwindow_modm: the width-w non-adjacent form of any 256-bit scalar, digit by
      digit. It spells the scalar but for a carry out of the last digit. */
  method ContractSlidingWindow(r: array<int>, s: Limbs, windowsize: int)
    requires r.Length == 256 && Carried(s) && s[4] < TWO32 && 2 <= windowsize <= 7
    modifies r
    ensures Naf(r[..], 256, windowsize)
    ensures forall j :: 0 <= j < 256 ==> r[j] == LastWindow(Left(Value(s), windowsize, j), windowsize)
    ensures Eval(r[..], 2) == Recoded(Value(s), windowsize)
    ensures Eval(r[..], 2) == Value(s) <==> Left(Value(s), windowsize, 256) == 0
  {
    hide Eval, Pow, Pow2, Carry, LastWindow, Left;
    Radix2();
    Expand(r, s, 2, 56, 32);
    ghost var lost := false;
    NoCarry();
    for j := 0 to 256
      invariant Eval(r[..], 2) + Carry(lost) == Value(s)
      invariant Bits(r[..], j) && (lost ==> Empty(r[..], j, windowsize))
      invariant Naf(r[..], j, windowsize)
    {
      ghost var before := r[..];
      if r[j] != 0 {
        lost := WindowAt(r, j, windowsize);
        NafKept(before, r[..], j, windowsize);
      }
    }
    DigitByDigit(r[..], Value(s), windowsize, lost);
  }

  /** Positions the window at j changes lie beyond the reach of every earlier digit. */
  lemma NafKept(before: seq<int>, after: seq<int>, j: nat, w: int)
    requires |before| == |after| == 256 && j < 256 && w >= 1
    requires Naf(before, j, w) && before[j] != 0 && NafDigit(after, j, w)
    requires forall k :: 0 <= k < j ==> after[k] == before[k]
    ensures Naf(after, j + 1, w)
  {
    forall i | 0 <= i < j
      ensures NafDigit(after, i, w)
    {
      assert NafDigit(before, i, w);
    }
  }

  // ---- the digits are those of the number ----------------------------------

  /** A non-adjacent form that spells v but for a lost carry has the digits of v. */
  lemma DigitByDigit(r: seq<int>, v: int, w: int, lost: bool)
    requires |r| == 256 && 2 <= w <= 7 && Naf(r, 256, w) && Eval(r, 2) + Carry(lost) == v && (lost ==> Empty(r, 256, w))
    ensures forall j :: 0 <= j < 256 ==> r[j] == LastWindow(Left(v, w, j), w)
    ensures Left(v, w, 256) == if lost then 1 else 0
    ensures Eval(r, 2) == Recoded(v, w)
    ensures Eval(r, 2) == v <==> Left(v, w, 256) == 0
  {
    hide Eval, Pow, Pow2, Left, LastWindow, Horner, Naf, Empty;
    forall j | 0 <= j < 256 ensures r[j] == LastWindow(Left(v, w, j), w) {
      LeftIs(r, v, w, lost, j);
      WindowOf(r, w, lost, j);
    }
    LeftIs(r, v, w, lost, 256);
    HornerEnd(r);
    PowPositive(2, 256);
  }

  lemma HornerEnd(r: seq<int>)
    ensures Horner(r, |r|) == 0 && Pow2(0) == 1
  {
  }

  /** What the digits from j on spell, with the lost carry in units of 2^j. */
  ghost function Rest(r: seq<int>, lost: bool, j: nat): int
    requires j <= |r| == 256
  {
    Horner(r, j) + if lost then Pow2(256 - j) else 0
  }

  lemma {:induction false} LeftIs(r: seq<int>, v: int, w: int, lost: bool, j: nat)
    requires |r| == 256 && 2 <= w <= 7 && Naf(r, 256, w) && Eval(r, 2) + Carry(lost) == v && (lost ==> Empty(r, 256, w))
    requires j <= 256
    ensures Left(v, w, j) == Rest(r, lost, j)
  {
    hide Eval, Left, LastWindow, Naf, Empty, Rest, Carry;
    LeftStep(v, w, if j == 0 then 0 else j - 1);
    if j == 0 {
      RestWhole(r, lost);
    } else {
      LeftIs(r, v, w, lost, j - 1);
      WindowOf(r, w, lost, j - 1);
      RestStep(r, lost, j - 1);
    }
  }

  lemma RestWhole(r: seq<int>, lost: bool)
    requires |r| == 256
    ensures Rest(r, lost, 0) == Eval(r, 2) + Carry(lost)
  {
    hide Horner, Pow, Pow2, Eval;
    HornerEval(r, 0);
    TwoPow(0);
    TwoPow(256);
    HornerEnd([]);
    EvalEmpty(2);
    assert r[..0] == [];
  }

  lemma RestStep(r: seq<int>, lost: bool, j: nat)
    requires |r| == 256 && j < 256
    ensures Rest(r, lost, j) == r[j] + 2 * Rest(r, lost, j + 1)
  {
    var m := 255 - j;
    assert Pow2(m + 1) == 2 * Pow2(m);
    hide Pow2;
  }

  lemma WindowOf(r: seq<int>, w: int, lost: bool, j: nat)
    requires |r| == 256 && 2 <= w <= 7 && Naf(r, 256, w) && (lost ==> Empty(r, 256, w)) && j < 256
    ensures LastWindow(Rest(r, lost, j), w) == r[j]
  {
    hide Pow2, Rest, Empty;
    assert NafDigit(r, j, w);
    RestStep(r, lost, j);
    if r[j] != 0 {
      var q := Spread(r, j, w, lost);
      LastWindowIs(Rest(r, lost, j), r[j], w, q);
    }
  }

  /** Above a nonzero digit there is a multiple of 2^w. */
  lemma Spread(r: seq<int>, j: nat, w: int, lost: bool) returns (q: int)
    requires |r| == 256 && 2 <= w <= 7 && j < 256 && r[j] != 0 && (lost ==> Empty(r, 256, w))
    requires forall k :: j < k < j + w && k < 256 ==> r[k] == 0
    ensures Rest(r, lost, j) == r[j] + Pow2(w) * q
  {
    hide Pow2, Horner, Rest;
    RestStep(r, lost, j);
    if j + w <= 256 {
      q := Rest(r, lost, j + w);
      RestZeros(r, lost, j + 1, w - 1);
      TwoTimes(w - 1, q);
    } else {
      q := 0;
      assert !lost;
      RestZeros(r, lost, j + 1, 255 - j);
      RestEnd(r);
    }
  }

  lemma RestEnd(r: seq<int>)
    requires |r| == 256
    ensures Rest(r, false, 256) == 0
  {
  }

  lemma TwoTimes(n: nat, h: int)
    ensures 2 * (Pow2(n) * h) == Pow2(n + 1) * h
  {
    var p := Pow2(n);
    assert Pow2(n + 1) == 2 * p;
    hide Pow2;
    assert 2 * (p * h) == (2 * p) * h;
  }

  lemma {:induction false} RestZeros(r: seq<int>, lost: bool, k: nat, n: nat)
    requires k + n <= |r| == 256 && forall i :: k <= i < k + n ==> r[i] == 0
    ensures Rest(r, lost, k) == Pow2(n) * Rest(r, lost, k + n)
    decreases n
  {
    hide Rest;
    if n != 0 {
      RestStep(r, lost, k);
      RestZeros(r, lost, k + 1, n - 1);
      TwoTimes(n - 1, Rest(r, lost, k + n));
    }
  }
}
