/** Arithmetic modulo the group order (modm-donna-64bit.h): Barrett reduction with truncated
    products, multiplication, addition and expansion of byte strings. */
module Modm {
  import opened Words
  import opened Bytes
  import opened Digits

  /** The order of the base point, 2^252 + 27742317777372353535851937790883648493. */
  const L: int := 0x1000_0000_0000_0000_0000_0000_0000_0000_14de_f9de_a2f7_9cd6_5812_631a_5cf5_d3ed
  /** floor(2^512 / L) */
  const MU: int := 0xf_ffff_ffff_ffff_ffff_ffff_ffff_ffff_ffeb_2106_215d_0863_29a7_ed9c_e5a3_0a2c_131b
  const TWO228: int := 0x10_0000_0000_0000_0000_0000_0000_0000_0000_0000_0000_0000_0000_0000_0000
  const TWO264: int := 0x100_0000_0000_0000_0000_0000_0000_0000_0000_0000_0000_0000_0000_0000_0000_0000_0000
  const TWO512: int := 0x1_0000_0000_0000_0000_0000_0000_0000_0000_0000_0000_0000_0000_0000_0000_0000_0000_0000_0000_0000_0000_0000_0000_0000_0000_0000_0000_0000_0000_0000_0000_0000_0000

  /** modm_m and modm_mu */
  const MODM_M: Limbs := [0x12631a5cf5d3ed, 0xf9dea2f79cd658, 0x000000000014de, 0x00000000000000, 0x00000010000000]
  const MODM_MU: Limbs := [0x9ce5a30a2c131b, 0x215d086329a7ed, 0xffffffffeb2106, 0xffffffffffffff, 0x00000fffffffff]

  lemma Constants()
    ensures Carried(MODM_M) && Value(MODM_M) == L && Carried(MODM_MU) && Value(MODM_MU) == MU && MODM_MU[4] < TWO40
    ensures MU * L <= TWO512 < (MU + 1) * L
  {
  }

  // ---- subtraction ---------------------------------------------------------

  /** One limb of a subtraction with borrow in and out. */
  method SubLimb(x: int, y: int, pb: int) returns (t: int, b: int)
    requires 0 <= x < TWO56 && 0 <= y < TWO56 && 0 <= pb <= 1
    ensures t == x - y - pb + TWO56 * b && 0 <= t < TWO56 && 0 <= b <= 1
  {
    var s := W64(pb + y);
    b := W64(x - s) / TWO63;
    t := W64(W64(x - s) + W64(b * TWO56));
  }

  /** The top limb, where the borrow is worth `unit`. */
  method SubTop(x: int, y: int, pb: int, unit: int) returns (t: int, b: int)
    requires 0 <= x < TWO56 && 0 <= y < TWO56 && 0 <= pb <= 1 && (unit == TWO32 || unit == TWO40)
    ensures 0 <= t < TWO64 && 0 <= b <= 1 && (b == 1 <==> x < y + pb)
    ensures b == 0 ==> t == x - y - pb
    ensures b == 1 && x - y - pb + unit >= 0 ==> t == x - y - pb + unit
  {
    var s := W64(pb + y);
    b := W64(x - s) / TWO63;
    t := W64(W64(x - s) + W64(b * unit));
  }

  /** reduce256_modm: subtracts the order once if it fits, and otherwise leaves the limbs alone. */
  method Reduce(r: Limbs) returns (out: Limbs)
    requires Carried(r)
    ensures Carried(out) && Value(out) == if Value(r) < L then Value(r) else Value(r) - L
    ensures Value(r) < L ==> out == r
  {
    Constants();
    var t0, b := SubLimb(r[0], MODM_M[0], 0);
    var t1; t1, b := SubLimb(r[1], MODM_M[1], b);
    var t2; t2, b := SubLimb(r[2], MODM_M[2], b);
    var t3; t3, b := SubLimb(r[3], MODM_M[3], b);
    ghost var top := r[4] - MODM_M[4] - b;
    SignOfTop(t0, t1, t2, t3, top);
    assert Value(r) - L == Radix56(t0, t1, t2, t3, top);
    var t4; t4, b := SubTop(r[4], MODM_M[4], b, TWO32);
    out := Select(r, [t0, t1, t2, t3, t4], b);
  }

  lemma SignOfTop(t0: int, t1: int, t2: int, t3: int, top: int)
    requires 0 <= t0 < TWO56 && 0 <= t1 < TWO56 && 0 <= t2 < TWO56 && 0 <= t3 < TWO56
    ensures Radix56(t0, t1, t2, t3, top) < 0 <==> top < 0
  {
  }

  /** The masked copy that ends reduce256_modm: keeps r when the subtraction borrowed. */
  method Select(r: Limbs, t: Limbs, b: int) returns (out: Limbs)
    requires Carried(r) && |t| == 5 && (forall i :: 0 <= i < 5 ==> 0 <= t[i] < TWO64) && 0 <= b <= 1
    ensures out == if b == 1 then r else t
  {
    hide Xor, And;
    var mask := W64(b - 1);
    MaskSelect(r[0], t[0], b); MaskSelect(r[1], t[1], b); MaskSelect(r[2], t[2], b); MaskSelect(r[3], t[3], b);
    MaskSelect(r[4], t[4], b);
    out := [Xor(r[0], And(mask, Xor(r[0], t[0]))), Xor(r[1], And(mask, Xor(r[1], t[1]))), Xor(r[2], And(mask, Xor(r[2], t[2]))),
            Xor(r[3], And(mask, Xor(r[3], t[3]))), Xor(r[4], And(mask, Xor(r[4], t[4])))];
  }

  // ---- products ------------------------------------------------------------

  /** Five products of 56-bit limbs. */
  const COLUMN: int := 0x5_0000_0000_0000_0000_0000_0000_0000

  /** Column k of the schoolbook product. */
  function Column(a: Limbs, b: Limbs, k: int): int
    requires |a| == 5 && |b| == 5
  {
    if k == 0 then a[0] * b[0]
    else if k == 1 then a[0] * b[1] + a[1] * b[0]
    else if k == 2 then a[0] * b[2] + a[2] * b[0] + a[1] * b[1]
    else if k == 3 then a[0] * b[3] + a[3] * b[0] + a[1] * b[2] + a[2] * b[1]
    else if k == 4 then a[0] * b[4] + a[4] * b[0] + a[3] * b[1] + a[1] * b[3] + a[2] * b[2]
    else if k == 5 then a[4] * b[1] + a[1] * b[4] + a[2] * b[3] + a[3] * b[2]
    else if k == 6 then a[4] * b[2] + a[2] * b[4] + a[3] * b[3]
    else if k == 7 then a[4] * b[3] + a[3] * b[4]
    else a[4] * b[4]
  }

  const TWO280: int := 0x100_0000_0000_0000_0000_0000_0000_0000_0000_0000_0000_0000_0000_0000_0000_0000_0000_0000

  lemma ProductColumns(a: Limbs, b: Limbs)
    requires |a| == 5 && |b| == 5
    ensures Value(a) * Value(b) == Radix56(Column(a, b, 0), Column(a, b, 1), Column(a, b, 2), Column(a, b, 3), Column(a, b, 4))
      + TWO280 * Radix56(Column(a, b, 5), Column(a, b, 6), Column(a, b, 7), Column(a, b, 8), 0)
  {
    ProductIdentity(a[0], a[1], a[2], a[3], a[4], b[0], b[1], b[2], b[3], b[4]);
  }

  lemma ProductIdentity(a0: int, a1: int, a2: int, a3: int, a4: int, b0: int, b1: int, b2: int, b3: int, b4: int)
    ensures Radix56(a0, a1, a2, a3, a4) * Radix56(b0, b1, b2, b3, b4)
         == Radix56(a0 * b0, a0 * b1 + a1 * b0, a0 * b2 + a2 * b0 + a1 * b1, a0 * b3 + a3 * b0 + a1 * b2 + a2 * b1,
                    a0 * b4 + a4 * b0 + a3 * b1 + a1 * b3 + a2 * b2)
          + TWO280 * Radix56(a4 * b1 + a1 * b4 + a2 * b3 + a3 * b2, a4 * b2 + a2 * b4 + a3 * b3, a4 * b3 + a3 * b4, a4 * b4, 0)
  {
  }

  lemma LimbProduct(a: Limbs, b: Limbs, i: int, j: int)
    requires Carried(a) && Carried(b) && 0 <= i < 5 && 0 <= j < 5
    ensures 0 <= a[i] * b[j] <= 0x1_0000_0000_0000_0000_0000_0000_0000
  {
    assert 0 <= a[i] * b[j] <= a[i] * TWO56 <= TWO56 * TWO56;
  }

  lemma ColumnBound(a: Limbs, b: Limbs, k: int)
    requires Carried(a) && Carried(b) && 0 <= k <= 8
    ensures 0 <= Column(a, b, k) <= COLUMN
  {
    hide Carried;
    if k == 0 { LimbProduct(a, b, 0, 0); }
    else if k == 1 { LimbProduct(a, b, 0, 1); LimbProduct(a, b, 1, 0); }
    else if k == 2 { LimbProduct(a, b, 0, 2); LimbProduct(a, b, 2, 0); LimbProduct(a, b, 1, 1); }
    else if k == 3 { LimbProduct(a, b, 0, 3); LimbProduct(a, b, 3, 0); LimbProduct(a, b, 1, 2); LimbProduct(a, b, 2, 1); }
    else if k == 4 {
      LimbProduct(a, b, 0, 4); LimbProduct(a, b, 4, 0); LimbProduct(a, b, 3, 1); LimbProduct(a, b, 1, 3); LimbProduct(a, b, 2, 2);
    } else if k == 5 { LimbProduct(a, b, 4, 1); LimbProduct(a, b, 1, 4); LimbProduct(a, b, 2, 3); LimbProduct(a, b, 3, 2); }
    else if k == 6 { LimbProduct(a, b, 4, 2); LimbProduct(a, b, 2, 4); LimbProduct(a, b, 3, 3); }
    else if k == 7 { LimbProduct(a, b, 4, 3); LimbProduct(a, b, 3, 4); }
    else { LimbProduct(a, b, 4, 4); }
  }

  /** Column k plus the carry f, in 128 bits. */
  method ColumnPlus(a: Limbs, b: Limbs, k: int, f: int) returns (c: int)
    requires Carried(a) && Carried(b) && 0 <= k <= 8 && 0 <= f < TWO64
    ensures c == Column(a, b, k) + f && 0 <= c <= COLUMN + f
  {
    hide Column;
    ColumnBound(a, b, k);
    c := W128(Column(a, b, k) + f);
  }

  /** The pieces of an accumulator: `cut` is 2^40 or 2^24, `rest` is 2^56 / cut. */
  method SplitColumn(c: int, cut: int, rest: int) returns (lo: int, mid: int, f: int)
    requires 0 <= c < TWO64 * TWO56 && ((cut == TWO40 && rest == TWO16) || (cut == TWO24 && rest == TWO32))
    ensures c == lo + cut * mid + TWO56 * f && lo == W64(c) % cut
    ensures 0 <= lo < cut && 0 <= mid < rest && 0 <= f < TWO64
  {
    lo := W64(c) % cut;
    mid := W64(c) / cut % rest;
    f := W64(c / TWO56);
    ghost var w, g := c % TWO64, c / TWO64;
    DivBelow(c, TWO64, TWO56);
    ghost var u := w / cut;
    DivBelow(w, cut, 256 * rest);
    DivBelow(u, rest, 256);
    Pieces(c, w % cut, u % rest, u / rest, g, cut, rest);
  }

  /** The pieces read off an accumulator that is written out in digits. */
  lemma Pieces(c: int, a: int, b: int, h: int, g: int, cut: int, rest: int)
    requires (cut == TWO40 && rest == TWO16) || (cut == TWO24 && rest == TWO32)
    requires 0 <= a < cut && 0 <= b < rest && 0 <= h < 256 && 0 <= g < TWO56
    requires c == a + cut * b + TWO56 * h + TWO64 * g
    ensures W64(c) == a + cut * b + TWO56 * h && W64(c) % cut == a && W64(c) / cut % rest == b && W64(c / TWO56) == h + 256 * g
  {
    var w := a + cut * b + TWO56 * h;
    ModUnique(c, TWO64, g, w);
    ModUnique(w, cut, b + rest * h, a);
    ModUnique(b + rest * h, rest, h, b);
    ModUnique(c, TWO56, h + 256 * g, a + cut * b);
  }

  /** Fills a quotient limb that holds the k bits `mid` with the low bits of the next accumulator. */
  method Assemble(mid: int, c: int, k: nat, K: int, N: int) returns (q: int)
    requires ((k == 16 && K == TWO16 && N == TWO40) || (k == 32 && K == TWO32 && N == TWO24))
    requires 0 <= mid < K && 0 <= c
    ensures q == mid + K * (W64(c) % N) && 0 <= q < TWO56
  {
    hide Pow2, Or;
    TwoPowers();
    ShiftLow(W64(c), K, N, TWO8);
    OrDisjoint(mid, W64(c) % N, k);
    q := Or(mid, W64(W64(c) * K) % TWO56);
  }

  /** One column of a shifted product: the column plus the carry f is cut in three; its low piece
      completes the limb that the middle piece `prev` of the column before began. */
  method NextColumn(a: Limbs, b: Limbs, k: int, f: int, prev: int, cut: int, rest: int, shift: nat)
    returns (limb: int, mid: int, next: int, ghost lo: int)
    requires Carried(a) && Carried(b) && 0 <= k <= 8 && 0 <= f < TWO64
    requires (cut == TWO40 && rest == TWO16 && shift == 16) || (cut == TWO24 && rest == TWO32 && shift == 32)
    requires 0 <= prev < rest
    ensures Column(a, b, k) + f == lo + cut * mid + TWO56 * next && 0 <= lo < cut && 0 <= mid < rest && 0 <= next < TWO64
    ensures limb == prev + rest * lo && 0 <= limb < TWO56
  {
    hide Column;
    var c := ColumnPlus(a, b, k, f);
    lo, mid, next := SplitColumn(c, cut, rest);
    limb := Assemble(prev, c, shift, rest, cut);
  }

  // ---- Barrett reduction (algorithm 14.42 of the Handbook of Applied Cryptography) ----

  /** The weights of the columns add up: what the estimate drops is the three lowest columns and
      the low 96 bits of the rest. */
  lemma EstimateValue(c0: int, c1: int, c2: int, c3: int, c4: int, c5: int, c6: int, c7: int, c8: int,
                      l3: int, m3: int, f3: int, l4: int, m4: int, f4: int, l5: int, m5: int, f5: int,
                      l6: int, m6: int, f6: int, l7: int, m7: int, f7: int, l8: int, m8: int, f8: int)
    requires c3 == l3 + TWO40 * m3 + TWO56 * f3 && c4 + f3 == l4 + TWO40 * m4 + TWO56 * f4
    requires c5 + f4 == l5 + TWO40 * m5 + TWO56 * f5 && c6 + f5 == l6 + TWO40 * m6 + TWO56 * f6
    requires c7 + f6 == l7 + TWO40 * m7 + TWO56 * f7 && c8 + f7 == l8 + TWO40 * m8 + TWO56 * f8
    ensures Radix56(c0, c1, c2, c3, c4) + TWO280 * Radix56(c5, c6, c7, c8, 0)
         == Radix56(c0, c1, c2, l3 + TWO40 * m3, l4)
          + TWO264 * Radix56(m4 + TWO16 * l5, m5 + TWO16 * l6, m6 + TWO16 * l7, m7 + TWO16 * l8, m8 + TWO16 * f8)
  {
  }

  lemma Dropped(q1: Limbs, d3: int, l4: int)
    requires Carried(q1) && 0 <= d3 < TWO56 && 0 <= l4 < TWO40
    ensures 0 <= Radix56(Column(MODM_MU, q1, 0), Column(MODM_MU, q1, 1), Column(MODM_MU, q1, 2), d3, l4) < TWO264 + TWO228
  {
    hide Column;
    Constants();
    ColumnBound(MODM_MU, q1, 0);
    ColumnBound(MODM_MU, q1, 1);
    ColumnBound(MODM_MU, q1, 2);
  }

  lemma TopColumn(q1: Limbs)
    requires Carried(q1) && q1[4] < TWO40
    ensures 0 <= Column(MODM_MU, q1, 8) <= 0x10_0000_0000 * TWO40
  {
    assert MODM_MU[4] == 0xf_ffff_ffff;
  }

  lemma TwoPowers16()
    ensures Pow2(16) == TWO16 && Pow2(32) == TWO32
  {
    hide Pow2;
    TwoPowers();
  }

  /** The quotient estimate: mu * q1 without its three low columns, shifted right by 264 bits. */
  method Estimate(q1: Limbs) returns (q3: Limbs)
    requires Carried(q1) && q1[4] < TWO40
    ensures Carried(q3) && q3[4] < TWO40
    ensures 0 <= MU * Value(q1) - TWO264 * Value(q3) < TWO264 + TWO228
  {
    hide Column, Radix56, Pow2;
    Constants();
    var c := ColumnPlus(MODM_MU, q1, 3, 0);
    var l3, m3, f3 := SplitColumn(c, TWO40, TWO16);
    var _, m4, f4, l4 := NextColumn(MODM_MU, q1, 4, f3, 0, TWO40, TWO16, 16);
    var q30, m5, f5, l5 := NextColumn(MODM_MU, q1, 5, f4, m4, TWO40, TWO16, 16);
    var q31, m6, f6, l6 := NextColumn(MODM_MU, q1, 6, f5, m5, TWO40, TWO16, 16);
    var q32, m7, f7, l7 := NextColumn(MODM_MU, q1, 7, f6, m6, TWO40, TWO16, 16);
    var q33, m8, f8, l8 := NextColumn(MODM_MU, q1, 8, f7, m7, TWO40, TWO16, 16);
    TopColumn(q1);
    TwoPowers16();
    var q34 := Join(m8, f8, 16, TWO16, TWO48);
    q3 := [q30, q31, q32, q33, q34];
    assert MU * Value(q1) == Radix56(Column(MODM_MU, q1, 0), Column(MODM_MU, q1, 1), Column(MODM_MU, q1, 2), l3 + TWO40 * m3, l4)
        + TWO264 * Value(q3) by {
      ProductColumns(MODM_MU, q1);
      EstimateValue(Column(MODM_MU, q1, 0), Column(MODM_MU, q1, 1), Column(MODM_MU, q1, 2), Column(MODM_MU, q1, 3),
                    Column(MODM_MU, q1, 4), Column(MODM_MU, q1, 5), Column(MODM_MU, q1, 6), Column(MODM_MU, q1, 7),
                    Column(MODM_MU, q1, 8), l3, m3, f3, l4, m4, f4, l5, m5, f5, l6, m6, f6, l7, m7, f7, l8, m8, f8);
    }
    Dropped(q1, l3 + TWO40 * m3, l4);
  }

  /** The truncated estimate is short of the true quotient by at most one: x - q3 L lies in
      [0, 2 L) for every x below 2^512. */
  lemma EstimateError(x: int, q1: int, q3: int)
    requires 0 <= x < TWO512 && q1 == x / TWO248 && 0 <= MU * q1 - TWO264 * q3 < TWO264 + TWO228
    ensures 0 <= x - L * q3 < 2 * L
  {
    var xl := x % TWO248;
    assert x == TWO248 * q1 + xl;
  }

  /** One limb of a product kept to 56 bits. */
  method LowColumn(a: Limbs, b: Limbs, k: int, f: int) returns (limb: int, next: int)
    requires Carried(a) && Carried(b) && 0 <= k <= 8 && 0 <= f < TWO64
    ensures Column(a, b, k) + f == limb + TWO56 * next && 0 <= limb < TWO56 && 0 <= next < TWO64
  {
    hide Column;
    var c := ColumnPlus(a, b, k, f);
    limb := W64(c) % TWO56;
    next := W64(c / TWO56);
    LowPiece(c, c % TWO56, c / TWO56);
  }

  lemma LowPiece(c: int, lo: int, hi: int)
    requires c == lo + TWO56 * hi && 0 <= lo < TWO56 && 0 <= hi < TWO64
    ensures W64(c) % TWO56 == lo && c / TWO56 == hi
  {
    ModUnique(c, TWO64, hi / 256, lo + TWO56 * (hi % 256));
    ModUnique(lo + TWO56 * (hi % 256), TWO56, hi % 256, lo);
    ModUnique(c, TWO56, hi, lo);
  }

  /** r2: the low 264 bits of q3 times the order. */
  method TimesOrder(q3: Limbs) returns (r2: Limbs, ghost high: int)
    requires Carried(q3)
    ensures Carried(r2) && r2[4] < TWO40 && L * Value(q3) == Value(r2) + TWO264 * high
  {
    hide Column;
    Constants();
    var r20, f0 := LowColumn(MODM_M, q3, 0, 0);
    var r21, f1 := LowColumn(MODM_M, q3, 1, f0);
    var r22, f2 := LowColumn(MODM_M, q3, 2, f1);
    var r23, f3 := LowColumn(MODM_M, q3, 3, f2);
    var c := ColumnPlus(MODM_M, q3, 4, f3);
    var r24, m4, f4 := SplitColumn(c, TWO40, TWO16);
    r2 := [r20, r21, r22, r23, r24];
    ProductColumns(MODM_M, q3);
    high := m4 + TWO16 * f4 + TWO16 * Radix56(Column(MODM_M, q3, 5), Column(MODM_M, q3, 6), Column(MODM_M, q3, 7), Column(MODM_M, q3, 8), 0);
  }

  /** r1 - r2 modulo 2^264. */
  method Sub264(r1: Limbs, r2: Limbs) returns (r: Limbs, ghost b: int)
    requires Carried(r1) && r1[4] < TWO40 && Carried(r2) && r2[4] < TWO40
    ensures Carried(r) && r[4] < TWO40 && Value(r) == Value(r1) - Value(r2) + TWO264 * b
  {
    var t0, p := SubLimb(r1[0], r2[0], 0);
    var t1; t1, p := SubLimb(r1[1], r2[1], p);
    var t2; t2, p := SubLimb(r1[2], r2[2], p);
    var t3; t3, p := SubLimb(r1[3], r2[3], p);
    var t4; t4, p := SubTop(r1[4], r2[4], p, TWO40);
    r := [t0, t1, t2, t3, t4];
    b := p;
  }

  /** barrett_reduce256_modm up to its first conditional subtraction, which already leaves x mod L. */
  method BarrettOnce(q1: Limbs, r1: Limbs, ghost x: int) returns (r: Limbs)
    requires 0 <= x < TWO512 && Carried(q1) && q1[4] < TWO40 && Carried(r1) && r1[4] < TWO40
    requires Value(q1) == x / TWO248 && Value(r1) == x % TWO264
    ensures Carried(r) && Value(r) == x % L
  {
    hide Radix56;
    ghost var high, b;
    var q3 := Estimate(q1);
    EstimateError(x, Value(q1), Value(q3));
    var r2; r2, high := TimesOrder(q3);
    r, b := Sub264(r1, r2);
    assert Value(r) == x - L * Value(q3) by {
      LimbRange(r);
      SameResidue(Value(r), x - L * Value(q3), high + b - x / TWO264);
    }
    r := Reduce(r);
    RemainderIs(x, Value(q3), Value(r));
  }

  /** barrett_reduce256_modm: x mod L for every x below 2^512, given as q1 = x >> 248 and
      r1 = x mod 2^264. The second conditional subtraction never fires. */
  method BarrettReduce(q1: Limbs, r1: Limbs, ghost x: int) returns (r: Limbs)
    requires 0 <= x < TWO512 && Carried(q1) && q1[4] < TWO40 && Carried(r1) && r1[4] < TWO40
    requires Value(q1) == x / TWO248 && Value(r1) == x % TWO264
    ensures Carried(r) && Value(r) == x % L
  {
    hide Radix56;
    var once := BarrettOnce(q1, r1, x);
    r := Reduce(once);
    assert r == once;
  }

  lemma LimbRange(r: Limbs)
    requires Carried(r) && r[4] < TWO40
    ensures 0 <= Value(r) < TWO264
  {
  }

  lemma SameResidue(a: int, b: int, k: int)
    requires 0 <= a < TWO264 && 0 <= b < TWO264 && a == b + TWO264 * k
    ensures a == b
  {
  }

  lemma RemainderIs(x: int, q: int, r: int)
    requires 0 <= r < L && (x - L * q == r || x - L * q == r + L)
    ensures r == x % L
  {
    var k := if x - L * q == r then q else q + 1;
    assert x == k * L + r;
    ModUnique(x, L, k, r);
  }

  // ---- multiplication and addition -----------------------------------------

  lemma MulValue(c4: int, c5: int, c6: int, c7: int, c8: int, l4: int, m4: int, f4: int, l5: int, m5: int, f5: int,
                 l6: int, m6: int, f6: int, l7: int, m7: int, f7: int, l8: int, m8: int, f8: int, r0: int, r1: int, r2: int, r3: int,
                 low: int)
    requires c4 == l4 + TWO24 * m4 + TWO56 * f4 && c5 + f4 == l5 + TWO24 * m5 + TWO56 * f5
    requires c6 + f5 == l6 + TWO24 * m6 + TWO56 * f6 && c7 + f6 == l7 + TWO24 * m7 + TWO56 * f7
    requires c8 + f7 == l8 + TWO24 * m8 + TWO56 * f8 && low == Radix56(r0, r1, r2, r3, c4)
    ensures low + TWO280 * Radix56(c5, c6, c7, c8, 0) == Radix56(r0, r1, r2, r3, l4)
      + TWO248 * Radix56(m4 + TWO32 * l5, m5 + TWO32 * l6, m6 + TWO32 * l7, m7 + TWO32 * l8, m8 + TWO32 * f8)
  {
  }

  lemma CarryValue(c0: int, c1: int, c2: int, c3: int, c4: int, r0: int, r1: int, r2: int, r3: int, f0: int, f1: int,
                   f2: int, f3: int)
    requires c0 == r0 + TWO56 * f0 && c1 + f0 == r1 + TWO56 * f1 && c2 + f1 == r2 + TWO56 * f2 && c3 + f2 == r3 + TWO56 * f3
    ensures Radix56(c0, c1, c2, c3, c4) == Radix56(r0, r1, r2, r3, c4 + f3)
  {
  }

  /** The pieces of a product below 2^512 that Barrett reduction takes. */
  lemma Halves(v: int, r: Limbs, l4: int, m4: int, q: Limbs)
    requires 0 <= v < TWO512 && |r| == 5 && |q| == 5
    requires forall i :: 0 <= i < 4 ==> 0 <= r[i] < TWO56 && 0 <= q[i] < TWO56
    requires 0 <= q[4] && 0 <= l4 < TWO24 && 0 <= m4 < TWO32 && r[4] == l4 + TWO24 * (m4 % TWO16) && q[0] % TWO16 == m4 % TWO16
    requires v == Radix56(r[0], r[1], r[2], r[3], l4) + TWO248 * Value(q)
    ensures Value(q) == v / TWO248 && Value(r) == v % TWO264 && q[4] < TWO40 && Carried(q) && Carried(r) && r[4] < TWO40
  {
    var low := Radix56(r[0], r[1], r[2], r[3], l4);
    LowHalf(r[0], r[1], r[2], r[3], l4, r[4], m4 % TWO16);
    var h := q[0] / TWO16 + TWO40 * Radix56(q[1], q[2], q[3], q[4], 0);
    assert Value(q) == m4 % TWO16 + TWO16 * h;
    HighLimb(q, v);
    hide Radix56;
    ModUnique(v, TWO248, Value(q), low);
    ModUnique(v, TWO264, h, Value(r));
  }

  lemma LowHalf(r0: int, r1: int, r2: int, r3: int, l4: int, r4: int, m: int)
    requires 0 <= r0 < TWO56 && 0 <= r1 < TWO56 && 0 <= r2 < TWO56 && 0 <= r3 < TWO56
    requires 0 <= l4 < TWO24 && 0 <= m < TWO16 && r4 == l4 + TWO24 * m
    ensures 0 <= Radix56(r0, r1, r2, r3, l4) < TWO248
    ensures Radix56(r0, r1, r2, r3, r4) == Radix56(r0, r1, r2, r3, l4) + TWO248 * m
    ensures 0 <= Radix56(r0, r1, r2, r3, r4) < TWO264
  {
  }

  lemma HighLimb(q: Limbs, v: int)
    requires |q| == 5 && (forall i :: 0 <= i < 4 ==> 0 <= q[i]) && TWO248 * Value(q) <= v < TWO512
    ensures q[4] < TWO40
  {
  }

  /** The middle column feeds both halves: its low 40 bits go to r1, its bits from 24 up to q1. */
  method MiddleColumn(x: Limbs, y: Limbs, f: int) returns (r14: int, mid: int, next: int, ghost lo: int)
    requires Carried(x) && Carried(y) && 0 <= f < TWO64
    ensures Column(x, y, 4) + f == lo + TWO24 * mid + TWO56 * next && 0 <= lo < TWO24 && 0 <= mid < TWO32 && 0 <= next < TWO64
    ensures r14 == lo + TWO24 * (mid % TWO16)
  {
    hide Column;
    var c := ColumnPlus(x, y, 4, f);
    r14 := W64(c) % TWO40;
    lo, mid, next := SplitColumn(c, TWO24, TWO32);
    MiddlePiece(c, lo, mid, next);
  }

  lemma MiddlePiece(c: int, lo: int, mid: int, next: int)
    requires c == lo + TWO24 * mid + TWO56 * next && 0 <= lo < TWO24 && 0 <= mid < TWO32 && 0 <= next
    ensures W64(c) % TWO40 == lo + TWO24 * (mid % TWO16)
  {
    var n0, n1, m0, m1 := next % 256, next / 256, mid % TWO16, mid / TWO16;
    var w := lo + TWO24 * mid + TWO56 * n0;
    ModUnique(c, TWO64, n1, w);
    ModUnique(w, TWO40, m1 + TWO16 * n0, lo + TWO24 * m0);
  }

  lemma ScalarRange(x: Limbs)
    requires Carried(x) && x[4] < TWO32
    ensures 0 <= Value(x) < TWO256
  {
  }

  lemma ProductRange(x: Limbs, y: Limbs)
    requires Carried(x) && x[4] < TWO32 && Carried(y) && y[4] < TWO32
    ensures 0 <= Value(x) * Value(y) < TWO512
  {
    hide Radix56;
    ScalarRange(x);
    ScalarRange(y);
    MulBound(Value(x), Value(y), TWO256 - 1, TWO256 - 1);
  }

  /** The columns of mul256_modm: x y as q1 = x y >> 248 and r1 = x y mod 2^264. */
  method ProductHalves(x: Limbs, y: Limbs) returns (q1: Limbs, r1: Limbs)
    requires Carried(x) && x[4] < TWO32 && Carried(y) && y[4] < TWO32
    ensures Carried(q1) && q1[4] < TWO40 && Carried(r1) && r1[4] < TWO40
    ensures Value(q1) == Value(x) * Value(y) / TWO248 && Value(r1) == Value(x) * Value(y) % TWO264
  {
    hide Column, Radix56, Pow2;
    var r10, f0 := LowColumn(x, y, 0, 0);
    var r11, f1 := LowColumn(x, y, 1, f0);
    var r12, f2 := LowColumn(x, y, 2, f1);
    var r13, f3 := LowColumn(x, y, 3, f2);
    var r14, m4, f4, l4 := MiddleColumn(x, y, f3);
    var q10, m5, f5, l5 := NextColumn(x, y, 5, f4, m4, TWO24, TWO32, 32);
    var q11, m6, f6, l6 := NextColumn(x, y, 6, f5, m5, TWO24, TWO32, 32);
    var q12, m7, f7, l7 := NextColumn(x, y, 7, f6, m6, TWO24, TWO32, 32);
    var q13, m8, f8, l8 := NextColumn(x, y, 8, f7, m7, TWO24, TWO32, 32);
    TopCarry(x, y, f7, l8, m8, f8);
    TwoPowers16();
    var q14 := Join(m8, f8, 32, TWO32, TWO32);
    r1 := [r10, r11, r12, r13, r14];
    q1 := [q10, q11, q12, q13, q14];
    assert Value(x) * Value(y) == Radix56(r10, r11, r12, r13, l4) + TWO248 * Value(q1) by {
      ProductColumns(x, y);
      CarryValue(Column(x, y, 0), Column(x, y, 1), Column(x, y, 2), Column(x, y, 3), Column(x, y, 4), r10, r11, r12, r13, f0, f1, f2, f3);
      MulValue(Column(x, y, 4) + f3, Column(x, y, 5), Column(x, y, 6), Column(x, y, 7), Column(x, y, 8), l4, m4, f4, l5, m5, f5, l6, m6, f6,
               l7, m7, f7, l8, m8, f8, r10, r11, r12, r13, Radix56(r10, r11, r12, r13, Column(x, y, 4) + f3));
    }
    ProductRange(x, y);
    LowSixteen(m4, l5);
    Halves(Value(x) * Value(y), r1, l4, m4, q1);
  }

  lemma LowSixteen(m: int, l: int)
    ensures (m + TWO32 * l) % TWO16 == m % TWO16
  {
  }

  lemma TopCarry(x: Limbs, y: Limbs, f7: int, l8: int, m8: int, f8: int)
    requires Carried(x) && x[4] < TWO32 && Carried(y) && y[4] < TWO32 && 0 <= f7 < TWO64 && 0 <= l8 && 0 <= m8
    requires Column(x, y, 8) + f7 == l8 + TWO24 * m8 + TWO56 * f8
    ensures f8 < TWO32
  {
    MulBound(x[4], y[4], TWO32, TWO32);
    assert Column(x, y, 8) == x[4] * y[4];
    hide Column;
  }

  /** mul256_modm: the product modulo L of any two 256-bit scalars. */
  method Mul(x: Limbs, y: Limbs) returns (r: Limbs)
    requires Carried(x) && x[4] < TWO32 && Carried(y) && y[4] < TWO32
    ensures Carried(r) && Value(r) == Value(x) * Value(y) % L
  {
    hide Radix56;
    var q1, r1 := ProductHalves(x, y);
    ProductRange(x, y);
    r := BarrettReduce(q1, r1, Value(x) * Value(y));
  }

  /** add256_modm on reduced scalars. */
  method Add(x: Limbs, y: Limbs) returns (r: Limbs)
    requires Carried(x) && Value(x) < L && Carried(y) && Value(y) < L
    ensures Carried(r) && Value(r) == (Value(x) + Value(y)) % L
  {
    hide Column, Radix56;
    ReducedTop(x);
    ReducedTop(y);
    var r0, c0 := AddLimb(x[0], y[0], 0);
    var r1, c1 := AddLimb(x[1], y[1], c0);
    var r2, c2 := AddLimb(x[2], y[2], c1);
    var r3, c3 := AddLimb(x[3], y[3], c2);
    var r4 := W64(c3 + W64(x[4] + y[4]));
    SumOfLimbs(x, y, r0, r1, r2, r3, r4, c0, c1, c2, c3);
    r := Reduce([r0, r1, r2, r3, r4]);
    RemainderIs(Value(x) + Value(y), 0, Value(r));
  }

  /** A reduced scalar leaves the top bits of its last limb clear. */
  lemma ReducedTop(x: Limbs)
    requires Carried(x) && Value(x) < L
    ensures x[4] < 0x2000_0000 && 0 <= Value(x)
  {
    assert TWO56 * TWO56 * TWO56 * TWO56 * x[4] <= Value(x);
  }

  lemma SumOfLimbs(x: Limbs, y: Limbs, r0: int, r1: int, r2: int, r3: int, r4: int, c0: int, c1: int, c2: int, c3: int)
    requires |x| == 5 && |y| == 5 && x[0] + y[0] == r0 + TWO56 * c0 && x[1] + y[1] + c0 == r1 + TWO56 * c1
    requires x[2] + y[2] + c1 == r2 + TWO56 * c2 && x[3] + y[3] + c2 == r3 + TWO56 * c3 && x[4] + y[4] + c3 == r4
    ensures Radix56(r0, r1, r2, r3, r4) == Value(x) + Value(y)
  {
  }

  method AddLimb(x: int, y: int, c: int) returns (lo: int, next: int)
    requires 0 <= x < TWO56 && 0 <= y < TWO56 && 0 <= c <= 1
    ensures x + y + c == lo + TWO56 * next && 0 <= lo < TWO56 && 0 <= next <= 1
  {
    var s := W64(c + W64(x + y));
    lo := s % TWO56;
    next := s / TWO56;
  }
}
