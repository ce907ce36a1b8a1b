/** Field arithmetic modulo p = 2^255 - 19 on five 51-bit limbs (curve25519-donna-64bit.h).

    A field element is the value of its limb array: the C routines read every limb they use
    before the caller can observe the output, so an element is a value here and a routine
    returns its output array. */
module Field {
  import opened Words

  const P: int := 0x7fff_ffff_ffff_ffff_ffff_ffff_ffff_ffff_ffff_ffff_ffff_ffff_ffff_ffff_ffff_ffed

  /** bignum25519 */
  datatype Fe = Fe(l0: int, l1: int, l2: int, l3: int, l4: int)

  function Radix51(t0: int, t1: int, t2: int, t3: int, t4: int): int {
    t0 + TWO51 * t1 + TWO51 * TWO51 * t2 + TWO51 * TWO51 * TWO51 * t3 + TWO51 * TWO51 * TWO51 * TWO51 * t4
  }

  /** The number that limbs spell in base 2^51, least significant limb first. */
  function Weighted(l: seq<int>): int {
    if l == [] then 0 else l[0] + TWO51 * Weighted(l[1..])
  }

  function Val(a: Fe): int {
    Weighted([a.l0, a.l1, a.l2, a.l3, a.l4])
  }

  lemma ValIs(a: Fe)
    ensures Val(a) == Radix51(a.l0, a.l1, a.l2, a.l3, a.l4)
  {
    WeightedStep(a.l4, []);
    WeightedStep(a.l3, [a.l4]);
    WeightedStep(a.l2, [a.l3, a.l4]);
    WeightedStep(a.l1, [a.l2, a.l3, a.l4]);
    WeightedStep(a.l0, [a.l1, a.l2, a.l3, a.l4]);
  }

  lemma WeightedStep(d: int, l: seq<int>)
    ensures Weighted([]) == 0 && Weighted([d] + l) == d + TWO51 * Weighted(l)
  {
    assert ([d] + l)[1..] == l;
  }

  predicate Within(a: Fe, n: int) {
    0 <= a.l0 <= n && 0 <= a.l1 <= n && 0 <= a.l2 <= n && 0 <= a.l3 <= n && 0 <= a.l4 <= n
  }

  /** The class every multiplication and squaring returns to. */
  const REDUCED: int := 0x8_0000_0000_2000
  /** The largest limbs a multiplication accepts. */
  const LOOSE: int := 0x40_0000_0000_0000
  const LOOSE_SQ: int := 0x1000_0000_0000_0000_0000_0000_0000

  /** a and b are k times p apart, counted off one p at a time. */
  ghost predicate Differ(a: int, b: int, k: int)
    decreases if k < 0 then -k else k
  {
    if k == 0 then a == b else if k > 0 then Differ(a - P, b, k - 1) else Differ(a + P, b, k + 1)
  }

  /** Congruence modulo p. */
  ghost predicate Cong(a: int, b: int) {
    exists k :: Differ(a, b, k)
  }

  lemma {:induction false} DifferIff(a: int, b: int, k: int)
    ensures Differ(a, b, k) <==> a == b + k * P
    decreases if k < 0 then -k else k
  {
    if k > 0 {
      DifferIff(a - P, b, k - 1);
    } else if k < 0 {
      DifferIff(a + P, b, k + 1);
    }
  }

  lemma CongIntro(a: int, b: int, k: int)
    requires a == b + k * P
    ensures Cong(a, b)
  {
    DifferIff(a, b, k);
  }

  lemma CongElim(a: int, b: int) returns (k: int)
    requires Cong(a, b)
    ensures a == b + k * P
  {
    k :| Differ(a, b, k);
    DifferIff(a, b, k);
  }

  lemma CongRefl(a: int)
    ensures Cong(a, a)
  {
    CongIntro(a, a, 0);
  }

  lemma CongSym(a: int, b: int)
    requires Cong(a, b)
    ensures Cong(b, a)
  {
    hide Cong;
    var k := CongElim(a, b);
    CongIntro(b, a, -k);
  }

  lemma CongTrans(a: int, b: int, c: int)
    requires Cong(a, b) && Cong(b, c)
    ensures Cong(a, c)
  {
    hide Cong;
    var k := CongElim(a, b);
    var j := CongElim(b, c);
    CongIntro(a, c, k + j);
  }

  lemma CongAdd(a: int, b: int, c: int, d: int)
    requires Cong(a, b) && Cong(c, d)
    ensures Cong(a + c, b + d) && Cong(a - c, b - d)
  {
    hide Cong;
    var k := CongElim(a, b);
    var j := CongElim(c, d);
    CongIntro(a + c, b + d, k + j);
    CongIntro(a - c, b - d, k - j);
  }

  lemma CongMul(a: int, b: int, c: int, d: int)
    requires Cong(a, b) && Cong(c, d)
    ensures Cong(a * c, b * d)
  {
    hide Cong;
    var k := CongElim(a, b);
    var j := CongElim(c, d);
    CongMulAux(b, d, k, j);
  }

  lemma CongMulAux(b: int, d: int, k: int, j: int)
    ensures Cong((b + k * P) * (d + j * P), b * d)
  {
    var q := k * d + j * b + k * j * P;
    assert (b + k * P) * (d + j * P) == b * d + q * P;
    CongIntro((b + k * P) * (d + j * P), b * d, q);
  }

  /** Congruent canonical values are equal. */
  lemma CongCanonical(a: int, b: int)
    requires Cong(a, b) && 0 <= a < P && 0 <= b < P
    ensures a == b
  {
    hide Cong;
    var k := CongElim(a, b);
  }

  lemma CongMod(a: int)
    ensures Cong(a % P, a) && Cong(a, a % P)
  {
    CongIntro(a, a % P, a / P);
    CongSym(a, a % P);
  }

  /** The limbs of `a` stay below `n` and its value is the residue `v`. */
  ghost predicate Is(a: Fe, n: int, v: int) {
    Within(a, n) && Cong(Val(a), v)
  }

  // ---- additive operations -------------------------------------------------

  /** curve25519_add and curve25519_add_after_basic. */
  method Add(a: Fe, b: Fe, ghost n: int, ghost m: int, ghost u: int, ghost v: int) returns (out: Fe)
    requires Is(a, n, u) && Is(b, m, v) && n + m < TWO64
    ensures Is(out, n + m, u + v)
    ensures Val(out) == Val(a) + Val(b)
  {
    hide Cong, Val;
    out := Fe(W64(a.l0 + b.l0), W64(a.l1 + b.l1), W64(a.l2 + b.l2), W64(a.l3 + b.l3), W64(a.l4 + b.l4));
    ValIs(a); ValIs(b); ValIs(out);
    CongAdd(Val(a), u, Val(b), v);
  }

  const TWOP0: int := 0x0fffffffffffda
  const TWOP1234: int := 0x0ffffffffffffe
  const FOURP0: int := 0x1fffffffffffb4
  const FOURP1234: int := 0x1ffffffffffffc

  /** curve25519_sub: adds 2p so that no limb goes negative. */
  method Sub(a: Fe, b: Fe, ghost n: int, ghost u: int, ghost v: int) returns (out: Fe)
    requires Is(a, n, u) && Is(b, TWOP0, v) && n + TWOP1234 < TWO64
    ensures Is(out, n + TWOP1234, u - v)
    ensures Val(out) == Val(a) - Val(b) + 2 * P
  {
    hide Cong, Val;
    out := Fe(W64(a.l0 + TWOP0 - b.l0), W64(a.l1 + TWOP1234 - b.l1), W64(a.l2 + TWOP1234 - b.l2),
              W64(a.l3 + TWOP1234 - b.l3), W64(a.l4 + TWOP1234 - b.l4));
    ValIs(a); ValIs(b); ValIs(out);
    CongAdd(Val(a), u, Val(b), v);
    CongIntro(Val(out), Val(a) - Val(b), 2);
    CongTrans(Val(out), Val(a) - Val(b), u - v);
  }

  /** curve25519_sub_after_basic: adds 4p. */
  method SubAfterBasic(a: Fe, b: Fe, ghost n: int, ghost u: int, ghost v: int) returns (out: Fe)
    requires Is(a, n, u) && Is(b, FOURP0, v) && n + FOURP1234 < TWO64
    ensures Is(out, n + FOURP1234, u - v)
    ensures Val(out) == Val(a) - Val(b) + 4 * P
  {
    hide Cong, Val;
    out := Fe(W64(a.l0 + FOURP0 - b.l0), W64(a.l1 + FOURP1234 - b.l1), W64(a.l2 + FOURP1234 - b.l2),
              W64(a.l3 + FOURP1234 - b.l3), W64(a.l4 + FOURP1234 - b.l4));
    ValIs(a); ValIs(b); ValIs(out);
    CongAdd(Val(a), u, Val(b), v);
    CongIntro(Val(out), Val(a) - Val(b), 4);
    CongTrans(Val(out), Val(a) - Val(b), u - v);
  }

  /** One carry: the low 51 bits and the rest of a word or a 128-bit accumulator. */
  method Split51(t: int) returns (lo: int, c: int)
    requires 0 <= t < TWO64 * TWO51
    ensures t == lo + TWO51 * c && 0 <= lo < TWO51 && 0 <= c < TWO64
  {
    lo := W64(t) % TWO51;
    c := W64(t / TWO51);
    Bits51(t, t % TWO51, t / TWO51);
  }

  /** Where bits 51 to 114 of an accumulator are found. */
  lemma Bits51(t: int, lo: int, c: int)
    requires t == lo + TWO51 * c && 0 <= lo < TWO51 && 0 <= c < TWO64
    ensures W64(t) % TWO51 == lo && W64(t / TWO51) == c && W64(W128(t * 0x2000) / TWO64) == c
  {
    ModUnique(t, TWO64, c / 0x2000, lo + TWO51 * (c % 0x2000));
    ModUnique(lo + TWO51 * (c % 0x2000), TWO51, c % 0x2000, lo);
    ModUnique(t, TWO51, c, lo);
    ModUnique(t * 0x2000, TWO64, c, 0x2000 * lo);
  }

  /** Adding a carry to the next limb and splitting it in turn. */
  method CarryInto(x: int, c: int) returns (lo: int, d: int)
    requires 0 <= x && 0 <= c && x + c < TWO64
    ensures x + c == lo + TWO51 * d && 0 <= lo < TWO51 && 0 <= d
  {
    lo, d := Split51(W64(x + c));
  }

  /** One carry pass through the five limbs; the carry out of limb 4 is the quotient of the
      value by 2^255. */
  method CarryChain(t: Fe) returns (o: Fe, c: int)
    requires Within(t, TWO63 - 1)
    ensures Within(o, TWO51 - 1) && c == Val(t) / TWO255 && Val(o) == Val(t) % TWO255
    ensures 0 <= c && c * TWO51 <= t.l4 + 0x1001
  {
    hide Val;
    var o0; o0, c := Split51(t.l0);
    var o1; o1, c := CarryInto(t.l1, c);
    var o2; o2, c := CarryInto(t.l2, c);
    var o3; o3, c := CarryInto(t.l3, c);
    var o4; o4, c := CarryInto(t.l4, c);
    o := Fe(o0, o1, o2, o3, o4);
    ValIs(t); ValIs(o);
    CarriedRange(o);
    SplitTop(Val(t), Val(o), c);
  }

  /** The carry pass of the reducing additive operations, of curve25519_square_times and of
      curve25519_contract: the carry out of limb 4 re-enters limb 0 times 19. */
  method CarryFold(t: Fe) returns (out: Fe, ghost c: int)
    requires Within(t, TWO63 - 1)
    ensures Val(out) == Val(t) - c * P && c == Val(t) / TWO255
    ensures 0 <= c && c * TWO51 <= t.l4 + 0x1001
    ensures 0 <= out.l0 - c * 19 < TWO51 && 0 <= out.l1 < TWO51 && 0 <= out.l2 < TWO51 && 0 <= out.l3 < TWO51 && 0 <= out.l4 < TWO51
  {
    var d;
    out, d := CarryChain(t);
    out := out.(l0 := W64(out.l0 + d * 19));
    c := d;
  }

  lemma SplitTop(w: int, v: int, c: int)
    requires w == v + TWO255 * c && 0 <= v < TWO255
    ensures w / TWO255 == c && w % TWO255 == v
  {
  }

  lemma CarriedRange(t: Fe)
    requires Within(t, TWO51 - 1)
    ensures 0 <= Val(t) < TWO255
  {
    hide Val;
    ValIs(t);
  }

  /** curve25519_add_reduce */
  method AddReduce(a: Fe, b: Fe, ghost u: int, ghost v: int) returns (out: Fe)
    requires Is(a, LOOSE, u) && Is(b, LOOSE, v)
    ensures Is(out, TWO51 + 512, u + v)
  {
    var t := Add(a, b, LOOSE, LOOSE, u, v);
    ghost var c;
    out, c := CarryFold(t);
    CongIntro(Val(out), Val(t), -c);
    CongTrans(Val(out), Val(t), u + v);
  }

  /** curve25519_sub_reduce */
  method SubReduce(a: Fe, b: Fe, ghost u: int, ghost v: int) returns (out: Fe)
    requires Is(a, LOOSE, u) && Is(b, FOURP0, v)
    ensures Is(out, TWO51 + 512, u - v)
  {
    var t := SubAfterBasic(a, b, LOOSE, u, v);
    ghost var c;
    out, c := CarryFold(t);
    CongIntro(Val(out), Val(t), -c);
    CongTrans(Val(out), Val(t), u - v);
  }

  /** curve25519_neg */
  method Neg(a: Fe, ghost u: int) returns (out: Fe)
    requires Is(a, TWOP0, u)
    ensures Is(out, TWO51 + 512, -u)
  {
    CongRefl(0);
    var t := Sub(Fe(0, 0, 0, 0, 0), a, 0, 0, u);
    ghost var c;
    out, c := CarryFold(t);
    CongIntro(Val(out), Val(t), -c);
    CongTrans(Val(out), Val(t), -u);
  }

  // ---- multiplication ------------------------------------------------------

  /** The largest column sum a multiplication of loose elements produces: 77 products of
      54-bit limbs. */
  const COLUMN: int := 77 * LOOSE_SQ

  /** The carry pass that ends curve25519_mul and curve25519_square. */
  method CarryWide(x0: int, x1: int, x2: int, x3: int, x4: int) returns (out: Fe)
    requires 0 <= x0 <= COLUMN && 0 <= x1 <= COLUMN && 0 <= x2 <= COLUMN && 0 <= x3 <= COLUMN
    requires 0 <= x4 <= 5 * LOOSE_SQ
    ensures Within(out, REDUCED)
    ensures Cong(Val(out), Radix51(x0, x1, x2, x3, x4))
  {
    hide Cong, Val;
    var r0, c0 := Split51(x0);
    var r1, c1 := Split51(W128(x1 + c0));
    var r2, c2 := Split51(W128(x2 + c1));
    var r3, c3 := Split51(W128(x3 + c2));
    var r4, c4 := Split51(W128(x4 + c3));
    ghost var low := r0;
    var c5;
    r0, c5 := CarryInto(r0, c4 * 19);
    r1 := W64(r1 + c5);
    out := Fe(r0, r1, r2, r3, r4);
    WideValue(x0, x1, x2, x3, x4, low, r1 - c5, out, c0, c1, c2, c3, c4, c5);
    CongIntro(Val(out), Radix51(x0, x1, x2, x3, x4), -c4);
  }

  lemma WideValue(x0: int, x1: int, x2: int, x3: int, x4: int, low: int, r1: int, out: Fe,
                  c0: int, c1: int, c2: int, c3: int, c4: int, c5: int)
    requires x0 == low + TWO51 * c0 && x1 + c0 == r1 + TWO51 * c1 && x2 + c1 == out.l2 + TWO51 * c2
    requires x3 + c2 == out.l3 + TWO51 * c3 && x4 + c3 == out.l4 + TWO51 * c4
    requires low + c4 * 19 == out.l0 + TWO51 * c5 && out.l1 == r1 + c5
    ensures Val(out) == Radix51(x0, x1, x2, x3, x4) - c4 * P
  {
    hide Val;
    ValIs(out);
  }

  /** The product of two radix-2^51 numbers with the columns above 2^255 folded down by 19. */
  lemma ProductFolds(r: Fe, s: Fe)
    ensures Cong(Radix51(r.l0 * s.l0 + 19 * r.l4 * s.l1 + 19 * r.l1 * s.l4 + 19 * r.l2 * s.l3 + 19 * r.l3 * s.l2,
                         r.l0 * s.l1 + r.l1 * s.l0 + 19 * r.l4 * s.l2 + 19 * r.l2 * s.l4 + 19 * r.l3 * s.l3,
                         r.l0 * s.l2 + r.l2 * s.l0 + r.l1 * s.l1 + 19 * r.l4 * s.l3 + 19 * r.l3 * s.l4,
                         r.l0 * s.l3 + r.l3 * s.l0 + r.l1 * s.l2 + r.l2 * s.l1 + 19 * r.l4 * s.l4,
                         r.l0 * s.l4 + r.l4 * s.l0 + r.l3 * s.l1 + r.l1 * s.l3 + r.l2 * s.l2),
                 Val(r) * Val(s))
  {
    hide Val, Cong;
    ValIs(r);
    ValIs(s);
    var k := Radix51(r.l4 * s.l1 + r.l1 * s.l4 + r.l2 * s.l3 + r.l3 * s.l2,
                     r.l4 * s.l2 + r.l2 * s.l4 + r.l3 * s.l3, r.l4 * s.l3 + r.l3 * s.l4, r.l4 * s.l4, 0);
    CongIntro(Radix51(r.l0 * s.l0 + 19 * r.l4 * s.l1 + 19 * r.l1 * s.l4 + 19 * r.l2 * s.l3 + 19 * r.l3 * s.l2,
                      r.l0 * s.l1 + r.l1 * s.l0 + 19 * r.l4 * s.l2 + 19 * r.l2 * s.l4 + 19 * r.l3 * s.l3,
                      r.l0 * s.l2 + r.l2 * s.l0 + r.l1 * s.l1 + 19 * r.l4 * s.l3 + 19 * r.l3 * s.l4,
                      r.l0 * s.l3 + r.l3 * s.l0 + r.l1 * s.l2 + r.l2 * s.l1 + 19 * r.l4 * s.l4,
                      r.l0 * s.l4 + r.l4 * s.l0 + r.l3 * s.l1 + r.l1 * s.l3 + r.l2 * s.l2),
              Val(r) * Val(s), -k);
  }

  method LowColumns(r: Fe, s: Fe) returns (t0: int, t1: int, t2: int, t3: int, t4: int)
    requires Within(r, LOOSE) && Within(s, LOOSE)
    ensures t0 == r.l0 * s.l0
    ensures t1 == r.l0 * s.l1 + r.l1 * s.l0
    ensures t2 == r.l0 * s.l2 + r.l2 * s.l0 + r.l1 * s.l1
    ensures t3 == r.l0 * s.l3 + r.l3 * s.l0 + r.l1 * s.l2 + r.l2 * s.l1
    ensures t4 == r.l0 * s.l4 + r.l4 * s.l0 + r.l3 * s.l1 + r.l1 * s.l3 + r.l2 * s.l2
    ensures 0 <= t0 <= LOOSE_SQ && 0 <= t1 <= 2 * LOOSE_SQ && 0 <= t2 <= 3 * LOOSE_SQ
    ensures 0 <= t3 <= 4 * LOOSE_SQ && 0 <= t4 <= 5 * LOOSE_SQ
  {
    MulBound(r.l0, s.l0, LOOSE, LOOSE);
    MulBound(r.l0, s.l1, LOOSE, LOOSE); MulBound(r.l1, s.l0, LOOSE, LOOSE);
    MulBound(r.l0, s.l2, LOOSE, LOOSE); MulBound(r.l2, s.l0, LOOSE, LOOSE); MulBound(r.l1, s.l1, LOOSE, LOOSE);
    MulBound(r.l0, s.l3, LOOSE, LOOSE); MulBound(r.l3, s.l0, LOOSE, LOOSE); MulBound(r.l1, s.l2, LOOSE, LOOSE);
    MulBound(r.l2, s.l1, LOOSE, LOOSE);
    MulBound(r.l0, s.l4, LOOSE, LOOSE); MulBound(r.l4, s.l0, LOOSE, LOOSE); MulBound(r.l3, s.l1, LOOSE, LOOSE);
    MulBound(r.l1, s.l3, LOOSE, LOOSE); MulBound(r.l2, s.l2, LOOSE, LOOSE);
    t0 := W128(r.l0 * s.l0);
    t1 := W128(r.l0 * s.l1 + r.l1 * s.l0);
    t2 := W128(r.l0 * s.l2 + r.l2 * s.l0 + r.l1 * s.l1);
    t3 := W128(r.l0 * s.l3 + r.l3 * s.l0 + r.l1 * s.l2 + r.l2 * s.l1);
    t4 := W128(r.l0 * s.l4 + r.l4 * s.l0 + r.l3 * s.l1 + r.l1 * s.l3 + r.l2 * s.l2);
  }

  /** A partial product of weight 2^255 or more: the limb times 19 in a word, then the product. */
  method Fold(r: int, s: int) returns (t: int)
    requires 0 <= r <= LOOSE && 0 <= s <= LOOSE
    ensures t == 19 * r * s && 0 <= t <= 19 * LOOSE_SQ
  {
    MulBound(r, s, LOOSE, LOOSE);
    var r19 := W64(r * 19);
    t := W128(r19 * s);
  }

  method HighColumns(r: Fe, s: Fe, x0: int, x1: int, x2: int, x3: int) returns (t0: int, t1: int, t2: int, t3: int)
    requires Within(r, LOOSE) && Within(s, LOOSE)
    requires 0 <= x0 <= LOOSE_SQ && 0 <= x1 <= 2 * LOOSE_SQ && 0 <= x2 <= 3 * LOOSE_SQ
    requires 0 <= x3 <= 4 * LOOSE_SQ
    ensures t0 == x0 + 19 * r.l4 * s.l1 + 19 * r.l1 * s.l4 + 19 * r.l2 * s.l3 + 19 * r.l3 * s.l2
    ensures t1 == x1 + 19 * r.l4 * s.l2 + 19 * r.l2 * s.l4 + 19 * r.l3 * s.l3
    ensures t2 == x2 + 19 * r.l4 * s.l3 + 19 * r.l3 * s.l4
    ensures t3 == x3 + 19 * r.l4 * s.l4
    ensures 0 <= t0 <= COLUMN && 0 <= t1 <= COLUMN && 0 <= t2 <= COLUMN && 0 <= t3 <= COLUMN
  {
    var r41 := Fold(r.l4, s.l1); var r14 := Fold(r.l1, s.l4); var r23 := Fold(r.l2, s.l3); var r32 := Fold(r.l3, s.l2);
    var r42 := Fold(r.l4, s.l2); var r24 := Fold(r.l2, s.l4); var r33 := Fold(r.l3, s.l3);
    var r43 := Fold(r.l4, s.l3); var r34 := Fold(r.l3, s.l4); var r44 := Fold(r.l4, s.l4);
    t0 := W128(x0 + r41 + r14 + r23 + r32);
    t1 := W128(x1 + r42 + r24 + r33);
    t2 := W128(x2 + r43 + r34);
    t3 := W128(x3 + r44);
  }

  /** curve25519_mul */
  method Mul(in2: Fe, in1: Fe, ghost v: int, ghost u: int) returns (out: Fe)
    requires Is(in2, LOOSE, v) && Is(in1, LOOSE, u)
    ensures Is(out, REDUCED, v * u)
  {
    hide Val, Radix51, Cong;
    var t0, t1, t2, t3, t4 := LowColumns(in1, in2);
    t0, t1, t2, t3 := HighColumns(in1, in2, t0, t1, t2, t3);
    out := CarryWide(t0, t1, t2, t3, t4);
    ProductFolds(in1, in2);
    CongTrans(Val(out), Radix51(t0, t1, t2, t3, t4), Val(in1) * Val(in2));
    CongMul(Val(in1), u, Val(in2), v);
    CongTrans(Val(out), Val(in1) * Val(in2), u * v);
  }

  // ---- squaring ------------------------------------------------------------

  /** Bounds on the fifteen distinct products of two limbs of one element. */
  ghost predicate Products(r: Fe, q: int) {
    && 0 <= r.l0 * r.l0 <= q && 0 <= r.l0 * r.l1 <= q && 0 <= r.l0 * r.l2 <= q && 0 <= r.l0 * r.l3 <= q
    && 0 <= r.l0 * r.l4 <= q && 0 <= r.l1 * r.l1 <= q && 0 <= r.l1 * r.l2 <= q && 0 <= r.l1 * r.l3 <= q
    && 0 <= r.l4 * r.l1 <= q && 0 <= r.l2 * r.l2 <= q && 0 <= r.l2 * r.l3 <= q && 0 <= r.l4 * r.l2 <= q
    && 0 <= r.l3 * r.l3 <= q && 0 <= r.l4 * r.l3 <= q && 0 <= r.l4 * r.l4 <= q
  }

  lemma ProductsWithin(r: Fe, n: int)
    requires Within(r, n)
    ensures Products(r, n * n)
  {
    MulBound(r.l0, r.l0, n, n); MulBound(r.l0, r.l1, n, n); MulBound(r.l0, r.l2, n, n); MulBound(r.l0, r.l3, n, n);
    MulBound(r.l0, r.l4, n, n); MulBound(r.l1, r.l1, n, n); MulBound(r.l1, r.l2, n, n); MulBound(r.l1, r.l3, n, n);
    MulBound(r.l4, r.l1, n, n); MulBound(r.l2, r.l2, n, n); MulBound(r.l2, r.l3, n, n); MulBound(r.l4, r.l2, n, n);
    MulBound(r.l3, r.l3, n, n); MulBound(r.l4, r.l3, n, n); MulBound(r.l4, r.l4, n, n);
  }

  /** A product with a limb that was scaled by k beforehand. */
  method Scaled(d: int, b: int, ghost k: int, ghost a: int, ghost q: int) returns (t: int)
    requires 1 <= k <= 38 && d == k * a && 0 <= a * b <= q <= LOOSE_SQ
    ensures t == k * (a * b) && 0 <= t <= k * q
  {
    MulBound(k, a * b, k, q);
    MulBound(k, q, 38, LOOSE_SQ);
    assert d * b == k * (a * b) by { hide *; }
    t := W128(d * b);
  }

  /** The columns of a square: every mixed product once, doubled, the high ones times 19. */
  method SquareColumns(r: Fe, ghost q: int) returns (t0: int, t1: int, t2: int, t3: int, t4: int)
    requires Within(r, LOOSE) && Products(r, q) && q <= LOOSE_SQ
    ensures t0 == r.l0 * r.l0 + 38 * (r.l4 * r.l1) + 38 * (r.l2 * r.l3)
    ensures t1 == 2 * (r.l0 * r.l1) + 38 * (r.l4 * r.l2) + 19 * (r.l3 * r.l3)
    ensures t2 == 2 * (r.l0 * r.l2) + r.l1 * r.l1 + 38 * (r.l4 * r.l3)
    ensures t3 == 2 * (r.l0 * r.l3) + 2 * (r.l1 * r.l2) + 19 * (r.l4 * r.l4)
    ensures t4 == 2 * (r.l0 * r.l4) + 2 * (r.l1 * r.l3) + r.l2 * r.l2
    ensures 0 <= t0 <= 77 * q && 0 <= t1 <= 59 * q && 0 <= t2 <= 41 * q && 0 <= t3 <= 23 * q && 0 <= t4 <= 5 * q
  {
    var d0 := W64(r.l0 * 2);
    var d1 := W64(r.l1 * 2);
    var d2 := W64(r.l2 * 2 * 19);
    var d419 := W64(r.l4 * 19);
    var d4 := W64(d419 * 2);
    var r319 := W64(r.l3 * 19);
    var p00 := Scaled(r.l0, r.l0, 1, r.l0, q); var p41 := Scaled(d4, r.l1, 38, r.l4, q); var p23 := Scaled(d2, r.l3, 38, r.l2, q);
    t0 := W128(p00 + p41 + p23);
    var p01 := Scaled(d0, r.l1, 2, r.l0, q); var p42 := Scaled(d4, r.l2, 38, r.l4, q); var p33 := Scaled(r319, r.l3, 19, r.l3, q);
    t1 := W128(p01 + p42 + p33);
    var p02 := Scaled(d0, r.l2, 2, r.l0, q); var p11 := Scaled(r.l1, r.l1, 1, r.l1, q); var p43 := Scaled(d4, r.l3, 38, r.l4, q);
    t2 := W128(p02 + p11 + p43);
    var p03 := Scaled(d0, r.l3, 2, r.l0, q); var p12 := Scaled(d1, r.l2, 2, r.l1, q); var p44 := Scaled(d419, r.l4, 19, r.l4, q);
    t3 := W128(p03 + p12 + p44);
    var p04 := Scaled(d0, r.l4, 2, r.l0, q); var p13 := Scaled(d1, r.l3, 2, r.l1, q); var p22 := Scaled(r.l2, r.l2, 1, r.l2, q);
    t4 := W128(p04 + p13 + p22);
  }

  lemma SquareFolds(r: Fe)
    ensures Cong(Radix51(r.l0 * r.l0 + 38 * (r.l4 * r.l1) + 38 * (r.l2 * r.l3),
                         2 * (r.l0 * r.l1) + 38 * (r.l4 * r.l2) + 19 * (r.l3 * r.l3),
                         2 * (r.l0 * r.l2) + r.l1 * r.l1 + 38 * (r.l4 * r.l3),
                         2 * (r.l0 * r.l3) + 2 * (r.l1 * r.l2) + 19 * (r.l4 * r.l4),
                         2 * (r.l0 * r.l4) + 2 * (r.l1 * r.l3) + r.l2 * r.l2),
                 Val(r) * Val(r))
  {
    hide Val, Cong;
    ValIs(r);
    var k := Radix51(2 * (r.l4 * r.l1) + 2 * (r.l2 * r.l3), 2 * (r.l4 * r.l2) + r.l3 * r.l3, 2 * (r.l4 * r.l3), r.l4 * r.l4, 0);
    CongIntro(Radix51(r.l0 * r.l0 + 38 * (r.l4 * r.l1) + 38 * (r.l2 * r.l3),
                      2 * (r.l0 * r.l1) + 38 * (r.l4 * r.l2) + 19 * (r.l3 * r.l3),
                      2 * (r.l0 * r.l2) + r.l1 * r.l1 + 38 * (r.l4 * r.l3),
                      2 * (r.l0 * r.l3) + 2 * (r.l1 * r.l2) + 19 * (r.l4 * r.l4),
                      2 * (r.l0 * r.l4) + 2 * (r.l1 * r.l3) + r.l2 * r.l2),
              Val(r) * Val(r), -k);
  }

  /** curve25519_square */
  method Square(in1: Fe, ghost u: int) returns (out: Fe)
    requires Is(in1, LOOSE, u)
    ensures Is(out, REDUCED, u * u)
  {
    hide Val, Radix51, Cong, Products;
    ProductsWithin(in1, LOOSE);
    var t0, t1, t2, t3, t4 := SquareColumns(in1, LOOSE_SQ);
    out := CarryWide(t0, t1, t2, t3, t4);
    SquareFolds(in1);
    CongTrans(Val(out), Radix51(t0, t1, t2, t3, t4), Val(in1) * Val(in1));
    CongMul(Val(in1), u, Val(in1), u);
    CongTrans(Val(out), Val(in1) * Val(in1), u * u);
  }

  /** The largest limbs curve25519_square_times starts from. */
  const SEMI: int := 0x20_0000_0000_0000
  const SEMI_SQ: int := 0x400_0000_0000_0000_0000_0000_0000

  /** One turn of the loop of curve25519_square_times: columns, then all carries at once, then
      a full carry pass. */
  method SquareStep(r: Fe, ghost u: int) returns (out: Fe)
    requires Is(r, SEMI, u)
    ensures Is(out, REDUCED, u * u)
  {
    hide Val, Radix51, Cong, Products;
    ProductsWithin(r, SEMI);
    var t0, t1, t2, t3, t4 := SquareColumns(r, SEMI_SQ);
    out := CarryParallel(t0, t1, t2, t3, t4);
    SquareFolds(r);
    CongTrans(Val(out), Radix51(t0, t1, t2, t3, t4), Val(r) * Val(r));
    CongMul(Val(r), u, Val(r), u);
    CongTrans(Val(out), Val(r) * Val(r), u * u);
  }

  /** `shl128(c, t, 13)`: bits 51 to 114 of an accumulator. */
  method Shl13(t: int) returns (lo: int, c: int)
    requires 0 <= t < TWO64 * TWO51
    ensures t == lo + TWO51 * c && 0 <= lo < TWO51 && 0 <= c < TWO64
  {
    lo := W64(t) % TWO51;
    c := W64(W128(t * 0x2000) / TWO64);
    Bits51(t, t % TWO51, t / TWO51);
  }

  method CarryParallel(t0: int, t1: int, t2: int, t3: int, t4: int) returns (out: Fe)
    requires 0 <= t0 <= 77 * SEMI_SQ && 0 <= t1 <= 59 * SEMI_SQ && 0 <= t2 <= 41 * SEMI_SQ
    requires 0 <= t3 <= 23 * SEMI_SQ && 0 <= t4 <= 5 * SEMI_SQ
    ensures Within(out, REDUCED)
    ensures Cong(Val(out), Radix51(t0, t1, t2, t3, t4))
  {
    hide Val, Cong;
    var r0, c0 := Shl13(t0);
    var r1, c1 := Shl13(t1);
    var r2, c2 := Shl13(t2);
    var r3, c3 := Shl13(t3);
    var r4, c4 := Shl13(t4);
    var m := Fe(W64(r0 + c4 * 19), W64(r1 + c0), W64(r2 + c1), W64(r3 + c2), W64(r4 + c3));
    assert m == Fe(r0 + c4 * 19, r1 + c0, r2 + c1, r3 + c2, r4 + c3);
    ValIs(m);
    CongIntro(Val(m), Radix51(t0, t1, t2, t3, t4), -c4);
    ghost var c;
    out, c := CarryFold(m);
    CongIntro(Val(out), Val(m), -c);
    CongTrans(Val(out), Val(m), Radix51(t0, t1, t2, t3, t4));
  }

  /** curve25519_square_times: in^(2^count). */
  method SquareTimes(in1: Fe, count: nat, ghost u: int) returns (out: Fe)
    requires Is(in1, SEMI, u) && 1 <= count
    ensures Is(out, REDUCED, Pow(u, Pow2(count)))
  {
    hide Val, Cong;
    var left := count;
    assert Pow(u, 1) == u;
    out := SquareStep(in1, u);
    assert Pow(u, 2) == u * u;
    left := left - 1;
    while left != 0
      invariant 0 <= left < count
      invariant Is(out, REDUCED, Pow(u, Pow2(count - left)))
    {
      ghost var e := Pow2(count - left);
      PowAdd(u, e, e);
      out := SquareStep(out, Pow(u, e));
      left := left - 1;
    }
  }
}
