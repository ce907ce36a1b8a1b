/** Multiplication of the base point from the packed table of its multiples. */
module BaseMult {
  import opened Words
  import opened Bytes
  import opened Field
  import opened FieldCodec
  import opened CurveGroup
  import opened Points
  import opened PointGroup
  import opened Multiples
  import opened Digits
  import opened Recoding

  // ---- table rows ----------------------------------------------------------

  /** The residues of a table row for e: y - x, y + x and k x y. Rows of position 0 have k = 2,
      the others k = 2d. */
  ghost function Entry<E>(c: Curve<E>, e: E, k: int): NielsResidues {
    NielsResidues(c.y(e) - c.x(e), c.y(e) + c.x(e), 1, (c.x(e) * c.y(e)) * k)
  }

  ghost predicate RowOf<E>(c: Curve<E>, row: seq<byte>, e: E, k: int) {
    && |row| == 96
    && Cong(LE(row[0..32]) % TWO255, Entry(c, e, k).ysubx)
    && Cong(LE(row[32..64]) % TWO255, Entry(c, e, k).xaddy)
    && Cong(LE(row[64..96]) % TWO255, Entry(c, e, k).t2d)
  }

  ghost function RowScale(pos: int): int { if pos == 0 then 2 else D2 }

  ghost predicate RowAt<E>(c: Curve<E>, table: seq<seq<byte>>, b: E, pos: int, i: int)
    requires |table| == 256 && 0 <= pos < 32 && 0 <= i < 8
  {
    RowOf(c, table[pos * 8 + i], Times(c, (i + 1) * Pow(256, pos), b), RowScale(pos))
  }

  /** ge25519_niels_base_multiples: row 8 pos + i holds [(i + 1) 256^pos]b. */
  ghost predicate BaseTable<E>(c: Curve<E>, table: seq<seq<byte>>, b: E) {
    |table| == 256 && forall pos, i :: 0 <= pos < 32 && 0 <= i < 8 ==> RowAt(c, table, b, pos, i)
  }

  // ---- constant-time selection ---------------------------------------------

  /** ge25519_windowb_equal on any two 32-bit words: besides equal words it also flags those whose
      exclusive or is above 2^31, so below 2^31 it is equality. */
  method WindowEqual(b: int, c: int) returns (flag: int)
    requires 0 <= b < TWO32 && 0 <= c < TWO32
    ensures flag == if b == c || Xor(b, c) > TWO31 then 1 else 0
    ensures b < TWO31 && c < TWO31 ==> flag == if b == c then 1 else 0
  {
    hide Xor, Pow2;
    XorZero(b, c);
    TwoPowers();
    XorBound(b, c, 32);
    Pow31();
    if b < TWO31 && c < TWO31 {
      XorBound(b, c, 31);
    }
    flag := W32(Xor(b, c) - 1) / TWO31;
  }

  lemma Pow31()
    ensures Pow2(31) == TWO31
  {
    TwoPowers();
    hide Pow2;
    Pow2Add(31, 1);
    PowOneTwo();
  }

  lemma PowOneTwo()
    ensures Pow2(1) == 2
  {
  }

  /** The absolute value of a signed digit, as `(b + mask) ^ mask`. */
  method Magnitude(b: int) returns (sign: int, u: int)
    requires -8 <= b <= 8
    ensures sign == (if b < 0 then 1 else 0) && u == if b < 0 then -b else b
  {
    hide Xor, Pow2;
    sign := if b < 0 then 1 else 0;
    var mask := W32(TWO32 - 1 - W32(sign - 1));
    TwoPowers();
    if b < 0 {
      assert mask == TWO32 - 1;
      assert W32(b + mask) == TWO32 - 1 + b;
      XorOnes(TWO32 - 1 + b, 32);
    } else {
      assert mask == 0 && W32(b + mask) == b;
      XorNone(b);
    }
    u := Xor(W32(b + mask), mask);
  }

  lemma XorNone(a: nat)
    ensures Xor(a, 0) == a
  {
  }

  /** curve25519_move_conditional_bytes, byte by byte. */
  method MoveConditional(out: seq<byte>, in1: seq<byte>, flag: int) returns (r: seq<byte>)
    requires |out| == 96 && |in1| == 96 && 0 <= flag <= 1
    ensures r == if flag == 1 then in1 else out
  {
    var nb := (flag - 1) % 256;
    var b := 255 - nb;
    r := [];
    for i := 0 to 96
      invariant r == if flag == 1 then in1[..i] else out[..i]
    {
      ByteSelect(out[i], in1[i], flag);
      r := r + [Or(And(out[i], nb), And(in1[i], b))];
    }
    assert out[..96] == out && in1[..96] == in1;
  }

  lemma ByteSelect(x: int, y: int, flag: int)
    requires 0 <= x < 256 && 0 <= y < 256 && 0 <= flag <= 1
    ensures var nb := (flag - 1) % 256; Or(And(x, nb), And(y, 255 - nb)) == if flag == 1 then y else x
  {
    var nb := (flag - 1) % 256;
    assert Pow2(8) == 256;
    AndOnes(x, 8);
    AndOnes(y, 8);
    hide Pow2;
    AndCommutes(x, 255);
    AndCommutes(y, 255);
    assert And(x, 0) == 0 && And(y, 0) == 0;
    hide And;
    if flag == 1 {
      assert nb == 0;
      assert Or(0, y) == y;
    } else {
      assert nb == 255;
      OrNone(x);
    }
  }

  lemma OrNone(x: nat)
    ensures Or(x, 0) == x
  {
  }

  /** curve25519_swap_conditional */
  method SwapConditional(a: Fe, b: Fe, iswap: int) returns (a': Fe, b': Fe)
    requires Within(a, TWO64 - 1) && Within(b, TWO64 - 1) && 0 <= iswap <= 1
    ensures (a', b') == if iswap == 1 then (b, a) else (a, b)
  {
    hide Xor, And;
    var swap := W64(0 - iswap);
    MaskSwap(a.l0, b.l0, iswap); MaskSwap(a.l1, b.l1, iswap); MaskSwap(a.l2, b.l2, iswap); MaskSwap(a.l3, b.l3, iswap);
    MaskSwap(a.l4, b.l4, iswap);
    var x0, x1, x2 := And(swap, Xor(a.l0, b.l0)), And(swap, Xor(a.l1, b.l1)), And(swap, Xor(a.l2, b.l2));
    var x3, x4 := And(swap, Xor(a.l3, b.l3)), And(swap, Xor(a.l4, b.l4));
    a' := Fe(Xor(a.l0, x0), Xor(a.l1, x1), Xor(a.l2, x2), Xor(a.l3, x3), Xor(a.l4, x4));
    b' := Fe(Xor(b.l0, x0), Xor(b.l1, x1), Xor(b.l2, x2), Xor(b.l3, x3), Xor(b.l4, x4));
  }

  // ---- choosing a row ------------------------------------------------------

  /** The packed neutral element: ysubx = 1, xaddy = 1, t2d = 0. */
  function NeutralRow(): (row: seq<byte>)
    ensures |row| == 96
  {
    [1] + Store(0, 31) + ([1] + Store(0, 31)) + Store(0, 32)
  }

  lemma NeutralRowIsZero<E(!new)>(c: Curve<E>, k: int)
    requires Valid(c)
    ensures RowOf(c, NeutralRow(), c.zero, k)
  {
    hide LE, Store, Cong;
    var row := NeutralRow();
    assert row[0..32] == [1] + Store(0, 31) && row[32..64] == [1] + Store(0, 31) && row[64..96] == Store(0, 32);
    OneByte();
    assert (0 * 1) * k == 0;
    CongRefl(0);
    CongRefl(1);
  }

  lemma OneByte()
    ensures LE([1] + Store(0, 31)) == 1 && LE(Store(0, 32)) == 0
  {
    StoreLE(0, 31);
    StoreLE(0, 32);
    assert ([1] + Store(0, 31))[1..] == Store(0, 31);
  }

  /** The row of |b|, or the neutral row for 0. */
  method SelectRow<E(!new)>(table: seq<seq<byte>>, pos: int, u: int, ghost c: Curve<E>,
                            ghost b: E) returns (packed: seq<byte>)
    requires Valid(c) && BaseTable(c, table, b) && 0 <= pos < 32 && 0 <= u <= 8
    ensures RowOf(c, packed, Times(c, u * Pow(256, pos), b), RowScale(pos))
  {
    hide Valid, RowOf, Times, Pow, NeutralRow;
    packed := NeutralRow();
    NeutralRowIsZero(c, RowScale(pos));
    TimesNothing(c, b);
    for i := 0 to 8
      invariant RowOf(c, packed, Times(c, (if u <= i then u else 0) * Pow(256, pos), b), RowScale(pos))
    {
      var flag := WindowEqual(u, i + 1);
      assert RowAt(c, table, b, pos, i);
      RowLength(c, packed, Times(c, (if u <= i then u else 0) * Pow(256, pos), b), RowScale(pos));
      RowLength(c, table[pos * 8 + i], Times(c, (i + 1) * Pow(256, pos), b), RowScale(pos));
      packed := MoveConditional(packed, table[pos * 8 + i], flag);
    }
  }

  lemma RowLength<E>(c: Curve<E>, row: seq<byte>, e: E, k: int)
    requires RowOf(c, row, e, k)
    ensures |row| == 96
  {
  }

  /** A row with ysubx and xaddy exchanged and t2d negated is the row of the inverse. */
  lemma NegatedRow<E>(c: Curve<E>, e: E, k: int, ysubx: int, xaddy: int, t2d: int)
    requires NegAt(c, e)
    requires var v := Entry(c, e, k); Cong(ysubx, v.ysubx) && Cong(xaddy, v.xaddy) && Cong(t2d, -v.t2d)
    ensures var v := Entry(c, c.neg(e), k); Cong(xaddy, v.ysubx) && Cong(ysubx, v.xaddy) && Cong(t2d, v.t2d)
  {
    hide Cong;
    var x, y, x' := c.x(e), c.y(e), c.x(c.neg(e));
    CongRefl(y); CongRefl(y * k);
    CongAdd(y, y, x', -x);
    CongSym(y + x', y - x);
    CongSym(y - x', y + x);
    CongTrans(ysubx, y - x, y + x');
    CongTrans(xaddy, y + x, y - x');
    CongMul(x', -x, y * k, y * k);
    assert x' * (y * k) == (x' * y) * k && (-x) * (y * k) == -((x * y) * k) by { RowIdentity(x, x', y, k); }
    CongSym((x' * y) * k, -((x * y) * k));
    CongTrans(t2d, -((x * y) * k), (x' * y) * k);
  }

  lemma RowIdentity(x: int, x': int, y: int, k: int)
    ensures x' * (y * k) == (x' * y) * k && (-x) * (y * k) == -((x * y) * k)
  {
  }

  /** ge25519_scalarmult_base_choose_niels */
  method ChooseNiels<E(!new)>(table: seq<seq<byte>>, pos: int, b: int, ghost c: Curve<E>,
                              ghost base: E) returns (t: Niels)
    requires Valid(c) && BaseTable(c, table, base) && 0 <= pos < 32 && -8 <= b <= 8
    ensures HasNiels(t, Entry(c, Times(c, b * Pow(256, pos), base), RowScale(pos)))
  {
    hide Valid, Times, Pow, Val, LE, Cong, BaseTable, Entry, NegAt, CoordinatesAt;
    var sign, u := Magnitude(b);
    var packed := SelectRow(table, pos, u, c, base);
    ghost var e, k := Times(c, u * Pow(256, pos), base), RowScale(pos);
    var ysubx := FieldCodec.Expand(packed[0..32]);
    var xaddy := FieldCodec.Expand(packed[32..64]);
    var t2d := FieldCodec.Expand(packed[64..96]);
    ghost var v := Entry(c, e, k);
    ysubx, xaddy := SwapConditional(ysubx, xaddy, sign);
    var neg := Neg(t2d, v.t2d);
    t2d, neg := SwapConditional(t2d, neg, sign);
    t := Niels(ysubx, xaddy, t2d);
    if sign == 1 {
      Coordinates(c, e);
      NegatedRow(c, e, k, Val(xaddy), Val(ysubx), Val(t2d));
      TimesNeg(c, u * Pow(256, pos), base);
      assert -(u * Pow(256, pos)) == b * Pow(256, pos);
    }
  }

  // ---- the sum -------------------------------------------------------------

  /** The digits at odd (r = 1) or even (r = 0) positions below 2n, in base 256. */
  ghost function Stride(b: seq<int>, r: nat, n: nat): int
    requires r <= 1 && 2 * n <= |b|
  {
    if n == 0 then 0 else Stride(b, r, n - 1) + b[2 * (n - 1) + r] * Pow(256, n - 1)
  }

  lemma {:induction false} EvenAndOdd(b: seq<int>, n: nat)
    requires 2 * n <= |b|
    ensures Eval(b[..2 * n], 16) == Stride(b, 0, n) + 16 * Stride(b, 1, n)
  {
    hide Eval, Pow;
    if n == 0 {
      assert b[..0] == [];
      EvalEmpty(16);
    } else {
      var m := 2 * (n - 1);
      EvenAndOdd(b, n - 1);
      assert b[..m + 1] == b[..m] + [b[m]] && b[..m + 2] == b[..m + 1] + [b[m + 1]];
      EvalSnoc(b[..m], b[m], 16);
      EvalSnoc(b[..m + 1], b[m + 1], 16);
      SquareBase(n - 1);
      PowStep(16, m);
      assert b[m + 1] * (16 * Pow(256, n - 1)) == 16 * (b[m + 1] * Pow(256, n - 1));
    }
  }

  lemma {:induction false} SquareBase(n: nat)
    ensures Pow(16, 2 * n) == Pow(256, n)
  {
    if n != 0 {
      SquareBase(n - 1);
      assert Pow(16, 2 * n) == 16 * Pow(16, 2 * n - 1);
      assert Pow(16, 2 * n - 1) == 16 * Pow(16, 2 * (n - 1));
    }
  }

  lemma EntryIsNiels<E>(c: Curve<E>, t: Niels, e: E)
    requires HasNiels(t, Entry(c, e, D2))
    ensures NielsOf(c, t, e)
  {
    hide Is;
    assert Entry(c, e, D2) == ToNiels(At(c, e, 1));
  }

  /** The first point, built from a row whose third entry is 2xy: (2x, 2y, 2, 2xy). */
  method FirstPoint<E(!new)>(t: Niels, ghost c: Curve<E>, ghost e: E) returns (r: Ge)
    requires HasNiels(t, Entry(c, e, 2))
    ensures FullOf(c, r, e)
  {
    hide Cong, Val, Unit;
    ghost var v := Entry(c, e, 2);
    var x := SubReduce(t.xaddy, t.ysubx, v.xaddy, v.ysubx);
    var y := AddReduce(t.xaddy, t.ysubx, v.xaddy, v.ysubx);
    r := Ge(x, y, Fe(2, 0, 0, 0, 0), t.t2d);
    TwoElement();
    UnitTwo();
    FullIntro(c, r, e, 2);
  }

  lemma TwoElement()
    ensures Is(Fe(2, 0, 0, 0, 0), REDUCED, 2)
  {
    assert Val(Fe(2, 0, 0, 0, 0)) == 2;
    CongRefl(2);
  }

  /** Adding the row of position pos >= 1 chosen by a digit. */
  method AddRow<E(!new)>(r0: Ge, table: seq<seq<byte>>, pos: int, d: int, ghost c: Curve<E>, ghost b: E,
                         ghost acc: int) returns (r: Ge)
    requires Valid(c) && BaseTable(c, table, b) && 1 <= pos < 32 && -8 <= d <= 8 && FullOf(c, r0, Times(c, acc, b))
    ensures FullOf(c, r, Times(c, acc + d * Pow(256, pos), b))
  {
    hide Valid, BaseTable, FullOf, NielsOf, HasNiels, Times, Pow, Entry;
    var t := ChooseNiels(table, pos, d, c, b);
    ghost var e := Times(c, d * Pow(256, pos), b);
    EntryIsNiels(c, t, e);
    r := NielsAdd(r0, t, c, Times(c, acc, b), e);
    TimesAdd(c, acc, d * Pow(256, pos), b);
  }

  /** Adding the row of position 0, whose third entry is first multiplied by d. */
  method AddRowZero<E(!new)>(r0: Ge, table: seq<seq<byte>>, d: int, ghost c: Curve<E>, ghost b: E,
                             ghost acc: int) returns (r: Ge)
    requires Valid(c) && BaseTable(c, table, b) && -8 <= d <= 8 && FullOf(c, r0, Times(c, acc, b))
    ensures FullOf(c, r, Times(c, acc + d, b))
  {
    hide Valid, BaseTable, FullOf, NielsOf, Times, Val, Cong;
    var t := ChooseNiels(table, 0, d, c, b);
    assert Pow(256, 0) == 1;
    ghost var e := Times(c, d, b);
    ghost var m := c.x(e) * c.y(e);
    ConstantLimbs();
    var t2d := Mul(t.t2d, ECD, m * 2, D);
    CurveGroup.Constants();
    CongRefl(m);
    CongMul(m, m, D2, 2 * D);
    assert (m * 2) * D == m * (2 * D);
    CongSym(m * D2, m * (2 * D));
    CongTrans(Val(t2d), m * (2 * D), m * D2);
    t := Niels(t.ysubx, t.xaddy, t2d);
    EntryIsNiels(c, t, e);
    r := NielsAdd(r0, t, c, Times(c, acc, b), e);
    TimesAdd(c, acc, d, b);
  }

  /** Three partial doublings and a full one. */
  method TimesSixteen<E(!new)>(r0: Ge, ghost c: Curve<E>, ghost b: E, ghost n: int) returns (r: Ge)
    requires Valid(c) && FullOf(c, r0, Times(c, n, b))
    ensures FullOf(c, r, Times(c, 16 * n, b))
  {
    hide Valid, FullOf, PartialOf, Times;
    FullIsPartial(c, r0, Times(c, n, b));
    TimesAdd(c, n, n, b);
    TimesAdd(c, 2 * n, 2 * n, b);
    TimesAdd(c, 4 * n, 4 * n, b);
    TimesAdd(c, 8 * n, 8 * n, b);
    r := DoublePartial(r0, c, Times(c, n, b));
    r := DoublePartial(r, c, Times(c, 2 * n, b));
    r := DoublePartial(r, c, Times(c, 4 * n, b));
    r := Double(r, c, Times(c, 8 * n, b));
  }

  lemma StrideStep(b: seq<int>, r: nat, n: nat)
    requires r <= 1 && 2 * n + 2 <= |b|
    ensures Stride(b, r, n + 1) == Stride(b, r, n) + b[2 * n + r] * Pow(256, n)
    ensures Stride(b, r, 1) == b[r]
  {
    assert Stride(b, r, 0) == 0 && Pow(256, 0) == 1;
  }

  /** One of the two row loops: positions 1 to 31 of the odd or the even digits. */
  method AddRows<E(!new)>(r0: Ge, b: seq<int>, parity: nat, table: seq<seq<byte>>, ghost c: Curve<E>, ghost base: E,
                          ghost acc: int)
    returns (r: Ge)
    requires Valid(c) && BaseTable(c, table, base) && |b| == 64 && (forall k :: 0 <= k < 64 ==> -8 <= b[k] <= 8)
    requires parity <= 1 && FullOf(c, r0, Times(c, acc + b[parity], base))
    ensures FullOf(c, r, Times(c, acc + Stride(b, parity, 32), base))
  {
    hide Valid, BaseTable, FullOf, Times, Pow, Stride;
    StrideStep(b, parity, 0);
    r := r0;
    var i := parity + 2;
    while i < 64
      invariant parity + 2 <= i <= 64 + parity && i % 2 == parity
      invariant FullOf(c, r, Times(c, acc + Stride(b, parity, i / 2), base))
    {
      assert i == 2 * (i / 2) + parity;
      r := AddRow(r, table, i / 2, b[i], c, base, acc + Stride(b, parity, i / 2));
      StrideStep(b, parity, i / 2);
      i := i + 2;
    }
  }

  /** ge25519_scalarmult_base_niels over the recoded digits. */
  method SumRows<E(!new)>(b: seq<int>, table: seq<seq<byte>>, ghost c: Curve<E>, ghost base: E) returns (r: Ge)
    requires Valid(c) && BaseTable(c, table, base) && |b| == 64 && forall k :: 0 <= k < 64 ==> -8 <= b[k] <= 8
    ensures FullOf(c, r, Times(c, Stride(b, 0, 32) + 16 * Stride(b, 1, 32), base))
  {
    hide Valid, BaseTable, FullOf, HasNiels, Times, Pow, Entry, Stride;
    var t := ChooseNiels(table, 0, b[1], c, base);
    PowNone();
    r := FirstPoint(t, c, Times(c, b[1], base));
    r := AddRows(r, b, 1, table, c, base, 0);
    ghost var odd := Stride(b, 1, 32);
    r := TimesSixteen(r, c, base, odd);
    r := AddRowZero(r, table, b[0], c, base, 16 * odd);
    r := AddRows(r, b, 0, table, c, base, 16 * odd);
  }

  lemma PowNone()
    ensures Pow(256, 0) == 1
  {
  }

  /** ge25519_scalarmult_base_niels: [s]b for every s below 2^255. */
  method BaseScalarMult<E(!new)>(table: seq<seq<byte>>, s: Limbs, ghost c: Curve<E>, ghost base: E) returns (r: Ge)
    requires Valid(c) && BaseTable(c, table, base) && Carried(s) && s[4] < 0x8000_0000
    ensures FullOf(c, r, Times(c, Value(s), base))
  {
    hide Valid, BaseTable, FullOf, Times, Pow, Eval, Stride, Radix56;
    var b := new int[64];
    ContractWindow4(b, s);
    r := SumRows(b[..], table, c, base);
    EvenAndOdd(b[..], 32);
    assert b[..][..64] == b[..];
  }
}
