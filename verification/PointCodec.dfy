/** Packing and unpacking of points (ed25519-donna-impl-base.h). */
module PointCodec {
  import opened Words
  import opened Bytes
  import opened Field
  import opened FieldCodec
  import opened Chains
  import opened CurveGroup
  import opened Points
  import opened PointGroup

  /** What is used of the field: p has no zero divisors, and Fermat's little theorem. */
  ghost predicate NoZeroDivisorAt(a: int, b: int) {
    Cong(a * b, 0) ==> Cong(a, 0) || Cong(b, 0)
  }

  ghost predicate FermatAt(a: int) {
    Cong(a, 0) || Cong(Pow(a, P - 1), 1)
  }

  ghost predicate PrimeField() {
    (forall a, b :: NoZeroDivisorAt(a, b)) && (forall a :: FermatAt(a))
  }

  // ---- comparison ----------------------------------------------------------

  /** ed25519_verify: 1 exactly when the two strings are equal. */
  method Verify(x: seq<byte>, y: seq<byte>) returns (r: bool)
    requires |x| == |y|
    ensures r <==> x == y
  {
    hide Xor, Or, Pow2;
    var differentbits := 0;
    EightBits();
    for i := 0 to |x|
      invariant 0 <= differentbits < 256
      invariant differentbits == 0 <==> x[..i] == y[..i]
    {
      XorZero(x[i], y[i]);
      XorBound(x[i], y[i], 8);
      OrZeroIff(differentbits, Xor(x[i], y[i]));
      OrBound(differentbits, Xor(x[i], y[i]), 8);
      assert x[..i + 1] == x[..i] + [x[i]] && y[..i + 1] == y[..i] + [y[i]];
      differentbits := Or(differentbits, Xor(x[i], y[i]));
    }
    assert x[..|x|] == x && y[..|x|] == y;
    r := W64(differentbits + TWO64 - 1) / TWO8 % 2 == 1;
  }

  lemma {:induction false} OrBound(a: nat, b: nat, k: nat)
    requires a < Pow2(k) && b < Pow2(k)
    ensures Or(a, b) < Pow2(k)
  {
    if a != 0 && b != 0 {
      OrBound(a / 2, b / 2, k - 1);
    }
  }

  /** Contracts an element and compares it with zero bytes. */
  method IsZeroElement(a: Fe, ghost v: int) returns (r: bool)
    requires Is(a, LOOSE, v)
    ensures r <==> Cong(v, 0)
  {
    hide Val, Cong, LE, Store;
    var check := Contract(a);
    r := Verify(check, Store(0, 32));
    ZeroResidue(check, Val(a), v);
  }

  lemma ZeroResidue(check: seq<byte>, a: int, v: int)
    requires |check| == 32 && LE(check) == a % P && Cong(a, v)
    ensures check == Store(0, 32) <==> Cong(v, 0)
  {
    hide LE, Store, Cong;
    StoreZero(32);
    CongMod(a);
    CongSym(a, v);
    if check == Store(0, 32) {
      CongTrans(v, a, 0);
    }
    if Cong(v, 0) {
      CongTrans(a, v, 0);
      CongTrans(a % P, a, 0);
      CongCanonical(a % P, 0);
      LEInjective(check, Store(0, 32));
    }
  }

  lemma {:induction false} StoreZero(n: nat)
    ensures LE(Store(0, n)) == 0
  {
    if n != 0 {
      assert Store(0, n)[1..] == Store(0, n - 1);
      StoreZero(n - 1);
    }
  }

  // ---- packing -------------------------------------------------------------

  /** The 32-byte encoding of section 5.1.2 of RFC 8032: y, with the low bit of x on top. */
  ghost predicate Encodes<E>(c: Curve<E>, s: seq<byte>, e: E) {
    |s| == 32 && LE(s) == c.y(e) + TWO255 * (c.x(e) % 2)
  }

  /** A coordinate from its scaled form and the inverse of the scale. */
  lemma Unscale(v: int, x: int, z: int)
    requires PrimeField() && Cong(v, x * z) && Unit(z)
    ensures Cong(v * Pow(z, P - 2), x)
  {
    hide PrimeField, Pow, Cong, Unit;
    var zi := Pow(z, P - 2);
    FermatInverse(z);
    CongRefl(zi);
    CongRefl(x);
    CongMul(v, x * z, zi, zi);
    CongMul(x, x, z * zi, 1);
    assert (x * z) * zi == x * (z * zi);
    CongTrans(v * zi, x * (z * zi), x);
  }

  lemma FermatInverse(z: int)
    requires PrimeField() && Unit(z)
    ensures Cong(z * Pow(z, P - 2), 1)
  {
    hide Cong, Unit;
    assert FermatAt(z);
    assert Pow(z, P - 1) == z * Pow(z, P - 2);
    UnitNonzero(z);
  }

  lemma CanonicalOf(w: int, x: int)
    requires Cong(w, x) && 0 <= x < P
    ensures w % P == x
  {
    hide Cong;
    CongMod(w);
    CongTrans(w % P, w, x);
    CongCanonical(w % P, x);
  }

  lemma UnitNonzero(z: int)
    requires Unit(z)
    ensures !Cong(z, 0)
  {
    if Cong(z, 0) {
      hide Cong;
      var w :| Inverse(z, w);
      CongRefl(w);
      CongMul(z, 0, w, w);
      CongSym(z * w, 1);
      CongTrans(1, z * w, 0);
      CongCanonical(1, 0);
    }
  }

  /** `r[31] ^= bit << 7` on an encoding below 2^255. */
  method SetSign(s: seq<byte>, bit: int) returns (r: seq<byte>)
    requires |s| == 32 && LE(s) < TWO255 && 0 <= bit <= 1
    ensures |r| == 32 && LE(r) == LE(s) + TWO255 * bit
  {
    hide LE, Xor, Pow2, Pow256;
    LastByte(s);
    SevenBits();
    XorDisjoint(s[31], bit, 7);
    r := s[31 := Xor(s[31], bit * 128)];
    LEUpdateLast(s, r[31]);
    Pow256Top();
    if bit == 0 {
      assert r[31] - s[31] == 0;
    } else {
      assert r[31] - s[31] == 128;
    }
  }

  lemma SevenBits()
    ensures Pow2(7) == 128
  {
  }

  lemma LastByte(s: seq<byte>)
    requires |s| == 32 && LE(s) < TWO255
    ensures s[31] < 128
  {
    hide LE, Pow256;
    assert s == s[..31] + [s[31]];
    LEAppend(s[..31], [s[31]]);
    LESingle(s[31]);
    Pow256Top();
  }

  lemma LESingle(b: byte)
    ensures LE([b]) == b
  {
    assert [b][1..] == [];
  }

  lemma Pow256Top()
    ensures Pow256(31) * 128 == TWO255
  {
    hide Pow256;
    Pow256Eight();
    Pow256Add(8, 8);
    Pow256Add(16, 8);
    Pow256Seven();
    Pow256Add(24, 7);
  }

  lemma LEUpdateLast(s: seq<byte>, b: byte)
    requires |s| == 32
    ensures LE(s[31 := b]) == LE(s) + Pow256(31) * (b - s[31])
  {
    hide LE, Pow256;
    assert s == s[..31] + [s[31]] && s[31 := b] == s[..31] + [b];
    LEAppend(s[..31], [s[31]]);
    LEAppend(s[..31], [b]);
    LESingle(s[31]);
    LESingle(b);
  }

  /** The low bit of the first byte is the parity of the number. */
  lemma LowBit(s: seq<byte>)
    requires |s| == 32
    ensures s[0] % 2 == LE(s) % 2
  {
  }

  /** ge25519_pack */
  method Pack<E(!new)>(p: Ge, ghost c: Curve<E>, ghost e: E) returns (r: seq<byte>)
    requires Valid(c) && PrimeField() && PartialOf(c, p, e)
    ensures Encodes(c, r, e)
    ensures |r| == 32 && LE(r) == c.y(e) + TWO255 * (c.x(e) % 2)
  {
    hide CurveGroup.Valid, PrimeField, OnCurve, Unit, Val, Cong, LE, Pow;
    Coordinates(c, e);
    ghost var z := Val(p.z);
    ghost var zi := Pow(z, P - 2);
    CongRefl(z); CongRefl(Val(p.x)); CongRefl(Val(p.y));
    var recip := Recip(p.z, z);
    var tx := Mul(p.x, recip, Val(p.x), zi);
    var ty := Mul(p.y, recip, Val(p.y), zi);
    r := Contract(ty);
    var parity := Contract(tx);
    Unscale(Val(p.x), c.x(e), z);
    Unscale(Val(p.y), c.y(e), z);
    CongTrans(Val(tx), Val(p.x) * zi, c.x(e));
    CongTrans(Val(ty), Val(p.y) * zi, c.y(e));
    CanonicalOf(Val(tx), c.x(e));
    CanonicalOf(Val(ty), c.y(e));
    LowBit(parity);
    r := SetSign(r, parity[0] % 2);
  }

  lemma SameResidue(a: int, b: int)
    requires Cong(a, b)
    ensures a % P == b % P
  {
    hide Cong;
    CongMod(a);
    CongMod(b);
    CongTrans(a % P, a, b);
    CongTrans(a % P, b, b % P);
    CongCanonical(a % P, b % P);
  }

  // ---- unpacking -----------------------------------------------------------

  /** x^2 is Num(y) / Den(y) on the curve. */
  ghost function Num(y: int): int {
    y * y - 1
  }

  ghost function Den(y: int): int {
    (y * y) * D + 1
  }

  ghost predicate IsRoot(x: int, n: int, d: int) {
    Cong((x * x) * d, n)
  }

  lemma RootIffOnCurve(x: int, y: int)
    ensures IsRoot(x, Num(y), Den(y)) <==> OnCurve(x, y)
  {
    var l, r, n := y * y - x * x, 1 + D * (x * x) * (y * y), Num(y);
    var s := (x * x) * Den(y);
    CurveEquation(x * x, y * y);
    assert l - r == n - s;
    hide Cong, Num, Den;
    if Cong(s, n) {
      CongSym(s, n);
      CongRefl(r - s);
      CongAdd(n, s, r - s, r - s);
    }
    if Cong(l, r) {
      CongSym(l, r);
      CongRefl(s - r);
      CongAdd(r, l, s - r, s - r);
    }
  }

  lemma CurveEquation(a: int, b: int)
    ensures (b - a) - (1 + D * a * b) == (b - 1) - a * (b * D + 1)
  {
    assert a * (b * D + 1) == D * a * b + a;
  }

  /** The candidate root num den^3 (num den^7)^((p-5)/8). */
  ghost function Cubed(d: int): int {
    (d * d) * d
  }

  ghost function Radicand(n: int, d: int): int {
    ((Cubed(d) * Cubed(d)) * d) * n
  }

  ghost function Candidate(n: int, d: int): int {
    (Pow(Radicand(n, d), ROOT_EXPONENT) * Cubed(d)) * n
  }

  const HALF: int := 2 * ROOT_EXPONENT + 1

  lemma CandidateSquared(n: int, d: int)
    ensures (Candidate(n, d) * Candidate(n, d)) * d == n * Pow(Radicand(n, d), HALF)
  {
    var w, k, c := Radicand(n, d), ROOT_EXPONENT, Cubed(d);
    assert w == ((c * c) * d) * n;
    assert Candidate(n, d) == (Pow(w, k) * c) * n;
    PowAdd(w, k, k);
    assert Pow(w, HALF) == w * Pow(w, k + k);
    hide Pow, Radicand, Candidate, Cubed;
    Regroup(Pow(w, k), c, n, d);
  }

  lemma Regroup(q: int, c: int, n: int, d: int)
    ensures (((q * c) * n) * ((q * c) * n)) * d == n * ((((c * c) * d) * n) * (q * q))
  {
    var m := (c * c) * d;
    assert (((q * c) * n) * ((q * c) * n)) * d == ((q * q) * (n * n)) * m by {
      assert ((q * c) * n) * ((q * c) * n) == ((q * q) * (n * n)) * (c * c);
    }
    assert n * ((m * n) * (q * q)) == ((q * q) * (n * n)) * m;
  }

  lemma {:induction false} CongPow(a: int, b: int, k: nat)
    requires Cong(a, b)
    ensures Cong(Pow(a, k), Pow(b, k))
  {
    hide Cong;
    if k == 0 {
      CongRefl(1);
    } else {
      CongPow(a, b, k - 1);
      CongMul(a, b, Pow(a, k - 1), Pow(b, k - 1));
    }
  }

  lemma CongZeroMul(a: int, b: int)
    requires Cong(a, 0)
    ensures Cong(a * b, 0) && Cong(b * a, 0)
  {
    hide Cong;
    CongRefl(b);
    CongMul(a, 0, b, b);
  }

  /** Euler: the half power of a non-zero residue is 1 or -1. */
  lemma HalfPower(u: int)
    requires PrimeField() && !Cong(u, 0)
    ensures Cong(Pow(u, 2 * HALF), 1) || Cong(Pow(u, 2 * HALF), -1)
  {
    assert FermatAt(u);
    var v := Pow(u, 2 * HALF);
    PowAdd(u, 2 * HALF, 2 * HALF);
    assert 4 * HALF == P - 1;
    assert NoZeroDivisorAt(v - 1, v + 1);
    hide PrimeField, Pow, Cong;
    assert Cong(v * v, 1);
    assert (v - 1) * (v + 1) == v * v - 1;
    CongRefl(1);
    CongAdd(v * v, 1, 1, 1);
    if Cong(v - 1, 0) {
      CongAdd(v - 1, 0, 1, 1);
    } else {
      CongAdd(v + 1, 0, 1, 1);
    }
  }

  /** den^7 num is a square when num / den is. */
  lemma RadicandIsSquare(x: int, n: int, d: int)
    requires IsRoot(x, n, d)
    ensures Cong(Radicand(n, d), (((d * d) * (d * d)) * x) * (((d * d) * (d * d)) * x))
  {
    var m := (Cubed(d) * Cubed(d)) * d;
    var u := ((d * d) * (d * d)) * x;
    EighthPower(x, d);
    hide Cong, Cubed;
    CongSym((x * x) * d, n);
    CongRefl(m);
    CongMul(m, m, n, (x * x) * d);
    assert m * ((x * x) * d) == u * u;
  }

  lemma EighthPower(x: int, d: int)
    ensures ((Cubed(d) * Cubed(d)) * d) * ((x * x) * d)
         == (((d * d) * (d * d)) * x) * (((d * d) * (d * d)) * x)
  {
    var e := d * d;
    assert Cubed(d) == e * d;
    hide Cubed;
    SquareOfProduct(e, d);
    SixAndTwo(e, d, x);
    SquareOfProduct(e * e, x);
  }

  lemma SquareOfProduct(a: int, b: int)
    ensures (a * b) * (a * b) == (a * a) * (b * b)
  {
  }

  lemma SixAndTwo(e: int, d: int, x: int)
    requires e == d * d
    ensures (((e * e) * e) * d) * ((x * x) * d) == ((e * e) * (e * e)) * (x * x)
  {
    var f := (e * e) * e;
    assert (f * d) * ((x * x) * d) == (f * (d * d)) * (x * x);
    assert f * e == (e * e) * (e * e);
  }

  /** A root that makes the radicand vanish makes num vanish. */
  lemma ZeroRadicand(x: int, n: int, d: int)
    requires PrimeField() && IsRoot(x, n, d) && Cong(((d * d) * (d * d)) * x, 0)
    ensures Cong(n, 0)
  {
    assert NoZeroDivisorAt((d * d) * (d * d), x) && NoZeroDivisorAt(d * d, d * d) && NoZeroDivisorAt(d, d);
    hide PrimeField, Cong;
    if Cong(x, 0) {
      CongZeroMul(x, x);
      CongZeroMul(x * x, d);
    } else {
      CongZeroMul(d, x * x);
    }
    CongSym((x * x) * d, n);
    CongTrans(n, (x * x) * d, 0);
  }

  /** If num / den has a root at all, one of the two tests accepts the candidate. */
  lemma RootFound(x: int, n: int, d: int)
    requires PrimeField() && IsRoot(x, n, d)
    ensures IsRoot(Candidate(n, d), n, d) || Cong((Candidate(n, d) * Candidate(n, d)) * d, -n)
  {
    var u := ((d * d) * (d * d)) * x;
    var h := Pow(Radicand(n, d), HALF);
    CandidateSquared(n, d);
    if Cong(u, 0) {
      ZeroRadicand(x, n, d);
      hide PrimeField, Pow, Cong, Radicand, Candidate;
      CongZeroMul(n, h);
      CongSym(n, 0);
      CongTrans(n * h, 0, n);
    } else {
      HalfRadicand(x, n, d);
      hide PrimeField, Pow, Cong, Radicand, Candidate;
      CongRefl(n);
      if Cong(h, 1) {
        CongMul(n, n, h, 1);
      } else {
        CongMul(n, n, h, -1);
        assert n * -1 == -n;
      }
    }
  }

  lemma PowTwo(u: int)
    ensures Pow(u, 2) == u * u
  {
    assert Pow(u, 1) == u;
  }

  lemma HalfRadicand(x: int, n: int, d: int)
    requires PrimeField() && IsRoot(x, n, d) && !Cong(((d * d) * (d * d)) * x, 0)
    ensures Cong(Pow(Radicand(n, d), HALF), 1) || Cong(Pow(Radicand(n, d), HALF), -1)
  {
    var u := ((d * d) * (d * d)) * x;
    var w := Radicand(n, d);
    RadicandIsSquare(x, n, d);
    HalfPower(u);
    PowTwo(u);
    hide PrimeField, Pow, Cong, Radicand;
    CongPow(w, u * u, HALF);
    PowPow(u, 2, HALF);
    var v := Pow(u, 2 * HALF);
    if Cong(v, 1) {
      CongTrans(Pow(w, HALF), v, 1);
    } else {
      CongTrans(Pow(w, HALF), v, -1);
    }
  }

  /** The second test passes: multiplying by the root of -1 gives a root. */
  lemma OtherRoot(x: int, n: int, d: int)
    requires Cong((x * x) * d, -n)
    ensures IsRoot(x * SQRTM1, n, d)
  {
    var i := SQRTM1;
    CurveGroup.Constants();
    hide Cong;
    CongMul((x * x) * d, -n, i * i, -1);
    assert ((x * x) * d) * (i * i) == ((x * i) * (x * i)) * d by {
      assert (x * i) * (x * i) == (x * x) * (i * i);
    }
    assert -n * -1 == n;
  }

  /** den never vanishes where there is a point. */
  lemma DenNonzero(x: int, y: int)
    requires OnCurve(x, y)
    ensures !Cong(Den(y), 0)
  {
    hide Cong, OnCurve;
    var n, d := Num(y), Den(y);
    RootIffOnCurve(x, y);
    if Cong(d, 0) {
      assert d == n * D + (D + 1);
      hide Num, Den;
      CongZeroMul(d, x * x);
      CongSym((x * x) * d, n);
      CongTrans(n, (x * x) * d, 0);
      CongZeroMul(n, D);
      CongRefl(D + 1);
      CongAdd(n * D, 0, D + 1, D + 1);
      CongSym(d, D + 1);
      CongTrans(D + 1, d, 0);
      NotMinusOne();
    }
  }

  lemma NotMinusOne()
    ensures !Cong(D + 1, 0)
  {
    hide Cong;
    ConstantValues();
    if Cong(D + 1, 0) {
      CongCanonical(D + 1, 0);
    }
  }

  /** At most two points share a y. */
  lemma RootsOpposite(x: int, x': int, y: int)
    requires PrimeField() && OnCurve(x, y) && OnCurve(x', y)
    ensures Cong(x, x') || Cong(x, -x')
  {
    hide PrimeField, Cong, Num, Den, OnCurve;
    var n, d := Num(y), Den(y);
    DenNonzero(x, y);
    RootIffOnCurve(x, y);
    RootIffOnCurve(x', y);
    CongAdd((x * x) * d, n, (x' * x') * d, n);
    SquareDifference(x, x', d);
    ZeroDivisor((x - x') * (x + x'), d);
    ZeroDivisor(x - x', x + x');
    ZeroDifference(x, x');
    ZeroDifference(x, -x');
  }

  lemma ZeroDivisor(a: int, b: int)
    requires PrimeField() && Cong(a * b, 0)
    ensures Cong(a, 0) || Cong(b, 0)
  {
    assert NoZeroDivisorAt(a, b);
  }

  lemma SquareDifference(a: int, b: int, d: int)
    ensures ((a - b) * (a + b)) * d == (a * a) * d - (b * b) * d
  {
    assert (a - b) * (a + b) == a * a - b * b;
  }

  /** num and den of a y. */
  method Fraction(y: Fe, ghost v: int) returns (num: Fe, den: Fe)
    requires Is(y, LOOSE, v)
    ensures Is(num, REDUCED, Num(v)) && Is(den, SEMI, Den(v))
  {
    UnitOne();
    ConstantLimbs();
    CongRefl(1);
    assert Val(ONE_FE) == 1;
    hide Val, Cong;
    num := Square(y, v);
    den := Mul(num, ECD, v * v, D);
    num := SubReduce(num, ONE_FE, v * v, 1);
    den := Add(den, ONE_FE, REDUCED, 1, (v * v) * D, 1);
  }

  method RootCandidate(num: Fe, den: Fe, ghost n: int, ghost d: int) returns (x: Fe)
    requires Is(num, SEMI, n) && Is(den, SEMI, d)
    ensures Is(x, REDUCED, Candidate(n, d))
  {
    hide Val, Cong, Pow;
    var t := Square(den, d);
    var d3 := Mul(t, den, d * d, d);
    ghost var c := Cubed(d);
    x := Square(d3, c);
    x := Mul(x, den, c * c, d);
    x := Mul(x, num, (c * c) * d, n);
    x := PowRoot(x, Radicand(n, d));
    x := Mul(x, d3, Pow(Radicand(n, d), ROOT_EXPONENT), c);
    x := Mul(x, num, Pow(Radicand(n, d), ROOT_EXPONENT) * c, n);
  }

  ghost predicate HasRoot(n: int, d: int) {
    exists x :: IsRoot(x, n, d)
  }

  /** The candidate, corrected by the root of -1 where the second test says so. Over a prime field
      the search fails only if there is no root. */
  method FindRoot(num: Fe, den: Fe, ghost n: int, ghost d: int) returns (ok: bool, x: Fe, ghost v: int)
    requires Is(num, REDUCED, n) && Is(den, SEMI, d)
    ensures ok ==> Is(x, REDUCED, v) && IsRoot(v, n, d)
    ensures PrimeField() && HasRoot(n, d) ==> ok
  {
    hide Val, Cong, Candidate, PrimeField, HasRoot;
    ConstantLimbs();
    RootSearch(n, d);
    x := RootCandidate(num, den, n, d);
    v := Candidate(n, d);
    var t := Square(x, v);
    t := Mul(t, den, v * v, d);
    ghost var s := (v * v) * d;
    var root := SubReduce(t, num, s, n);
    ok := IsZeroElement(root, s - n);
    ZeroDifference(s, n);
    if !ok {
      t := AddReduce(t, num, s, n);
      ok := IsZeroElement(t, s + n);
      ZeroDifference(s, -n);
      if ok {
        x := Mul(x, SQRTNEG1, v, SQRTM1);
        OtherRoot(v, n, d);
        v := v * SQRTM1;
      }
    }
  }

  lemma RootSearch(n: int, d: int)
    ensures PrimeField() && HasRoot(n, d) ==>
      IsRoot(Candidate(n, d), n, d) || Cong((Candidate(n, d) * Candidate(n, d)) * d, -n)
  {
    hide Candidate, PrimeField, Cong;
    if PrimeField() && HasRoot(n, d) {
      var x :| IsRoot(x, n, d);
      RootFound(x, n, d);
    }
  }

  lemma ZeroDifference(a: int, b: int)
    ensures Cong(a - b, 0) <==> Cong(a, b)
  {
    hide Cong;
    CongRefl(b);
    if Cong(a - b, 0) {
      CongAdd(a - b, 0, b, b);
    }
    if Cong(a, b) {
      CongAdd(a, b, b, b);
    }
  }

  lemma TopBit(s: seq<byte>)
    requires |s| == 32
    ensures s[31] / 128 == LE(s) / TWO255
  {
    hide LE, Pow256;
    assert s == s[..31] + [s[31]];
    LEAppend(s[..31], [s[31]]);
    LESingle(s[31]);
    LEBound(s[..31]);
    Pow256Top();
    var w, q := Pow256(31), s[31] / 128;
    assert w * s[31] == (w * 128) * q + w * (s[31] % 128);
    MulBound(w, s[31] % 128, w, 127);
    ModUnique(LE(s), TWO255, q, LE(s) - TWO255 * q);
  }

  /** What a decoded point satisfies: it is on the curve, T is XY and Z is 1, and the parity of a
      non-zero x is not the one in the encoding. */
  ghost predicate Decoded(r: Ge, p: seq<byte>)
    requires |p| == 32
  {
    && Within(r.x, REDUCED) && Within(r.y, REDUCED) && r.z == ONE_FE
    && Val(r.y) == LE(p) % TWO255
    && OnCurve(Val(r.x), Val(r.y))
    && Is(r.t, REDUCED, Val(r.x) * Val(r.y))
    && (Val(r.x) % P != 0 ==> Val(r.x) % P % 2 != LE(p) / TWO255)
  }

  /** Some point of the curve has this y. */
  ghost predicate OnSomePoint(y: int) {
    exists x :: OnCurve(x, y)
  }

  lemma SomePoint(x: int, y: int)
    requires OnCurve(x, y)
    ensures OnSomePoint(y)
  {
    hide OnCurve;
  }

  lemma SomePointIff(y: int)
    ensures OnSomePoint(y) <==> exists x :: OnCurve(x, y)
  {
    hide OnCurve;
  }

  lemma RootIffPoint(y: int)
    ensures HasRoot(Num(y), Den(y)) <==> OnSomePoint(y)
  {
    hide Num, Den, OnCurve, IsRoot;
    if x :| IsRoot(x, Num(y), Den(y)) {
      RootIffOnCurve(x, y);
    }
    if x :| OnCurve(x, y) {
      RootIffOnCurve(x, y);
    }
  }

  /** ge25519_unpack_negative_vartime */
  method UnpackNegative(p: seq<byte>) returns (ok: bool, r: Ge)
    requires |p| == 32
    ensures ok ==> Decoded(r, p)
    ensures ok ==> Val(r.y) == LE(p) % TWO255 && (Val(r.x) % P != 0 ==> Val(r.x) % P % 2 != LE(p) / TWO255)
    ensures PrimeField() ==> (ok <==> OnSomePoint(LE(p) % TWO255))
    ensures PrimeField() ==> (ok <==> exists x :: OnCurve(x, LE(p) % TWO255))
  {
    hide Val, Cong, LE, Num, Den, Candidate, OnCurve, IsRoot, HasRoot, OnSomePoint, PrimeField;
    var parity := p[31] / 128;
    TopBit(p);
    var y := Expand(p);
    ghost var w := Val(y);
    CongRefl(w);
    RootIffPoint(w);
    SomePointIff(w);
    var num, den := Fraction(y, w);
    var x;
    ghost var v;
    ok, x, v := FindRoot(num, den, Num(w), Den(w));
    r := Ge(x, y, ONE_FE, ONE_FE);
    if !ok {
      return;
    }
    RootIffOnCurve(v, w);
    SomePoint(v, w);
    x := Orient(x, parity, w, v);
    ghost var u := Val(x);
    CongRefl(u);
    var t := Mul(x, y, u, w);
    r := Ge(x, y, ONE_FE, t);
  }

  /** Negates the root if its parity is the encoded one. */
  method Orient(x0: Fe, parity: int, ghost y: int, ghost v: int) returns (x: Fe)
    requires Is(x0, REDUCED, v) && OnCurve(v, y)
    ensures Within(x, REDUCED) && OnCurve(Val(x), y)
    ensures Val(x) % P != 0 ==> Val(x) % P % 2 != parity
  {
    hide Val, Cong, LE, OnCurve;
    x := x0;
    var check := Contract(x);
    LowBit(check);
    if check[0] % 2 == parity {
      CongRefl(Val(x0));
      x := Neg(x0, Val(x0));
      NegatedParity(Val(x), Val(x0));
      CongSym(Val(x0), v);
      OppositeRoot(v, Val(x), Val(x0), y);
    } else {
      RootCong(v, Val(x), y);
    }
  }

  lemma RootCong(v: int, x: int, y: int)
    requires OnCurve(v, y) && Cong(x, v)
    ensures OnCurve(x, y)
  {
    RootIffOnCurve(v, y);
    RootIffOnCurve(x, y);
    var n, d := Num(y), Den(y);
    hide Cong, OnCurve, Num, Den;
    CongMul(x, v, x, v);
    CongRefl(d);
    CongMul(x * x, v * v, d, d);
    CongTrans((x * x) * d, (v * v) * d, n);
  }

  lemma OppositeRoot(v: int, x: int, x0: int, y: int)
    requires OnCurve(v, y) && Cong(x0, v) && Cong(x, -x0)
    ensures OnCurve(x, y)
  {
    RootCong(v, x0, y);
    assert (-x0) * (-x0) == x0 * x0;
    RootCong(-x0, x, y);
  }

  /** p is odd, so the representatives of a and -a have opposite parities unless both are 0. */
  lemma NegatedParity(a: int, b: int)
    requires Cong(a, -b)
    ensures a % P == 0 <==> b % P == 0
    ensures a % P != 0 ==> a % P % 2 != b % P % 2
  {
    if b % P == 0 {
      hide Cong;
      CongMod(b);
      CongRefl(0);
      CongAdd(0, 0, b, b % P);
      CongTrans(a, -b, 0);
      SameResidue(a, 0);
    } else {
      hide Cong;
      CongMod(b);
      CongRefl(0);
      CongRefl(P);
      CongAdd(0, 0, b, b % P);
      CongTrans(a, -b, -(b % P));
      CongIntro(-(b % P), P - b % P, -1);
      CongTrans(a, -(b % P), P - b % P);
      SameResidue(a, P - b % P);
    }
  }

  // ---- what a string decodes to --------------------------------------------

  /** The lenient reading of 32 bytes as a point: y is taken modulo p, and the top bit is ignored
      when x is 0. */
  ghost predicate Denotes<E>(c: Curve<E>, s: seq<byte>, e: E) {
    |s| == 32 && Cong(c.y(e), LE(s) % TWO255) && (c.x(e) != 0 ==> c.x(e) % 2 == LE(s) / TWO255)
  }

  lemma EncodesDenotes<E(!new)>(c: Curve<E>, s: seq<byte>, e: E)
    requires Valid(c) && Encodes(c, s, e)
    ensures Denotes(c, s, e)
  {
    assert CoordinatesAt(c, e);
    SplitEncoding(LE(s), c.y(e), c.x(e) % 2);
    CongRefl(c.y(e));
  }

  /** Decoding a string that denotes e succeeds with a representation of -e. */
  lemma DecodesNegative<E(!new)>(c: Curve<E>, p: seq<byte>, e: E, r: Ge)
    requires Valid(c) && PrimeField() && Denotes(c, p, e)
    ensures OnSomePoint(LE(p) % TWO255)
    ensures Decoded(r, p) ==> FullOf(c, r, c.neg(e))
  {
    hide CurveGroup.Valid, PrimeField, OnCurve, Cong, Val, LE, FullOf;
    Coordinates(c, e);
    var x, y, w := c.x(e), c.y(e), LE(p) % TWO255;
    CongRefl(x);
    CurveCong(x, y, x, w);
    if Decoded(r, p) {
      RootsOpposite(Val(r.x), x, w);
      OppositeSign(Val(r.x), x, LE(p) / TWO255);
      NegativeAt(c, r, e);
    }
  }

  lemma NegativeAt<E>(c: Curve<E>, r: Ge, e: E)
    requires NegAt(c, e) && Within(r.x, REDUCED) && Within(r.y, REDUCED) && r.z == ONE_FE
    requires Cong(Val(r.x), -c.x(e)) && Cong(c.y(e), Val(r.y)) && Is(r.t, REDUCED, Val(r.x) * Val(r.y))
    ensures FullOf(c, r, c.neg(e))
  {
    var x, y := c.x(c.neg(e)), c.y(e);
    assert Val(ONE_FE) == 1;
    UnitOne();
    CongRefl(1);
    hide Cong, Val, Unit;
    CongSym(x, -c.x(e));
    CongTrans(Val(r.x), -c.x(e), x);
    CongSym(y, Val(r.y));
    CongMul(Val(r.x), x, Val(r.y), y);
    CongTrans(Val(r.t), Val(r.x) * Val(r.y), x * y);
    FullIntro(c, r, c.neg(e), 1);
  }

  lemma CurveCong(x: int, y: int, x': int, y': int)
    requires OnCurve(x, y) && Cong(x', x) && Cong(y, y')
    ensures OnCurve(x', y')
  {
    var a, b, a', b' := x * x, y * y, x' * x', y' * y';
    assert Cong(b - a, 1 + D * a * b);
    hide Cong;
    CongSym(y, y');
    CongMul(x', x, x', x);
    CongMul(y', y, y', y);
    CongAdd(b', b, a', a);
    CongTrans(b' - a', b - a, 1 + D * a * b);
    CongRefl(D);
    CongRefl(1);
    CongMul(D, D, a', a);
    CongMul(D * a', D * a, b', b);
    CongAdd(1, 1, D * a' * b', D * a * b);
    CongSym(1 + D * a' * b', 1 + D * a * b);
    CongTrans(b' - a', 1 + D * a * b, 1 + D * a' * b');
  }

  /** Whatever is decoded is the negative of a point the string denotes. */
  lemma DecodedDenotes<E(!new)>(c: Curve<E>, p: seq<byte>, r: Ge) returns (e: E)
    requires Valid(c) && Faithful(c) && |p| == 32 && Decoded(r, p)
    ensures Denotes(c, p, e) && FullOf(c, r, c.neg(e))
  {
    hide CurveGroup.Valid, Faithful, OnCurve, Cong, Val, LE, FullOf;
    var u, w := Val(r.x), Val(r.y);
    var x, y := Mirror(u, w);
    e := Named(c, x, y);
    SignBit(p);
    MirrorParity(u, x, LE(p) / TWO255);
    CongRefl(0);
    CongAdd(0, 0, -u, x);
    NegativeAt(c, r, e);
  }

  lemma MirrorParity(u: int, x: int, b: int)
    requires Cong(x, -u) && 0 <= x < P && 0 <= b <= 1 && (u % P != 0 ==> u % P % 2 != b)
    ensures x != 0 ==> x % 2 == b
  {
    hide Cong;
    NegatedParity(x, u);
    assert x % P == x;
  }

  /** The element at a point of the curve. */
  lemma Named<E(!new)>(c: Curve<E>, x: int, y: int) returns (e: E)
    requires Valid(c) && Faithful(c) && 0 <= x < P && 0 <= y < P && OnCurve(x, y)
    ensures c.x(e) == x && c.y(e) == y && NegAt(c, e)
  {
    assert ReachedAt(c, x, y);
    hide OnCurve;
    e :| c.x(e) == x && c.y(e) == y;
    assert NegAt(c, e);
  }

  lemma SignBit(p: seq<byte>)
    requires |p| == 32
    ensures 0 <= LE(p) / TWO255 <= 1
  {
    TopBit(p);
  }

  /** The canonical coordinates of the mirrored point. */
  lemma Mirror(u: int, w: int) returns (x: int, y: int)
    requires OnCurve(u, w)
    ensures 0 <= x < P && 0 <= y < P && Cong(x, -u) && Cong(-u, x) && Cong(y, w) && OnCurve(x, y)
  {
    hide OnCurve, Cong;
    x, y := (-u) % P, w % P;
    CongMod(-u);
    CongMod(w);
    CongRefl(u);
    CongRefl(-u);
    OppositeRoot(u, -u, u, w);
    CurveCong(-u, w, x, y);
  }

  lemma DenotesUnique<E(!new)>(c: Curve<E>, s: seq<byte>, e: E, f: E)
    requires Valid(c) && Faithful(c) && PrimeField() && Denotes(c, s, e) && Denotes(c, s, f)
    ensures e == f
  {
    assert CoordinatesAt(c, e) && CoordinatesAt(c, f) && SameAt(c, e, f);
    var x, x', y := c.x(e), c.x(f), c.y(e);
    hide CurveGroup.Valid, Faithful, PrimeField, OnCurve, Cong, LE;
    CongSym(c.y(f), LE(s) % TWO255);
    CongTrans(y, LE(s) % TWO255, c.y(f));
    CongCanonical(y, c.y(f));
    RootsOpposite(x, x', y);
    SameRoot(x, x', LE(s) / TWO255);
  }

  /** Roots with the same parity bit are the same. */
  lemma SameRoot(x: int, x': int, b: int)
    requires 0 <= x < P && 0 <= x' < P && (Cong(x, x') || Cong(x, -x'))
    requires (x != 0 ==> x % 2 == b) && (x' != 0 ==> x' % 2 == b)
    ensures x == x'
  {
    hide Cong;
    if Cong(x, x') {
      CongCanonical(x, x');
    } else {
      NegatedParity(x, x');
    }
  }

  lemma SplitEncoding(s: int, y: int, b: int)
    requires s == y + TWO255 * b && 0 <= y < P
    ensures s % TWO255 == y && s / TWO255 == b
  {
    ModUnique(s, TWO255, b, y);
  }

  /** Of a root and its negative, the wrong parity picks the negative. */
  lemma OppositeSign(v: int, x: int, b: int)
    requires 0 <= x < P && (Cong(v, x) || Cong(v, -x))
    requires (x != 0 ==> x % 2 == b) && (v % P != 0 ==> v % P % 2 != b)
    ensures Cong(v, -x)
  {
    hide Cong;
    if Cong(v, x) {
      SameResidue(v, x);
      CongMod(v);
    }
  }

  /** A string denotes a point exactly if its y is that of a point of the curve, so decoding succeeds
      exactly on the strings that denote one. */
  lemma DenotedIff<E(!new)>(c: Curve<E>, p: seq<byte>)
    requires Valid(c) && Faithful(c) && PrimeField() && |p| == 32
    ensures OnSomePoint(LE(p) % TWO255) <==> exists e :: Denotes(c, p, e)
  {
    hide CurveGroup.Valid, Faithful, PrimeField, OnCurve, Denotes, LE;
    if x :| OnCurve(x, LE(p) % TWO255) {
      var e := DenotedBy(c, p, x);
    }
    if e :| Denotes(c, p, e) {
      DecodesNegative(c, p, e, NEUTRAL);
    }
  }

  /** Of the two points with this y, the one whose sign is that of the string. */
  lemma DenotedBy<E(!new)>(c: Curve<E>, p: seq<byte>, x: int) returns (e: E)
    requires Valid(c) && Faithful(c) && |p| == 32 && OnCurve(x, LE(p) % TWO255)
    ensures Denotes(c, p, e)
  {
    hide CurveGroup.Valid, Faithful, OnCurve, Cong, LE;
    var w, b := LE(p) % TWO255, LE(p) / TWO255;
    var x1, y1 := Mirror(x, w);
    var x2, y2 := Mirror(x1, y1);
    CongTrans(y2, y1, w);
    SignBit(p);
    if x1 == 0 || x1 % 2 == b {
      e := Named(c, x1, y1);
    } else {
      OtherParity(x1, x2);
      e := Named(c, x2, y2);
    }
  }

  lemma OtherParity(x: int, x': int)
    requires Cong(x', -x) && 0 <= x < P && 0 <= x' < P && x != 0
    ensures x' % 2 != x % 2
  {
    hide Cong;
    var k := CongElim(x', -x);
    assert k == 1;
  }
}
