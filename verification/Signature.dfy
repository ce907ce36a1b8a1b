/** Key derivation, signing and verification (ed25519.c). */
module Signature {
  import opened Words
  import opened Bytes
  import opened CurveGroup
  import opened Points
  import opened PointGroup
  import opened PointCodec
  import opened Multiples
  import opened Digits
  import Modm
  import ModmCodec
  import ScalarMult
  import BaseMult
  import Sha512

  const L: int := Modm.L

  // ---- what section 5.1 of RFC 8032 prescribes -----------------------------

  const TWO254: int := 0x4000_0000_0000_0000_0000_0000_0000_0000_0000_0000_0000_0000_0000_0000_0000_0000

  const TWO253: int := 0x2000_0000_0000_0000_0000_0000_0000_0000_0000_0000_0000_0000_0000_0000_0000_0000

  const TWO245: int := 0x20_0000_0000_0000_0000_0000_0000_0000_0000_0000_0000_0000_0000_0000_0000_0000

  /** Clears the low three bits, clears bit 255 and sets bit 254. */
  function Clamp(n: nat): nat {
    TWO254 + n % TWO254 / 8 * 8
  }

  ghost function Secret(f: Sha512.Compress, sk: seq<byte>): nat {
    Clamp(LE(Sha512.Hash(f, sk)[..32]))
  }

  ghost function Nonce(f: Sha512.Compress, sk: seq<byte>, m: seq<byte>): nat {
    LE(Sha512.Hash(f, Sha512.Hash(f, sk)[32..] + m)) % L
  }

  ghost function Challenge(f: Sha512.Compress, rs: seq<byte>, pk: seq<byte>, m: seq<byte>): nat {
    LE(Sha512.Hash(f, rs + pk + m)) % L
  }

  /** A signature made with the secret key. */
  ghost predicate Signed<E>(f: Sha512.Compress, c: Curve<E>, b: E, sk: seq<byte>, pk: seq<byte>, m: seq<byte>,
                            rs: seq<byte>) {
    && |rs| == 64
    && Encodes(c, rs[..32], Times(c, Nonce(f, sk, m), b))
    && LE(rs[32..]) == (Nonce(f, sk, m) + Challenge(f, rs[..32], pk, m) * Secret(f, sk)) % L
  }

  /** The point whose encoding a signature has to start with, for public key a: [S]B - [h]a. */
  ghost function Expected<E>(f: Sha512.Compress, c: Curve<E>, b: E, a: E, pk: seq<byte>, m: seq<byte>, rs: seq<byte>): E
    requires |rs| == 64
  {
    Lin(c, Challenge(f, rs[..32], pk, m), c.neg(a), LE(rs[32..]), b)
  }

  ghost predicate AcceptedFor<E>(f: Sha512.Compress, c: Curve<E>, b: E, a: E, pk: seq<byte>, m: seq<byte>,
                                 rs: seq<byte>)
    requires |rs| == 64
  {
    Denotes(c, pk, a) && Encodes(c, rs[..32], Expected(f, c, b, a, pk, m, rs))
  }

  /** What verification decides: S is below 2^253 and the equation holds for the point that the
      public key denotes. */
  ghost predicate Verifies<E(!new)>(f: Sha512.Compress, c: Curve<E>, b: E, pk: seq<byte>, m: seq<byte>, rs: seq<byte>)
    requires |rs| == 64
  {
    LE(rs[32..]) < TWO253 && exists a :: AcceptedFor(f, c, b, a, pk, m, rs)
  }

  // ---- key derivation ------------------------------------------------------

  lemma HalfMod(x: nat, n: nat)
    requires n != 0
    ensures x % (2 * n) == x % 2 + 2 * (x / 2 % n)
  {
    ModUnique(x / 2, n, x / 2 / n, x / 2 % n);
    var q := x / 2 / n;
    assert x == 2 * (q * n + x / 2 % n) + x % 2;
    assert 2 * (q * n) == q * (2 * n);
    ModUnique(x, 2 * n, q, x % 2 + 2 * (x / 2 % n));
  }

  lemma AndEven(x: nat, b: nat)
    ensures And(x, 2 * b) == 2 * And(x / 2, b)
  {
  }

  lemma AndOdd(x: nat, b: nat)
    ensures And(x, 2 * b + 1) == x % 2 + 2 * And(x / 2, b)
  {
  }

  lemma AndQuarter(x: nat, b: nat)
    ensures And(x, 4 * b) == 4 * And(x / 4, b)
  {
    hide And;
    ModUnique(x, 4, x / 2 / 2, x % 2 + 2 * (x / 2 % 2));
    AndEven(x, 2 * b);
    AndEven(x / 2, b);
  }

  lemma OrBit(x: nat, b: nat)
    requires b != 0
    ensures Or(x, 2 * b) == x % 2 + 2 * Or(x / 2, b)
  {
  }

  /** A mask of k low ones keeps the low k bits. */
  lemma {:induction false} AndLow(x: nat, k: nat, n: nat)
    requires n == Pow2(k)
    ensures And(x, n - 1) == x % n
  {
    if k != 0 {
      var h := Pow2(k - 1);
      hide And;
      AndLow(x / 2, k - 1, h);
      AndOdd(x, h - 1);
      HalfMod(x, h);
    }
  }

  /** Setting the top bit of k + 1. */
  lemma {:induction false} OrTop(x: nat, k: nat, n: nat)
    requires n == Pow2(k) && x < 2 * n
    ensures Or(x, n) == n + x % n
  {
    if k != 0 {
      var h := Pow2(k - 1);
      hide Or;
      OrTop(x / 2, k - 1, h);
      OrBit(x, h);
      HalfMod(x, h);
    }
  }

  lemma BitCounts()
    ensures Pow2(3) == 8 && Pow2(5) == 32 && Pow2(6) == 64 && Pow2(7) == 128
  {
  }

  lemma ClearLow(x: byte)
    ensures And(x, 248) == x / 8 * 8
  {
    hide And, Pow2;
    BitCounts();
    AndQuarter(x, 62);
    AndEven(x / 4, 31);
    AndLow(x / 8, 5, 32);
  }

  lemma SetTop(x: byte)
    ensures And(x, 127) == x % 128 && Or(And(x, 127), 64) == 64 + x % 64
  {
    hide And, Or, Pow2;
    BitCounts();
    AndLow(x, 7, 128);
    OrTop(x % 128, 6, 64);
  }

  lemma Ends(s: seq<byte>)
    requires |s| == 32
    ensures LE(s) == s[0] + 256 * LE(s[1..31]) + TWO248 * s[31]
    ensures 256 * LE(s[1..31]) <= TWO248 - 256
  {
    hide LE, Pow256;
    LEStep(s);
    LEStep(s[1..]);
    ModmCodec.Pow256ThirtyTwo();
    assert s[1..] == s[1..31] + [s[31]];
    LEAppend(s[1..31], [s[31]]);
    LESingle(s[31]);
    LEBound(s[1..31]);
  }

  /** Clamping a number written out as 8 e + r + 256 m + 2^248 (64 q + t). */
  lemma ClampDigits(e: int, r: int, m: int, q: int, t: int)
    requires 0 <= e < 32 && 0 <= r < 8 && 0 <= m && 256 * m <= TWO248 - 256 && 0 <= q && 0 <= t < 64
    ensures Clamp(8 * e + r + 256 * m + TWO248 * (64 * q + t)) == 8 * e + 256 * m + TWO248 * (64 + t)
  {
    var low := 8 * e + r + 256 * m + TWO248 * t;
    ModUnique(8 * e + r + 256 * m + TWO248 * (64 * q + t), TWO254, q, low);
    ModUnique(low, 8, e + 32 * m + TWO245 * t, r);
  }

  /** The secret scalar is a multiple of 8 with bit 254 as its top bit, and its other bits are those of
      the hash. */
  lemma SecretBits(f: Sha512.Compress, sk: seq<byte>)
    ensures Secret(f, sk) % 8 == 0 && TWO254 <= Secret(f, sk) < TWO255
    ensures (Secret(f, sk) - TWO254) / 8 == LE(Sha512.Hash(f, sk)[..32]) % TWO254 / 8
  {
    hide LE, Sha512.Hash;
    var n := LE(Sha512.Hash(f, sk)[..32]);
    var e := n % TWO254 / 8;
    ModUnique(8 * e, 8, e, 0);
    ModUnique(TWO254 + 8 * e, 8, TWO254 / 8 + e, 0);
  }

  /** ed25519_extsk: the hash with the low three bits of byte 0 and the top bit of byte 31 cleared, and
      the bit below that set. */
  method ExtSk(f: Sha512.Compress, sk: seq<byte>) returns (extsk: seq<byte>)
    ensures |extsk| == 64 && LE(extsk[..32]) == Secret(f, sk) && extsk[32..] == Sha512.Hash(f, sk)[32..]
    ensures var h := Sha512.Hash(f, sk);
      extsk[0] == h[0] / 8 * 8 && extsk[1..31] == h[1..31] && extsk[31] == 64 + h[31] % 64
  {
    hide LE, Sha512.Hash, And, Or, Clamp;
    extsk := Sha512.HashOnce(f, sk);
    ghost var h, hash := extsk[..32], extsk;
    ClearLow(extsk[0]);
    SetTop(extsk[31]);
    extsk := extsk[0 := And(extsk[0], 248)];
    extsk := extsk[31 := And(extsk[31], 127)];
    extsk := extsk[31 := Or(extsk[31], 64)];
    Ends(h);
    Ends(extsk[..32]);
    assert h[1..31] == extsk[..32][1..31] == extsk[1..31] == hash[1..31];
    LEBound(h[1..31]);
    ClampDigits(h[0] / 8, h[0] % 8, LE(h[1..31]), h[31] / 64, h[31] % 64);
  }

  // ---- scalars -------------------------------------------------------------

  /** expand256_modm on the 32 or 64 bytes used here. */
  method Scalar(s: seq<byte>) returns (x: Limbs)
    requires |s| == 32 || |s| == 64
    ensures Carried(x) && Value(x) == LE(s) % L && x[4] < 0x2000_0000
  {
    hide LE, Radix56;
    x := ModmCodec.Expand256(s);
    Modm.ReducedTop(x);
  }

  /** A multiple of the order can be left out of a multiple of the base point. */
  lemma TimesMod<E(!new)>(c: Curve<E>, n: nat, b: E)
    requires Valid(c) && Times(c, L, b) == c.zero
    ensures Times(c, n % L, b) == Times(c, n, b)
  {
    hide CurveGroup.Valid, Times;
    var q := n / L;
    assert n == q * L + n % L;
    TimesTimes(c, q, L, b);
    TimesZero(c, q);
    TimesAdd(c, q * L, n % L, b);
    AddZero(c, Times(c, n % L, b));
    Comm(c, Times(c, q * L, b), Times(c, n % L, b));
  }

  /** Multiplies the base point and packs the result. */
  method PackMultiple<E(!new)>(a: Limbs, table: seq<seq<byte>>, ghost c: Curve<E>, ghost b: E) returns (s: seq<byte>)
    requires Valid(c) && PrimeField() && BaseMult.BaseTable(c, table, b) && Carried(a) && a[4] < 0x8000_0000
    ensures |s| == 32 && Encodes(c, s, Times(c, Value(a), b))
  {
    hide CurveGroup.Valid, PrimeField, BaseMult.BaseTable, Times, FullOf, PartialOf, LE, Radix56;
    var p := BaseMult.BaseScalarMult(table, a, c, b);
    FullIsPartial(c, p, Times(c, Value(a), b));
    s := Pack(p, c, Times(c, Value(a), b));
  }

  /** ed25519_publickey */
  method PublicKey<E(!new)>(f: Sha512.Compress, sk: seq<byte>, table: seq<seq<byte>>, ghost c: Curve<E>, ghost b: E)
    returns (pk: seq<byte>)
    requires Valid(c) && PrimeField() && BaseMult.BaseTable(c, table, b) && Times(c, L, b) == c.zero
    ensures Encodes(c, pk, Times(c, Secret(f, sk), b))
    ensures var n := LE(Sha512.Hash(f, sk)[..32]); Encodes(c, pk, Times(c, TWO254 + n % TWO254 / 8 * 8, b))
  {
    hide CurveGroup.Valid, PrimeField, BaseMult.BaseTable, Times, Encodes, LE, Secret, Radix56;
    var extsk := ExtSk(f, sk);
    var a := Scalar(extsk[..32]);
    TimesMod(c, LE(extsk[..32]), b);
    pk := PackMultiple(a, table, c, b);
    SecretIs(f, sk);
  }

  lemma SecretIs(f: Sha512.Compress, sk: seq<byte>)
    ensures var n := LE(Sha512.Hash(f, sk)[..32]); Secret(f, sk) == TWO254 + n % TWO254 / 8 * 8
  {
    hide LE, Sha512.Hash;
  }

  /** ed25519_hram */
  method Hram(f: Sha512.Compress, rs: seq<byte>, pk: seq<byte>, m: seq<byte>) returns (hash: seq<byte>)
    requires |rs| >= 32
    ensures hash == Sha512.Hash(f, rs[..32] + pk + m)
  {
    hide Sha512.Hash, Sha512.Fold, Sha512.Whole, Sha512.Rest, Sha512.Counts;
    var ctx := new Sha512.State(f);
    ctx.Update(rs[..32]);
    ctx.Update(pk);
    ctx.Update(m);
    assert [] + rs[..32] + pk + m == rs[..32] + pk + m;
    hash := ctx.Final();
  }

  method NonceHash(f: Sha512.Compress, tail: seq<byte>, m: seq<byte>) returns (hash: seq<byte>)
    ensures hash == Sha512.Hash(f, tail + m)
  {
    hide Sha512.Hash, Sha512.Fold, Sha512.Whole, Sha512.Rest, Sha512.Counts;
    var ctx := new Sha512.State(f);
    ctx.Update(tail);
    ctx.Update(m);
    assert [] + tail + m == tail + m;
    hash := ctx.Final();
  }

  lemma SumModulo(r: int, h: int, a: int)
    ensures (h * (a % L) % L + r) % L == (r + h * a) % L
  {
    var x, q := h * (a % L), a / L;
    var k := x / L;
    assert h * a == h * (q * L) + x by {
      assert a == q * L + a % L;
    }
    assert h * (q * L) == (h * q) * L;
    var s := x % L + r;
    assert r + h * a == (s / L + k + h * q) * L + s % L;
    ModUnique(r + h * a, L, s / L + k + h * q, s % L);
  }

  /** ed25519_sign */
  method Sign<E(!new)>(f: Sha512.Compress, m: seq<byte>, sk: seq<byte>, pk: seq<byte>, table: seq<seq<byte>>,
      ghost c: Curve<E>, ghost b: E) returns (rs: seq<byte>)
    requires Valid(c) && PrimeField() && BaseMult.BaseTable(c, table, b)
    ensures Signed(f, c, b, sk, pk, m, rs)
    ensures |rs| == 64 && Encodes(c, rs[..32], Times(c, LE(Sha512.Hash(f, Sha512.Hash(f, sk)[32..] + m)) % L, b))
    ensures var k, n := LE(Sha512.Hash(f, Sha512.Hash(f, sk)[32..] + m)), LE(Sha512.Hash(f, sk)[..32]);
      LE(rs[32..]) == (k % L + LE(Sha512.Hash(f, rs[..32] + pk + m)) % L * (TWO254 + n % TWO254 / 8 * 8)) % L
  {
    hide CurveGroup.Valid, PrimeField, BaseMult.BaseTable, Times, Encodes, LE, Radix56, Secret, Challenge, Sha512.Hash;
    var extsk := ExtSk(f, sk);
    var hashr := NonceHash(f, extsk[32..], m);
    var r := Scalar(hashr);
    var encoded := PackMultiple(r, table, c, b);
    var s := Response(f, encoded, pk, m, extsk[..32], r);
    rs := encoded + s;
    assert rs[..32] == encoded && rs[32..] == s;
    SecretIs(f, sk);
    ChallengeIs(f, encoded, pk, m);
  }

  lemma ChallengeIs(f: Sha512.Compress, rs: seq<byte>, pk: seq<byte>, m: seq<byte>)
    ensures Challenge(f, rs, pk, m) == LE(Sha512.Hash(f, rs + pk + m)) % L
  {
    hide LE, Sha512.Hash;
  }

  /** S = (r + H(R,A,m) a) mod L */
  method Response(f: Sha512.Compress, encoded: seq<byte>, pk: seq<byte>, m: seq<byte>, secret: seq<byte>, r: Limbs)
    returns (out: seq<byte>)
    requires |encoded| == 32 && |secret| == 32 && Carried(r) && Value(r) < L
    ensures |out| == 32 && LE(out) == (Value(r) + Challenge(f, encoded, pk, m) * LE(secret)) % L
  {
    hide LE, Radix56;
    var hram := Hram(f, encoded, pk, m);
    assert encoded[..32] == encoded;
    var s := Scalar(hram);
    var a := Scalar(secret);
    ghost var h := Value(s);
    s := Modm.Mul(s, a);
    s := Modm.Add(s, r);
    SumModulo(Value(r), h, LE(secret));
    Modm.ReducedTop(s);
    out := ModmCodec.Contract256(s);
  }

  // ---- verification --------------------------------------------------------

  /** RS[63] & 224 tests the top three bits of S. */
  lemma TopBits(s: seq<byte>)
    requires |s| == 32
    ensures And(s[31], 224) == 0 <==> LE(s) < TWO253
  {
    hide And, LE;
    ClearLowFive(s[31]);
    Ends(s);
    LEBound(s[1..31]);
  }

  lemma ClearLowFive(x: byte)
    ensures And(x, 224) == 0 <==> x < 32
  {
    hide And, Pow2;
    BitCounts();
    AndQuarter(x, 56);
    AndQuarter(x / 4, 14);
    AndEven(x / 16, 7);
    AndLow(x / 32, 3, 8);
  }

  /** SB - H(R,A,m)A, packed. */
  method CheckPoint<E(!new)>(f: Sha512.Compress, m: seq<byte>, pk: seq<byte>, rs: seq<byte>, p: Ge, sliding: seq<Niels>,
      ghost c: Curve<E>, ghost b: E, ghost a: E) returns (s: seq<byte>)
    requires Valid(c) && PrimeField() && Times(c, L, b) == c.zero && FullOf(c, p, c.neg(a))
    requires |sliding| == 32 && ScalarMult.OddNiels(c, sliding, b) && |pk| == 32 && |rs| == 64
    ensures Encodes(c, s, Expected(f, c, b, a, pk, m, rs))
  {
    hide CurveGroup.Valid, PrimeField, ScalarMult.OddNiels, Times, FullOf, PartialOf, Encodes, LE, Radix56, Sha512.Hash;
    var hash := Hram(f, rs, pk, m);
    var hram := Scalar(hash);
    var sc := Scalar(rs[32..]);
    TimesMod(c, LE(rs[32..]), b);
    var R := ScalarMult.DoubleScalarMult(p, hram, sc, sliding, c, c.neg(a), b);
    s := Pack(R, c, Expected(f, c, b, a, pk, m, rs));
  }

  lemma TooLarge<E(!new)>(f: Sha512.Compress, c: Curve<E>, b: E, pk: seq<byte>, m: seq<byte>, rs: seq<byte>)
    requires |rs| == 64 && LE(rs[32..]) >= TWO253
    ensures !Verifies(f, c, b, pk, m, rs)
  {
  }

  lemma NotDenoted<E(!new)>(f: Sha512.Compress, c: Curve<E>, b: E, pk: seq<byte>, m: seq<byte>, rs: seq<byte>)
    requires Valid(c) && PrimeField() && |pk| == 32 && |rs| == 64 && !OnSomePoint(LE(pk) % TWO255)
    ensures !Verifies(f, c, b, pk, m, rs)
  {
    hide CurveGroup.Valid, PrimeField, OnSomePoint, Denotes, Encodes, Expected, LE;
    forall a ensures !Denotes(c, pk, a) {
      if Denotes(c, pk, a) {
        DecodesNegative(c, pk, a, NEUTRAL);
      }
    }
  }

  lemma Verdict<E(!new)>(f: Sha512.Compress, c: Curve<E>, b: E, a: E, pk: seq<byte>, m: seq<byte>, rs: seq<byte>,
                         s: seq<byte>)
    requires Valid(c) && Faithful(c) && PrimeField() && |rs| == 64 && LE(rs[32..]) < TWO253 && Denotes(c, pk, a)
    requires Encodes(c, s, Expected(f, c, b, a, pk, m, rs))
    ensures |s| == 32 && (rs[..32] == s <==> Verifies(f, c, b, pk, m, rs))
  {
    hide CurveGroup.Valid, Faithful, PrimeField, Denotes, Expected, LE;
    if rs[..32] == s {
      assert AcceptedFor(f, c, b, a, pk, m, rs);
    }
    if e :| AcceptedFor(f, c, b, e, pk, m, rs) {
      DenotesUnique(c, pk, a, e);
      LEInjective(rs[..32], s);
    }
  }

  /** ed25519_sign_open */
  method SignOpen<E(!new)>(f: Sha512.Compress, m: seq<byte>, pk: seq<byte>, rs: seq<byte>, sliding: seq<Niels>,
      ghost c: Curve<E>, ghost b: E) returns (r: int)
    requires Valid(c) && Faithful(c) && PrimeField() && Times(c, L, b) == c.zero
    requires |sliding| == 32 && ScalarMult.OddNiels(c, sliding, b) && |pk| == 32 && |rs| == 64
    ensures r == if Verifies(f, c, b, pk, m, rs) then 0 else -1
    ensures r == 0 <==>
      && LE(rs[32..]) < TWO253
      && exists a, q ::
        && Denotes(c, pk, a) && Encodes(c, rs[..32], q)
        && Times(c, LE(rs[32..]), b) == c.add(q, Times(c, LE(Sha512.Hash(f, rs[..32] + pk + m)) % L, a))
  {
    hide CurveGroup.Valid, Faithful, PrimeField, ScalarMult.OddNiels, Times, Decoded, Denotes, FullOf, Encodes;
    hide LE, And, OnSomePoint, Verifies, Expected;
    VerifiesIff(f, c, b, pk, m, rs);
    TopBits(rs[32..]);
    if And(rs[63], 224) != 0 {
      TooLarge(f, c, b, pk, m, rs);
      return -1;
    }
    var ok, p := UnpackNegative(pk);
    if !ok {
      NotDenoted(f, c, b, pk, m, rs);
      return -1;
    }
    ghost var a := DecodedDenotes(c, pk, p);
    var checkR := CheckPoint(f, m, pk, rs, p, sliding, c, b, a);
    Verdict(f, c, b, a, pk, m, rs, checkR);
    ok := Verify(rs[..32], checkR);
    r := if ok then 0 else -1;
  }

  // ---- the verification equation -------------------------------------------

  /** Verification decides [S]B = R + [h]A over the point R that the first half encodes and the
      point A that the public key denotes. */
  ghost predicate Equation<E>(f: Sha512.Compress, c: Curve<E>, b: E, a: E, r: E, pk: seq<byte>, m: seq<byte>,
                              rs: seq<byte>)
    requires |rs| == 64
  {
    && Denotes(c, pk, a) && Encodes(c, rs[..32], r)
    && Times(c, LE(rs[32..]), b) == c.add(r, Times(c, Challenge(f, rs[..32], pk, m), a))
  }

  lemma AcceptedIffEquation<E(!new)>(f: Sha512.Compress, c: Curve<E>, b: E, a: E, pk: seq<byte>, m: seq<byte>,
                                     rs: seq<byte>)
    requires Valid(c) && |rs| == 64
    ensures AcceptedFor(f, c, b, a, pk, m, rs) <==> exists r :: Equation(f, c, b, a, r, pk, m, rs)
  {
    var h, s := Challenge(f, rs[..32], pk, m), LE(rs[32..]);
    hide CurveGroup.Valid, Denotes, Encodes, Times, LE, Challenge;
    TimesOfNegative(c, h, a);
    var ha, sb := Times(c, h, a), Times(c, s, b);
    if AcceptedFor(f, c, b, a, pk, m, rs) {
      Move(c, Expected(f, c, b, a, pk, m, rs), ha, sb);
      assert Equation(f, c, b, a, Expected(f, c, b, a, pk, m, rs), pk, m, rs);
    }
    if r :| Equation(f, c, b, a, r, pk, m, rs) {
      Move(c, r, ha, sb);
    }
  }

  /** Verification in terms of the hash, the group and the two encodings alone. */
  lemma VerifiesIff<E(!new)>(f: Sha512.Compress, c: Curve<E>, b: E, pk: seq<byte>, m: seq<byte>, rs: seq<byte>)
    requires Valid(c) && |rs| == 64
    ensures Verifies(f, c, b, pk, m, rs) <==>
      && LE(rs[32..]) < TWO253
      && exists a, q ::
        && Denotes(c, pk, a) && Encodes(c, rs[..32], q)
        && Times(c, LE(rs[32..]), b) == c.add(q, Times(c, LE(Sha512.Hash(f, rs[..32] + pk + m)) % L, a))
  {
    hide CurveGroup.Valid, Denotes, Encodes, Times, LE, Challenge, AcceptedFor, Sha512.Hash;
    ChallengeIs(f, rs[..32], pk, m);
    if a :| AcceptedFor(f, c, b, a, pk, m, rs) {
      AcceptedIffEquation(f, c, b, a, pk, m, rs);
      var q :| Equation(f, c, b, a, q, pk, m, rs);
      assert Denotes(c, pk, a) && Encodes(c, rs[..32], q);
    }
    if a, q :| Denotes(c, pk, a) && Encodes(c, rs[..32], q)
               && Times(c, LE(rs[32..]), b) == c.add(q, Times(c, LE(Sha512.Hash(f, rs[..32] + pk + m)) % L, a)) {
      assert Equation(f, c, b, a, q, pk, m, rs);
      AcceptedIffEquation(f, c, b, a, pk, m, rs);
    }
  }

  lemma TimesOfNegative<E(!new)>(c: Curve<E>, h: nat, a: E)
    requires Valid(c)
    ensures Times(c, h, c.neg(a)) == c.neg(Times(c, h, a))
  {
    hide CurveGroup.Valid, Times;
    TimesOne(c, a);
    TimesTimes(c, h, -1, a);
    TimesNeg(c, h, a);
  }

  /** r = -p + q exactly when q = r + p. */
  lemma Move<E(!new)>(c: Curve<E>, r: E, p: E, q: E)
    requires Valid(c)
    ensures r == c.add(c.neg(p), q) <==> q == c.add(r, p)
  {
    hide CurveGroup.Valid;
    AddNeg(c, p);
    Comm(c, c.neg(p), q);
    Assoc(c, q, c.neg(p), p);
    Assoc(c, r, p, c.neg(p));
    AddZero(c, q);
    AddZero(c, r);
    Comm(c, p, c.neg(p));
  }

  /** S counts modulo L only: signatures with the same first half whose S agree modulo L verify
      together, if both S are below 2^253. */
  lemma SameModuloOrder<E(!new)>(f: Sha512.Compress, c: Curve<E>, b: E, pk: seq<byte>, m: seq<byte>, rs: seq<byte>,
                                 rs': seq<byte>)
    requires Valid(c) && Times(c, L, b) == c.zero && |rs| == |rs'| == 64 && rs[..32] == rs'[..32]
    requires LE(rs[32..]) < TWO253 && LE(rs'[32..]) < TWO253 && LE(rs[32..]) % L == LE(rs'[32..]) % L
    ensures Verifies(f, c, b, pk, m, rs) <==> Verifies(f, c, b, pk, m, rs')
  {
    hide CurveGroup.Valid, Denotes, Encodes, Times, LE, Challenge;
    TimesMod(c, LE(rs[32..]), b);
    TimesMod(c, LE(rs'[32..]), b);
    forall a ensures AcceptedFor(f, c, b, a, pk, m, rs) <==> AcceptedFor(f, c, b, a, pk, m, rs') {
      assert Expected(f, c, b, a, pk, m, rs) == Expected(f, c, b, a, pk, m, rs');
    }
  }

  /** So a signature that verifies has a second form, with S + L, if that is below 2^253. */
  lemma SecondForm<E(!new)>(f: Sha512.Compress, c: Curve<E>, b: E, pk: seq<byte>, m: seq<byte>, rs: seq<byte>)
    requires Valid(c) && Times(c, L, b) == c.zero && |rs| == 64
    requires Verifies(f, c, b, pk, m, rs) && LE(rs[32..]) + L < TWO253
    ensures var rs' := rs[..32] + Store(LE(rs[32..]) + L, 32); rs' != rs && Verifies(f, c, b, pk, m, rs')
  {
    hide CurveGroup.Valid, Verifies, Times, LE, Store;
    var s := LE(rs[32..]);
    LEBound(rs[32..]);
    StoredBelow(s + L);
    var rs' := rs[..32] + Store(s + L, 32);
    assert rs'[..32] == rs[..32] && rs'[32..] == Store(s + L, 32);
    PlusOrder(s);
    VerifiedBelow(f, c, b, pk, m, rs);
    SameModuloOrder(f, c, b, pk, m, rs, rs');
  }

  lemma PlusOrder(s: int)
    ensures (s + L) % L == s % L
  {
    ModUnique(s + L, L, s / L + 1, s % L);
  }

  lemma StoredBelow(v: nat)
    requires v < TWO253
    ensures LE(Store(v, 32)) == v
  {
    hide LE, Store, Pow256;
    StoreLE(v, 32);
    ModmCodec.Pow256ThirtyTwo();
    ModUnique(v, Pow256(32), 0, v);
  }

  lemma VerifiedBelow<E(!new)>(f: Sha512.Compress, c: Curve<E>, b: E, pk: seq<byte>, m: seq<byte>, rs: seq<byte>)
    requires |rs| == 64 && Verifies(f, c, b, pk, m, rs)
    ensures LE(rs[32..]) < TWO253
  {
  }

  /** Every signature made with a key verifies under its public key. */
  lemma SignedVerifies<E(!new)>(f: Sha512.Compress, c: Curve<E>, b: E, sk: seq<byte>, pk: seq<byte>, m: seq<byte>,
                                rs: seq<byte>)
    requires Valid(c) && Times(c, L, b) == c.zero
    requires Encodes(c, pk, Times(c, Secret(f, sk), b)) && Signed(f, c, b, sk, pk, m, rs)
    ensures Verifies(f, c, b, pk, m, rs)
  {
    hide CurveGroup.Valid, Encodes, Denotes, Times, LE, Challenge, Secret, Nonce, AcceptedFor;
    var n, h, x := Nonce(f, sk, m), Challenge(f, rs[..32], pk, m), Secret(f, sk);
    var a, r := Times(c, x, b), Times(c, n, b);
    EncodesDenotes(c, pk, a);
    TimesMod(c, n + h * x, b);
    TimesAdd(c, n, h * x, b);
    TimesTimes(c, h, x, b);
    assert Equation(f, c, b, a, r, pk, m, rs) by {
      assert LE(rs[32..]) == (n + h * x) % L;
    }
    AcceptedIffEquation(f, c, b, a, pk, m, rs);
  }

  /** Deriving a key, signing and opening: the signature is accepted. */
  method SignThenOpen<E(!new)>(f: Sha512.Compress, sk: seq<byte>, m: seq<byte>, table: seq<seq<byte>>,
                               sliding: seq<Niels>,
      ghost c: Curve<E>, ghost b: E) returns (r: int)
    requires Valid(c) && Faithful(c) && PrimeField() && Times(c, L, b) == c.zero
    requires BaseMult.BaseTable(c, table, b) && |sliding| == 32 && ScalarMult.OddNiels(c, sliding, b)
    ensures r == 0
  {
    hide CurveGroup.Valid, Faithful, PrimeField, BaseMult.BaseTable, ScalarMult.OddNiels, Times, Secret, Verifies, LE;
    var pk := PublicKey(f, sk, table, c, b);
    var rs := Sign(f, m, sk, pk, table, c, b);
    SignedVerifies(f, c, b, sk, pk, m, rs);
    r := SignOpen(f, m, pk, rs, sliding, c, b);
  }
}
