/** The addition chains of curve25519-donna-helpers.h: inversion and the exponent of the
    square-root candidate. Every step keeps its limbs reduced and its exponent exact. */
module Chains {
  import opened Words
  import opened Field

  const E250: int := 0x3ff_ffff_ffff_ffff_ffff_ffff_ffff_ffff_ffff_ffff_ffff_ffff_ffff_ffff_ffff_ffff

  /** (p - 5) / 8 */
  const ROOT_EXPONENT: int := 0xfff_ffff_ffff_ffff_ffff_ffff_ffff_ffff_ffff_ffff_ffff_ffff_ffff_ffff_ffff_fffd

  lemma {:induction false} PowPow(b: int, d: nat, e: nat)
    ensures Pow(Pow(b, d), e) == Pow(b, d * e)
    decreases e
  {
    if e != 0 {
      PowPow(b, d, e - 1);
      PowAdd(b, d, d * (e - 1));
      assert d + d * (e - 1) == d * e;
    } else {
      assert d * e == 0;
    }
  }

  /** The exponent after k squarings of an e-th power and one multiplication by an f-th power. */
  ghost function Chained(e: nat, k: nat, f: nat): nat {
    MulBound(e, Pow2(k), e, Pow2(k));
    e * Pow2(k) + f
  }

  /** curve25519_square_times followed by curve25519_mul_noinline. */
  method SquareTimesMul(b: Fe, k: nat, c: Fe, ghost z: int, ghost e: nat, ghost f: nat) returns (out: Fe)
    requires 1 <= k && Is(b, SEMI, Pow(z, e)) && Is(c, LOOSE, Pow(z, f))
    ensures Is(out, REDUCED, Pow(z, Chained(e, k, f)))
  {
    hide Val, Cong, Pow, Pow2;
    var t0 := SquareTimes(b, k, Pow(z, e));
    MulBound(e, Pow2(k), e, Pow2(k));
    PowPow(z, e, Pow2(k));
    PowAdd(z, e * Pow2(k), f);
    out := Mul(t0, c, Pow(z, e * Pow2(k)), Pow(z, f));
  }

  lemma PowOne(z: int)
    ensures Pow(z, 1) == z
  {
  }

  lemma SmallPowers()
    ensures Pow2(1) == 2 && Pow2(2) == 4 && Pow2(5) == 32
  {
  }

  lemma PowersUsed()
    ensures Pow2(1) == 2 && Pow2(2) == 4 && Pow2(5) == 32 && Pow2(10) == 0x400 && Pow2(20) == 0x10_0000
    ensures Pow2(50) == 0x4_0000_0000_0000 && Pow2(100) == 0x10_0000_0000_0000_0000_0000_0000
  {
    SmallPowers();
    hide Pow2;
    Pow2Add(5, 5);
    Pow2Add(10, 10);
    Pow2Add(20, 20);
    Pow2Add(40, 10);
    Pow2Add(50, 50);
  }

  /** curve25519_pow_two5mtwo0_two250mtwo0 */
  method Pow250(b0: Fe, ghost z: int) returns (b: Fe)
    requires Is(b0, REDUCED, Pow(z, 31))
    ensures Is(b, REDUCED, Pow(z, E250))
  {
    hide Val, Cong, Pow, Pow2;
    PowersUsed();
    b := SquareTimesMul(b0, 5, b0, z, 31, 31);
    ghost var e10 := 0x3ff;
    var c := SquareTimesMul(b, 10, b, z, e10, e10);
    ghost var e20 := 0xf_ffff;
    var t0 := SquareTimesMul(c, 20, c, z, e20, e20);
    ghost var e40 := 0xff_ffff_ffff;
    b := SquareTimesMul(t0, 10, b, z, e40, e10);
    ghost var e50 := 0x3_ffff_ffff_ffff;
    c := SquareTimesMul(b, 50, b, z, e50, e50);
    ghost var e100 := 0xf_ffff_ffff_ffff_ffff_ffff_ffff;
    t0 := SquareTimesMul(c, 100, c, z, e100, e100);
    ghost var e200 := 0xff_ffff_ffff_ffff_ffff_ffff_ffff_ffff_ffff_ffff_ffff_ffff_ffff;
    b := SquareTimesMul(t0, 50, b, z, e200, e50);
  }

  /** The common start of both chains: z^11 and z^31. */
  method Pow11And31(z0: Fe, ghost z: int) returns (a: Fe, b: Fe)
    requires Is(z0, SEMI, z)
    ensures Is(a, REDUCED, Pow(z, 11)) && Is(b, REDUCED, Pow(z, 31))
  {
    hide Val, Cong, Pow, Pow2;
    PowOne(z);
    PowersUsed();
    a := SquareTimes(z0, 1, Pow(z, 1));
    PowPow(z, 1, 2);
    b := SquareTimesMul(a, 2, z0, z, 2, 1);
    PowAdd(z, 9, 2);
    a := Mul(b, a, Pow(z, 9), Pow(z, 2));
    b := SquareTimesMul(a, 1, b, z, 11, 9);
  }

  /** curve25519_recip: z^(p - 2). */
  method Recip(z0: Fe, ghost z: int) returns (out: Fe)
    requires Is(z0, SEMI, z)
    ensures Is(out, REDUCED, Pow(z, P - 2))
  {
    hide Val, Cong, Pow, Pow2;
    PowersUsed();
    var a, b := Pow11And31(z0, z);
    b := Pow250(b, z);
    out := SquareTimesMul(b, 5, a, z, E250, 11);
  }

  /** curve25519_pow_two252m3: z^((p - 5) / 8). */
  method PowRoot(z0: Fe, ghost z: int) returns (out: Fe)
    requires Is(z0, SEMI, z)
    ensures Is(out, REDUCED, Pow(z, ROOT_EXPONENT))
  {
    hide Val, Cong, Pow, Pow2;
    PowOne(z);
    PowersUsed();
    var a, b := Pow11And31(z0, z);
    b := Pow250(b, z);
    out := SquareTimesMul(b, 2, z0, z, E250, 1);
  }
}
