/** Machine words as the portable C code uses them: unsigned 64-bit words and the 128-bit
    accumulators of ed25519-donna-portable.h, with wrap-around written out.

    `x >> k` is `x / 2^k`, `x & (2^k - 1)` is `x % 2^k` and `x << k` is `W64(x * 2^k)`.
    The bitwise operators that are not of that shape are defined bit by bit below. */
module Words {
  const TWO8: int := 0x100
  const TWO16: int := 0x1_0000
  const TWO24: int := 0x100_0000
  const TWO31: int := 0x8000_0000
  const TWO32: int := 0x1_0000_0000
  const TWO40: int := 0x100_0000_0000
  const TWO48: int := 0x1_0000_0000_0000
  const TWO51: int := 0x8_0000_0000_0000
  const TWO56: int := 0x100_0000_0000_0000
  const TWO63: int := 0x8000_0000_0000_0000
  const TWO64: int := 0x1_0000_0000_0000_0000
  const TWO128: int := 0x1_0000_0000_0000_0000_0000_0000_0000_0000
  const TWO248: int := 0x100_0000_0000_0000_0000_0000_0000_0000_0000_0000_0000_0000_0000_0000_0000_0000
  const TWO255: int := 0x8000_0000_0000_0000_0000_0000_0000_0000_0000_0000_0000_0000_0000_0000_0000_0000
  const TWO256: int := 0x1_0000_0000_0000_0000_0000_0000_0000_0000_0000_0000_0000_0000_0000_0000_0000_0000

  function W32(x: int): (r: int)
    ensures 0 <= r < TWO32
  {
    x % TWO32
  }

  /** A uint64_t result. */
  function W64(x: int): (r: int)
    ensures 0 <= r < TWO64
    ensures 0 <= x < TWO64 ==> r == x
  {
    x % TWO64
  }

  /** A uint128_t result. */
  function W128(x: int): (r: int)
    ensures 0 <= r < TWO128
    ensures 0 <= x < TWO128 ==> r == x
  {
    x % TWO128
  }

  lemma ModUnique(v: int, m: int, q: int, t: int)
    requires m >= 1 && v == q * m + t && 0 <= t < m
    ensures v % m == t && v / m == q
  {
    var q', t' := v / m, v % m;
    assert v == q' * m + t';
    MultipleOutside(q - q', m);
    assert (q - q') * m == t' - t;
  }

  lemma DivBelow(x: int, d: int, k: int)
    requires 1 <= d && 0 <= x < d * k
    ensures 0 <= x / d < k
  {
    assert x == d * (x / d) + x % d;
    MultipleOutside(x / d - k + 1, d);
    assert d * (x / d - k) <= x - d * k;
  }

  lemma MultipleOutside(d: int, m: int)
    requires m >= 1
    ensures d >= 1 ==> d * m >= m
    ensures d <= -1 ==> d * m <= -m
  {
  }

  lemma MulBound(a: int, b: int, n: int, m: int)
    requires 0 <= a <= n && 0 <= b <= m
    ensures 0 <= a * b <= n * m
  {
    assert a * b <= n * b <= n * m;
  }

  function Pow2(k: nat): (r: int)
    ensures r >= 1
  {
    if k == 0 then 1 else 2 * Pow2(k - 1)
  }

  lemma {:induction false} Pow2Add(a: nat, b: nat)
    ensures Pow2(a + b) == Pow2(a) * Pow2(b)
  {
    if a != 0 {
      Pow2Add(a - 1, b);
      var m, n := Pow2(a - 1), Pow2(b);
      assert Pow2(a) == 2 * m && Pow2(a + b) == 2 * Pow2(a - 1 + b);
      hide Pow2;
      assert 2 * (m * n) == (2 * m) * n;
    }
  }

  lemma {:induction false} Pow2Monotonic(a: nat, b: nat)
    requires a <= b
    ensures Pow2(a) <= Pow2(b)
  {
    if a < b {
      Pow2Monotonic(a, b - 1);
    }
  }

  /** Powers of an integer. */
  function Pow(b: int, e: nat): int {
    if e == 0 then 1 else b * Pow(b, e - 1)
  }

  lemma {:induction false} PowAdd(b: int, d: nat, e: nat)
    ensures Pow(b, d + e) == Pow(b, d) * Pow(b, e)
  {
    if d != 0 {
      PowAdd(b, d - 1, e);
      assert b * (Pow(b, d - 1) * Pow(b, e)) == (b * Pow(b, d - 1)) * Pow(b, e);
    }
  }

  /** The bitwise operators on non-negative integers. */
  function Or(a: nat, b: nat): nat {
    if a == 0 then b else if b == 0 then a
    else (if a % 2 == 1 || b % 2 == 1 then 1 else 0) + 2 * Or(a / 2, b / 2)
  }

  function And(a: nat, b: nat): nat {
    if a == 0 || b == 0 then 0
    else (if a % 2 == 1 && b % 2 == 1 then 1 else 0) + 2 * And(a / 2, b / 2)
  }

  function Xor(a: nat, b: nat): nat
    decreases a + b
  {
    if a == 0 then b else if b == 0 then a
    else (if a % 2 != b % 2 then 1 else 0) + 2 * Xor(a / 2, b / 2)
  }

  /** Or of two words that share no bit position is their sum. */
  lemma {:induction false} OrDisjoint(lo: nat, hi: nat, k: nat)
    requires lo < Pow2(k)
    ensures Or(lo, hi * Pow2(k)) == lo + hi * Pow2(k)
    ensures Or(hi * Pow2(k), lo) == lo + hi * Pow2(k)
  {
    if k != 0 && hi != 0 && lo != 0 {
      var h := hi * Pow2(k - 1);
      assert hi * Pow2(k) == 2 * h;
      OrDisjoint(lo / 2, hi, k - 1);
    }
  }

  lemma {:induction false} OrZeroIff(a: nat, b: nat)
    ensures Or(a, b) == 0 <==> a == 0 && b == 0
  {
    if a != 0 && b != 0 {
      OrZeroIff(a / 2, b / 2);
    }
  }

  lemma XorEven(a: nat, b: nat)
    ensures Xor(a, 2 * b) == a % 2 + 2 * Xor(a / 2, b)
  {
    assert (2 * b) % 2 == 0 && 2 * b / 2 == b;
    if a != 0 && b != 0 {
      assert Xor(a, 2 * b) == (if a % 2 != 0 then 1 else 0) + 2 * Xor(a / 2, b);
    }
  }

  lemma {:induction false} XorDisjoint(lo: nat, hi: nat, k: nat)
    requires lo < Pow2(k)
    ensures Xor(lo, hi * Pow2(k)) == lo + hi * Pow2(k)
  {
    if k != 0 {
      hide Xor;
      var h := hi * Pow2(k - 1);
      assert hi * Pow2(k) == 2 * h;
      XorEven(lo, h);
      XorDisjoint(lo / 2, hi, k - 1);
    }
  }

  lemma {:induction false} XorSelf(a: nat)
    ensures Xor(a, a) == 0
  {
    if a != 0 {
      XorSelf(a / 2);
    }
  }

  lemma {:induction false} XorCancel(a: nat, b: nat)
    ensures Xor(a, Xor(a, b)) == b
    decreases a + b
  {
    if a == 0 {
    } else if b == 0 {
      XorSelf(a);
    } else {
      XorCancel(a / 2, b / 2);
      var x := Xor(a, b);
      assert x / 2 == Xor(a / 2, b / 2);
      if x == 0 {
        assert Xor(a / 2, x / 2) == a / 2;
      }
    }
  }

  lemma {:induction false} XorBound(a: nat, b: nat, k: nat)
    requires a < Pow2(k) && b < Pow2(k)
    ensures Xor(a, b) < Pow2(k)
  {
    if a != 0 && b != 0 {
      XorBound(a / 2, b / 2, k - 1);
    }
  }

  lemma {:induction false} AndOnes(a: nat, k: nat)
    requires a < Pow2(k)
    ensures And(Pow2(k) - 1, a) == a
  {
    if a != 0 {
      AndOnes(a / 2, k - 1);
    }
  }

  lemma EightBits()
    ensures Pow2(8) == TWO8
  {
  }

  lemma TwoPowers()
    ensures Pow2(8) == TWO8 && Pow2(16) == TWO16 && Pow2(24) == TWO24 && Pow2(32) == TWO32
    ensures Pow2(40) == TWO40 && Pow2(48) == TWO48 && Pow2(56) == TWO56 && Pow2(64) == TWO64
  {
    hide Pow2;
    EightBits();
    Pow2Add(8, 8);
    Pow2Add(16, 8);
    Pow2Add(16, 16);
    Pow2Add(32, 8);
    Pow2Add(32, 16);
    Pow2Add(48, 8);
    Pow2Add(32, 32);
  }

  lemma TwoTo255()
    ensures Pow2(255) == TWO255
  {
    assert Pow2(7) == 128;
    hide Pow2;
    TwoPowers();
    Pow2Add(64, 64);
    Pow2Add(128, 64);
    Pow2Add(192, 56);
    Pow2Add(248, 7);
  }

  /** The constant-time select `r ^= mask & (r ^ t)` with mask = b - 1 in 64 bits:
      keeps r when b is 1, takes t when b is 0. */
  lemma MaskSelect(r: nat, t: nat, b: nat)
    requires r < TWO64 && t < TWO64 && b <= 1
    ensures Xor(r, And(W64(b - 1), Xor(r, t))) == if b == 1 then r else t
  {
    TwoPowers();
    if b == 0 {
      XorBound(r, t, 64);
      AndOnes(Xor(r, t), 64);
      XorCancel(r, t);
    } else {
      assert W64(0) == 0;
    }
  }

  lemma {:induction false} AndCommutes(a: nat, b: nat)
    ensures And(a, b) == And(b, a)
  {
    if a != 0 && b != 0 {
      AndCommutes(a / 2, b / 2);
    }
  }

  lemma {:induction false} XorCommutes(a: nat, b: nat)
    ensures Xor(a, b) == Xor(b, a)
    decreases a + b
  {
    if a != 0 && b != 0 {
      XorCommutes(a / 2, b / 2);
    }
  }

  lemma {:induction false} XorOnes(a: nat, k: nat)
    requires a < Pow2(k)
    ensures Xor(a, Pow2(k) - 1) == Pow2(k) - 1 - a
  {
    if k != 0 {
      XorOnes(a / 2, k - 1);
      if a == 0 {
        assert Xor(0, Pow2(k) - 1) == Pow2(k) - 1;
      } else {
        assert (Pow2(k) - 1) / 2 == Pow2(k - 1) - 1 && (Pow2(k) - 1) % 2 == 1;
      }
    }
  }

  lemma XorZero(a: nat, b: nat)
    ensures Xor(a, b) == 0 <==> a == b
  {
    XorSelf(a);
    if Xor(a, b) == 0 {
      XorCancel(a, b);
      assert Xor(a, 0) == a;
    }
  }

  /** The swap by exclusive or under a mask m of all ones or all zeros. */
  lemma MaskSwap(a: nat, b: nat, s: nat)
    requires a < TWO64 && b < TWO64 && s <= 1
    ensures var x := And(W64(0 - s), Xor(a, b)); Xor(a, x) == (if s == 1 then b else a) && Xor(b, x) == if s == 1 then a else b
  {
    hide Xor, And, Pow2;
    MaskSelect(a, b, 1 - s);
    MaskSelect(b, a, 1 - s);
    XorCommutes(a, b);
  }
}
