/** Scalars from and to byte strings: expand256_modm and contract256_modm. */
module ModmCodec {
  import opened Words
  import opened Bytes
  import opened Digits
  import opened Modm


  lemma Shifts()
    ensures Pow2(8) == TWO8 && Pow2(16) == TWO16 && Pow2(24) == TWO24 && Pow2(32) == TWO32
    ensures Pow2(40) == TWO40 && Pow2(48) == TWO48 && Pow2(56) == TWO56
  {
    hide Pow2;
    TwoPowers();
  }

  /** The low 264 bits of eight words, as five limbs. */
  method LowLimbs(x0: int, x1: int, x2: int, x3: int, x4: int) returns (r: Limbs)
    requires 0 <= x0 < TWO64 && 0 <= x1 < TWO64 && 0 <= x2 < TWO64 && 0 <= x3 < TWO64 && 0 <= x4 < TWO64
    ensures Carried(r) && r[4] < TWO40 && Value(r) == Radix64(x0, x1, x2, x3) + TWO256 * (x4 % TWO8)
  {
    hide Pow2;
    Shifts();
    var r0 := x0 % TWO56;
    var r1 := CutWord(x0, TWO56, x1, 8, TWO8, TWO48, TWO8);
    var r2 := CutWord(x1, TWO48, x2, 16, TWO16, TWO40, TWO8);
    var r3 := CutWord(x2, TWO40, x3, 24, TWO24, TWO32, TWO8);
    var r4 := CutWord(x3, TWO32, x4, 32, TWO32, TWO8, TWO24);
    r := [r0, r1, r2, r3, r4];
  }

  /** The bits of eight words from 248 up, as five limbs. */
  method HighLimbs(x3: int, x4: int, x5: int, x6: int, x7: int) returns (q: Limbs)
    requires 0 <= x3 < TWO64 && 0 <= x4 < TWO64 && 0 <= x5 < TWO64 && 0 <= x6 < TWO64 && 0 <= x7 < TWO64
    ensures Carried(q) && q[4] < TWO40 && Value(q) == x3 / TWO56 + TWO8 * Radix64(x4, x5, x6, x7)
  {
    hide Pow2;
    Shifts();
    var q0 := CutWord(x3, TWO56, x4, 8, TWO8, TWO48, TWO8);
    var q1 := CutWord(x4, TWO48, x5, 16, TWO16, TWO40, TWO8);
    var q2 := CutWord(x5, TWO40, x6, 24, TWO24, TWO32, TWO8);
    var q3 := CutWord(x6, TWO32, x7, 32, TWO32, TWO24, TWO8);
    var q4 := x7 / TWO24;
    q := [q0, q1, q2, q3, q4];
  }

  lemma WordHalves(x0: int, x1: int, x2: int, x3: int, x4: int, h: int, x: int)
    requires 0 <= x0 < TWO64 && 0 <= x1 < TWO64 && 0 <= x2 < TWO64 && 0 <= x3 < TWO64 && 0 <= x4 < TWO64
    requires x == Radix64(x0, x1, x2, x3) + TWO256 * h && h % TWO8 == x4 % TWO8
    ensures x % TWO264 == Radix64(x0, x1, x2, x3) + TWO256 * (x4 % TWO8)
    ensures x / TWO248 == x3 / TWO56 + TWO8 * h
  {
    ModUnique(x, TWO264, h / TWO8, Radix64(x0, x1, x2, x3) + TWO256 * (x4 % TWO8));
    ModUnique(x, TWO248, x3 / TWO56 + TWO8 * h, Radix64(x0, x1, x2, x3 % TWO56));
  }

  /** memcpy into a zeroed 64-byte buffer. */
  function Padded(s: seq<byte>): (w: seq<byte>)
    requires |s| <= 64
    ensures |w| == 64
  {
    s + Zeros(64 - |s|)
  }

  lemma {:induction false} ZeroBytes(n: nat)
    ensures LE(Zeros(n)) == 0
  {
    if n != 0 {
      assert Zeros(n)[1..] == Zeros(n - 1);
      ZeroBytes(n - 1);
    }
  }

  lemma AppendZero(s: seq<byte>, t: seq<byte>)
    requires LE(t) == 0
    ensures LE(s + t) == LE(s)
  {
    hide LE, Pow256;
    LEAppend(s, t);
    ZeroProduct(Pow256(|s|), LE(t));
  }

  lemma ZeroProduct(m: int, x: int)
    requires x == 0
    ensures m * x == 0
  {
  }

  lemma PaddedValue(s: seq<byte>)
    requires |s| <= 64
    ensures LE(Padded(s)) == LE(s)
  {
    hide LE, Zeros, Pow256;
    ZeroBytes(64 - |s|);
    AppendZero(s, Zeros(64 - |s|));
  }

  lemma WorkValue(w: seq<byte>)
    requires |w| == 64
    ensures LE(w) == Radix64(Load64(w, 0), Load64(w, 8), Load64(w, 16), Load64(w, 24))
      + TWO256 * Radix64(Load64(w, 32), Load64(w, 40), Load64(w, 48), Load64(w, 56))
  {
    hide LE, Radix64, Load64, Pow256;
    var a, b := w[..32], w[32..];
    assert w == a + b;
    LEAppend(a, b);
    Pow256ThirtyTwo();
    LoadWords(a);
    LoadWords(b);
    SameLoad(a, 0, w, 0); SameLoad(a, 8, w, 8); SameLoad(a, 16, w, 16); SameLoad(a, 24, w, 24);
    SameLoad(b, 0, w, 32); SameLoad(b, 8, w, 40); SameLoad(b, 16, w, 48); SameLoad(b, 24, w, 56);
  }

  lemma SameLoad(s: seq<byte>, i: nat, t: seq<byte>, j: nat)
    requires i + 8 <= |s| && j + 8 <= |t| && s[i..i + 8] == t[j..j + 8]
    ensures Load64(s, i) == Load64(t, j)
  {
  }

  lemma Pow256ThirtyTwo()
    ensures Pow256(32) == TWO256 && Pow256(31) == TWO248
  {
    hide Pow256;
    Pow256Eight();
    Pow256Add(8, 8);
    Pow256Add(16, 16);
    Pow256Add(31, 1);
    Pow256One();
  }

  lemma Pow256One()
    ensures Pow256(1) == TWO8
  {
    assert Pow256(0) == 1;
  }

  /** expand256_modm: fewer than 32 bytes as they are, 32 to 64 bytes modulo L. */
  method Expand256(s: seq<byte>) returns (out: Limbs)
    requires |s| <= 64
    ensures Carried(out) && Value(out) == if |s| < 32 then LE(s) else LE(s) % L
  {
    hide LE, Radix64, Radix56;
    var work := Padded(s);
    PaddedValue(s);
    WorkValue(work);
    var x0, x1, x2, x3 := Load64(work, 0), Load64(work, 8), Load64(work, 16), Load64(work, 24);
    var x4, x5, x6, x7 := Load64(work, 32), Load64(work, 40), Load64(work, 48), Load64(work, 56);
    ghost var x := LE(work);
    LowWord(x4, x5, x6, x7);
    WordHalves(x0, x1, x2, x3, x4, Radix64(x4, x5, x6, x7), x);
    out := LowLimbs(x0, x1, x2, x3, x4);
    if |s| < 32 {
      ShortValue(s);
      return;
    }
    var q1 := HighLimbs(x3, x4, x5, x6, x7);
    EightWords(x0, x1, x2, x3, x4, x5, x6, x7);
    out := BarrettReduce(q1, out, x);
  }

  lemma LowWord(x4: int, x5: int, x6: int, x7: int)
    ensures Radix64(x4, x5, x6, x7) % TWO8 == x4 % TWO8
  {
    var high := TWO56 * (x5 + TWO64 * (x6 + TWO64 * x7));
    assert Radix64(x4, x5, x6, x7) == x4 + TWO8 * high;
    ModUnique(Radix64(x4, x5, x6, x7), TWO8, x4 / TWO8 + high, x4 % TWO8);
  }

  lemma EightWords(x0: int, x1: int, x2: int, x3: int, x4: int, x5: int, x6: int, x7: int)
    requires 0 <= x0 < TWO64 && 0 <= x1 < TWO64 && 0 <= x2 < TWO64 && 0 <= x3 < TWO64
    requires 0 <= x4 < TWO64 && 0 <= x5 < TWO64 && 0 <= x6 < TWO64 && 0 <= x7 < TWO64
    ensures 0 <= Radix64(x0, x1, x2, x3) + TWO256 * Radix64(x4, x5, x6, x7) < TWO512
  {
  }

  lemma ShortValue(s: seq<byte>)
    requires |s| < 32
    ensures LE(s) % TWO264 == LE(s)
  {
    hide LE, Pow256;
    LEBound(s);
    Pow256ThirtyTwo();
    Pow256Add(|s|, 31 - |s|);
    MulBound(Pow256(|s|), 1, Pow256(|s|), Pow256(31 - |s|));
  }

  /** contract256_modm: the 32 bytes spell the scalar. */
  method Contract256(x: Limbs) returns (out: seq<byte>)
    requires Carried(x) && x[4] < TWO32
    ensures |out| == 32 && LE(out) == Value(x)
  {
    hide LE, Store, Pow2;
    Shifts();
    var f0 := Join(x[0], x[1], 56, TWO56, TWO8);
    var f1 := Join(x[1] / TWO8, x[2], 48, TWO48, TWO16);
    var f2 := Join(x[2] / TWO16, x[3], 40, TWO40, TWO24);
    var f3 := Join(x[3] / TWO24, x[4], 32, TWO32, TWO32);
    StoreWords(f0, f1, f2, f3);
    out := Store(f0, 8) + (Store(f1, 8) + (Store(f2, 8) + Store(f3, 8)));
  }
}
