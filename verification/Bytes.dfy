/** Byte strings and the little- and big-endian numbers they encode. */
module Bytes {
  import opened Words

  type byte = b: int | 0 <= b < 256

  /** The little-endian number a byte string encodes. */
  function LE(s: seq<byte>): nat {
    if s == [] then 0 else s[0] + TWO8 * LE(s[1..])
  }

  /** The `n` low bytes of `v`, little-endian: what U64TO8_LE stores for n = 8. */
  function Store(v: nat, n: nat): (s: seq<byte>)
    ensures |s| == n
  {
    if n == 0 then [] else [v % TWO8] + Store(v / TWO8, n - 1)
  }

  function Pow256(k: nat): (r: int)
    ensures r >= 1
  {
    if k == 0 then 1 else TWO8 * Pow256(k - 1)
  }

  function Zeros(n: nat): (s: seq<byte>)
    ensures |s| == n && forall i :: 0 <= i < n ==> s[i] == 0
  {
    seq(n, _ => 0)
  }

  lemma Pow256Seven()
    ensures Pow256(7) == TWO56 && Pow256(6) == TWO48
  {
    assert Pow256(3) == TWO24;
    assert Pow256(6) == 256 * (256 * (256 * Pow256(3)));
  }

  lemma {:induction false} Pow256Add(a: nat, b: nat)
    ensures Pow256(a + b) == Pow256(a) * Pow256(b)
  {
    if a != 0 {
      Pow256Add(a - 1, b);
      assert TWO8 * (Pow256(a - 1) * Pow256(b)) == (TWO8 * Pow256(a - 1)) * Pow256(b);
    }
  }

  lemma {:induction false} StoreLE(v: nat, n: nat)
    ensures LE(Store(v, n)) == v % Pow256(n)
  {
    if n != 0 {
      StoreLE(v / TWO8, n - 1);
      var m := Pow256(n - 1);
      assert Store(v, n)[1..] == Store(v / TWO8, n - 1);
      DivModPow(v, m);
    }
  }

  lemma DivModPow(v: nat, m: int)
    requires m >= 1
    ensures v % TWO8 + TWO8 * (v / TWO8 % m) == v % (TWO8 * m)
  {
    var h := v / TWO8;
    var q, r := h / m, h % m;
    assert h == q * m + r;
    var t := v % TWO8 + TWO8 * r;
    assert v == q * (TWO8 * m) + t;
    ModUnique(v, TWO8 * m, q, t);
  }

  lemma {:induction false} LEBound(s: seq<byte>)
    ensures LE(s) < Pow256(|s|)
  {
    if s != [] {
      LEBound(s[1..]);
    }
  }

  lemma LEStep(s: seq<byte>)
    requires s != []
    ensures LE(s) == s[0] + TWO8 * LE(s[1..]) && Pow256(|s|) == TWO8 * Pow256(|s| - 1)
  {
  }

  lemma LENone(t: seq<byte>)
    ensures LE([]) == 0 && Pow256(0) == 1 && [] + t == t
  {
  }

  lemma {:induction false} LEAppend(s: seq<byte>, t: seq<byte>)
    ensures LE(s + t) == LE(s) + Pow256(|s|) * LE(t)
  {
    hide LE, Pow256;
    if s == [] {
      LENone(t);
    } else {
      LEStep(s);
      LEStep(s + t);
      assert (s + t)[1..] == s[1..] + t;
      LEAppend(s[1..], t);
      Reassociate(Pow256(|s| - 1), LE(t));
    }
  }

  lemma Reassociate(m: int, x: int)
    ensures TWO8 * (m * x) == (TWO8 * m) * x
  {
  }

  /** Two byte strings of one length that encode one number are equal. */
  lemma {:induction false} LEInjective(s: seq<byte>, t: seq<byte>)
    requires |s| == |t| && LE(s) == LE(t)
    ensures s == t
  {
    hide LE;
    if s != [] {
      LEStep(s);
      LEStep(t);
      ModUnique(LE(s), TWO8, LE(s[1..]), s[0]);
      ModUnique(LE(t), TWO8, LE(t[1..]), t[0]);
      LEInjective(s[1..], t[1..]);
      assert s == [s[0]] + s[1..] && t == [t[0]] + t[1..];
    }
  }

  lemma Pow256Eight()
    ensures Pow256(8) == TWO64
  {
    assert Pow256(4) == TWO32;
    assert Pow256(8) == TWO8 * (TWO8 * (TWO8 * (TWO8 * Pow256(4))));
  }

  lemma StoreWord(v: nat)
    requires v < TWO64
    ensures LE(Store(v, 8)) == v
  {
    hide LE, Store, Pow256;
    Pow256Eight();
    StoreLE(v, 8);
  }

  /** U8TO64_LE at `off`. */
  function Load64(s: seq<byte>, off: nat): (w: int)
    requires off + 8 <= |s|
    ensures 0 <= w < TWO64
  {
    LEBound(s[off..off + 8]);
    Pow256Eight();
    LE(s[off..off + 8])
  }

  /** `lo | (w << k)` in a 64-bit word, when lo has at most k bits: K is 2^k and M is 2^(64-k). */
  method Join(lo: int, w: int, k: nat, K: int, M: int) returns (r: int)
    requires K == Pow2(k) && K * M == TWO64 && 1 <= M
    requires 0 <= lo < K && 0 <= w < TWO64
    ensures r == lo + K * (w % M)
  {
    hide Or, Pow2;
    ShiftOut(w, K, M);
    OrDisjoint(lo, w % M, k);
    hide W64;
    r := Or(lo, W64(w * K));
  }

  /** `(w << k) & (2^(k+n) - 1)` keeps the n low bits of w: K is 2^k, N is 2^n, and J the rest. */
  lemma ShiftLow(w: int, K: int, N: int, J: int)
    requires 0 <= w && 1 <= K && 1 <= N && 1 <= J && K * (N * J) == TWO64
    ensures W64(w * K) % (K * N) == K * (w % N)
  {
    hide W64;
    var M := N * J;
    ShiftOut(w, K, M);
    ModTwice(w, N, J);
    ScaledMod(w % M, K, N);
  }

  /** Reducing modulo a multiple of n first does not change the remainder modulo n. */
  lemma ModTwice(w: int, n: int, j: int)
    requires 1 <= n && 1 <= j
    ensures n * j >= 1 && w % (n * j) % n == w % n
  {
    MulBound(1, 1, n, j);
    var m := n * j;
    var q, r := w / m, w % m;
    var h, t := r / n, r % n;
    SplitTwice(w, q, j, n, h, t);
    ModUnique(w, n, q * j + h, t);
  }

  lemma SplitTwice(w: int, q: int, j: int, n: int, h: int, t: int)
    requires w == q * (n * j) + (h * n + t)
    ensures w == (q * j + h) * n + t
  {
    assert q * (n * j) == (q * j) * n;
  }

  lemma ScaledMod(r: int, k: int, n: int)
    requires 1 <= k && 1 <= n
    ensures k * n >= 1 && (r * k) % (k * n) == k * (r % n)
  {
    MulBound(1, 1, k, n);
    var j, t := r / n, r % n;
    ScaledSplit(r, k, n, j, t);
    MulBound(k, t, k, n - 1);
    assert k * (n - 1) == k * n - k;
    ModUnique(r * k, k * n, j, k * t);
  }

  lemma ScaledSplit(r: int, k: int, n: int, j: int, t: int)
    requires r == j * n + t
    ensures r * k == j * (k * n) + k * t
  {
    assert (j * n + t) * k == (j * n) * k + t * k;
    assert (j * n) * k == j * (k * n);
  }

  /** Shifting a word left loses its top bits. */
  lemma ShiftOut(w: int, K: int, M: int)
    requires K * M == TWO64 && 1 <= M && 1 <= K && 0 <= w
    ensures W64(w * K) == (w % M) * K && 0 <= (w % M) * K
  {
    var q, t := w / M, w % M;
    assert w == q * M + t;
    assert w * K == q * (K * M) + t * K by { hide *; }
    assert 0 <= t * K <= (M - 1) * K;
    assert (M - 1) * K == K * M - K;
    ModUnique(w * K, TWO64, q, t * K);
  }

  /** Masking a joined word keeps only the low bits of the shifted part. */
  lemma JoinLow(lo: int, w: int, K: int, N: int, J: int)
    requires 1 <= K && 1 <= N && 1 <= J && 0 <= lo < K && 0 <= w
    ensures (lo + K * (w % (N * J))) % (K * N) == lo + K * (w % N) && 0 <= lo + K * (w % N) < K * N
  {
    var M := N * J;
    assert M >= 1;
    var q, r := w / M, w % M;
    assert w == q * M + r;
    var j, t := r / N, r % N;
    assert r == j * N + t;
    assert w == (q * J + j) * N + t by { assert q * (N * J) == (q * J) * N; }
    ModUnique(w, N, q * J + j, t);
    assert K * r == j * (K * N) + K * t by { hide *; assert K * (j * N + t) == j * (K * N) + K * t; }
    assert 0 <= K * t <= K * (N - 1);
    assert K * (N - 1) == K * N - K;
    ModUnique(lo + K * r, K * N, j, lo + K * t);
  }

  /** A field cut across two words, `((x >> d) | (w << k)) & (T - 1)`: D is 2^d, K is 2^k with
      d + k = 64, and T is K N. */
  method CutWord(x: int, D: int, w: int, k: nat, K: int, N: int, J: int) returns (o: int)
    requires 0 <= x < TWO64 && 0 <= w < TWO64
    requires K == Pow2(k) && 1 <= N && 1 <= J && 1 <= D && D * K == TWO64 && K * (N * J) == TWO64
    ensures o == x / D + K * (w % N) && 0 <= o < K * N
  {
    DivBelow(x, D, K);
    var M := N * J;
    assert M >= 1;
    var y := Join(x / D, w, k, K, M);
    JoinLow(x / D, w, K, N, J);
    o := y % (K * N);
  }

  /** The number four 64-bit words spell, least significant first. */
  function Radix64(x0: int, x1: int, x2: int, x3: int): int {
    x0 + TWO64 * x1 + TWO64 * TWO64 * x2 + TWO64 * TWO64 * TWO64 * x3
  }

  lemma ConcatWords(a: seq<byte>, b: seq<byte>, c: seq<byte>, d: seq<byte>)
    requires |a| == 8 && |b| == 8 && |c| == 8 && |d| == 8
    ensures LE(a + (b + (c + d))) == Radix64(LE(a), LE(b), LE(c), LE(d))
  {
    hide LE, Pow256;
    Pow256Eight();
    LEAppend(a, b + (c + d));
    LEAppend(b, c + d);
    LEAppend(c, d);
  }

  lemma LoadWords(s: seq<byte>)
    requires |s| == 32
    ensures LE(s) == Radix64(Load64(s, 0), Load64(s, 8), Load64(s, 16), Load64(s, 24))
  {
    hide LE, Radix64;
    ConcatWords(s[0..8], s[8..16], s[16..24], s[24..32]);
    assert s == s[0..8] + (s[8..16] + (s[16..24] + s[24..32]));
  }

  lemma StoreWords(f0: nat, f1: nat, f2: nat, f3: nat)
    requires f0 < TWO64 && f1 < TWO64 && f2 < TWO64 && f3 < TWO64
    ensures LE(Store(f0, 8) + (Store(f1, 8) + (Store(f2, 8) + Store(f3, 8)))) == Radix64(f0, f1, f2, f3)
  {
    hide LE, Store, Radix64;
    StoreWord(f0); StoreWord(f1); StoreWord(f2); StoreWord(f3);
    ConcatWords(Store(f0, 8), Store(f1, 8), Store(f2, 8), Store(f3, 8));
  }

  // ---- big-endian numbers --------------------------------------------------

  function BE(s: seq<byte>): nat {
    if s == [] then 0 else BE(s[..|s| - 1]) * 256 + s[|s| - 1]
  }

  lemma BELast(u: seq<byte>)
    requires u != []
    ensures BE(u) == 256 * BE(u[..|u| - 1]) + u[|u| - 1] && Pow256(|u|) == 256 * Pow256(|u| - 1)
  {
  }

  lemma BENone(a: seq<byte>)
    ensures BE([]) == 0 && Pow256(0) == 1 && a + [] == a
  {
  }

  lemma {:induction false} BEAppend(a: seq<byte>, b: seq<byte>)
    ensures BE(a + b) == BE(a) * Pow256(|b|) + BE(b)
  {
    hide BE, Pow256;
    if b == [] {
      BENone(a);
    } else {
      var c := b[..|b| - 1];
      assert (a + b)[..|a + b| - 1] == a + c;
      BELast(b);
      BELast(a + b);
      BEAppend(a, c);
      ShiftByte(BE(a), Pow256(|c|));
    }
  }

  lemma ShiftByte(x: int, w: int)
    ensures x * w * 256 == x * (256 * w)
  {
  }

  lemma {:induction false} BEBound(s: seq<byte>)
    ensures BE(s) < Pow256(|s|)
  {
    if s != [] {
      BEBound(s[..|s| - 1]);
    }
  }

  /** A leading zero byte does not change the number; a leading nonzero byte gives it its size. */
  lemma BEHead(s: seq<byte>)
    requires s != []
    ensures BE(s) == s[0] * Pow256(|s| - 1) + BE(s[1..])
  {
    assert s == [s[0]] + s[1..];
    assert BE([s[0]]) == s[0] by { assert [s[0]][..0] == []; }
    BEAppend([s[0]], s[1..]);
  }

  /** Strings of one length that spell the same number are equal. */
  lemma {:induction false} BEInjective(s: seq<byte>, t: seq<byte>)
    requires |s| == |t| && BE(s) == BE(t)
    ensures s == t
  {
    hide BE, Pow256;
    if s != [] {
      var n := |s| - 1;
      BELast(s);
      BELast(t);
      BEInjective(s[..n], t[..n]);
      assert s == s[..n] + [s[n]] && t == t[..n] + [t[n]];
    }
  }
}
