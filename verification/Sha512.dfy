/** The streaming hash of ed25519-hash.h: buffering, length counter and padding, around a
    compression function that stays a parameter. */
module Sha512 {
  import opened Words
  import opened Bytes

  const BLOCK: nat := 128

  /** The eight words of the chaining value. */
  datatype Chain = Chain(h0: int, h1: int, h2: int, h3: int, h4: int, h5: int, h6: int, h7: int)

  const IV := Chain(0x6a09e667f3bcc908, 0xbb67ae8584caa73b, 0x3c6ef372fe94f82b, 0xa54ff53a5f1d36f1,
                    0x510e527fade682d1, 0x9b05688c2b3e6c1f, 0x1f83d9abfb41bd6b, 0x5be0cd19137e2179)

  type Compress = (Chain, seq<byte>) -> Chain

  // ---- the one-shot definition (sections 5.1.2 and 6.4 of FIPS 180-4) --------

  /** The chaining value after whole blocks. */
  function Fold(f: Compress, h: Chain, m: seq<byte>): Chain
    requires |m| % BLOCK == 0
    decreases |m|
  {
    if m == [] then h else Fold(f, f(h, m[..BLOCK]), m[BLOCK..])
  }

  /** sha512_STORE64_BE */
  function BE64(v: int): (s: seq<byte>)
    ensures |s| == 8
  {
    [v / TWO56 % 256, v / TWO48 % 256, v / TWO40 % 256, v / TWO32 % 256, v / TWO24 % 256, v / TWO16 % 256, v / TWO8 % 256, v % 256]
  }

  /** The bit length as a 128-bit big-endian number. */
  function Length128(n: nat): (s: seq<byte>)
    ensures |s| == 16
  {
    BE64(8 * n / TWO64 % TWO64) + BE64(8 * n % TWO64)
  }

  /** The least number of zero bytes that brings the length to 112 modulo 128. */
  function PadZeros(n: nat): (k: nat)
    ensures k < BLOCK && (n + 1 + k) % BLOCK == 112
  {
    (BLOCK + 111 - n % BLOCK) % BLOCK
  }

  lemma NextBlock(n: nat)
    requires n % BLOCK == 0
    ensures (n + BLOCK) % BLOCK == 0
  {
    ModUnique(n + BLOCK, BLOCK, n / BLOCK + 1, 0);
  }

  lemma PadLength(n: nat)
    requires n % BLOCK == 112
    ensures (n + 16) % BLOCK == 0
  {
    ModUnique(n + 16, BLOCK, n / BLOCK + 1, 0);
  }

  function Pad(m: seq<byte>): (p: seq<byte>)
    ensures |p| % BLOCK == 0
  {
    hide Zeros, PadZeros, Length128;
    PadLength(|m| + 1 + PadZeros(|m|));
    m + [0x80] + Zeros(PadZeros(|m|)) + Length128(|m|)
  }

  function Digest(h: Chain): (s: seq<byte>)
    ensures |s| == 64
  {
    BE64(h.h0) + BE64(h.h1) + BE64(h.h2) + BE64(h.h3) + BE64(h.h4) + BE64(h.h5) + BE64(h.h6) + BE64(h.h7)
  }

  function Hash(f: Compress, m: seq<byte>): (s: seq<byte>)
    ensures |s| == 64
  {
    Digest(Fold(f, IV, Pad(m)))
  }

  // ---- what the definition says, byte by byte ----------------------------------

  lemma NextByte(s: seq<byte>, k: nat, v: nat, w: nat)
    requires k < |s| && 1 <= w && BE(s[..k]) == v / (256 * w) && s[k] == v / w % 256
    ensures BE(s[..k + 1]) == v / w
  {
    hide BE, Pow256;
    BELast(s[..k + 1]);
    assert s[..k + 1][..k] == s[..k];
    DivideTwice(v, w);
  }

  lemma DivideTwice(v: nat, w: nat)
    requires 1 <= w
    ensures v / w / 256 == v / (256 * w)
  {
    var q := v / w;
    var a, b, r := q / 256, q % 256, v % w;
    assert v == w * q + r && q == 256 * a + b;
    assert w * (256 * a + b) == a * (256 * w) + b * w;
    MulBound(b, w, 255, w);
    ModUnique(v, 256 * w, a, b * w + r);
  }

  /** sha512_STORE64_BE spells its word. */
  lemma BE64Value(v: int)
    requires 0 <= v < TWO64
    ensures BE(BE64(v)) == v
  {
    hide BE;
    var s := BE64(v);
    BENone([]);
    assert s[..0] == [] && s[..8] == s && v / TWO64 == 0 && v / 1 == v;
    NextByte(s, 0, v, TWO56);
    NextByte(s, 1, v, TWO48);
    NextByte(s, 2, v, TWO40);
    NextByte(s, 3, v, TWO32);
    NextByte(s, 4, v, TWO24);
    NextByte(s, 5, v, TWO16);
    NextByte(s, 6, v, TWO8);
    NextByte(s, 7, v, 1);
  }

  /** Bytes 8 i to 8 i + 7 of a digest spell word i. */
  lemma DigestWords(h: Chain)
    requires 0 <= h.h0 < TWO64 && 0 <= h.h1 < TWO64 && 0 <= h.h2 < TWO64 && 0 <= h.h3 < TWO64
    requires 0 <= h.h4 < TWO64 && 0 <= h.h5 < TWO64 && 0 <= h.h6 < TWO64 && 0 <= h.h7 < TWO64
    ensures BE(Digest(h)[0..8]) == h.h0 && BE(Digest(h)[8..16]) == h.h1 && BE(Digest(h)[16..24]) == h.h2
    ensures BE(Digest(h)[24..32]) == h.h3 && BE(Digest(h)[32..40]) == h.h4 && BE(Digest(h)[40..48]) == h.h5
    ensures BE(Digest(h)[48..56]) == h.h6 && BE(Digest(h)[56..64]) == h.h7
  {
    hide BE, BE64;
    BE64Value(h.h0); BE64Value(h.h1); BE64Value(h.h2); BE64Value(h.h3);
    BE64Value(h.h4); BE64Value(h.h5); BE64Value(h.h6); BE64Value(h.h7);
    var d := Digest(h);
    assert d[0..8] == BE64(h.h0) && d[8..16] == BE64(h.h1) && d[16..24] == BE64(h.h2) && d[24..32] == BE64(h.h3);
    assert d[32..40] == BE64(h.h4) && d[40..48] == BE64(h.h5) && d[48..56] == BE64(h.h6) && d[56..64] == BE64(h.h7);
  }

  /** Section 5.3.5 of FIPS 180-4: the first 64 bits of the fractional parts of the square roots of the
      first eight primes. */
  lemma InitialWords()
    ensures var x := 1 * TWO64 + IV.h0; 0 <= IV.h0 < TWO64 && x * x <= 2 * TWO128 < (x + 1) * (x + 1)
    ensures var x := 1 * TWO64 + IV.h1; 0 <= IV.h1 < TWO64 && x * x <= 3 * TWO128 < (x + 1) * (x + 1)
    ensures var x := 2 * TWO64 + IV.h2; 0 <= IV.h2 < TWO64 && x * x <= 5 * TWO128 < (x + 1) * (x + 1)
    ensures var x := 2 * TWO64 + IV.h3; 0 <= IV.h3 < TWO64 && x * x <= 7 * TWO128 < (x + 1) * (x + 1)
    ensures var x := 3 * TWO64 + IV.h4; 0 <= IV.h4 < TWO64 && x * x <= 11 * TWO128 < (x + 1) * (x + 1)
    ensures var x := 3 * TWO64 + IV.h5; 0 <= IV.h5 < TWO64 && x * x <= 13 * TWO128 < (x + 1) * (x + 1)
    ensures var x := 4 * TWO64 + IV.h6; 0 <= IV.h6 < TWO64 && x * x <= 17 * TWO128 < (x + 1) * (x + 1)
    ensures var x := 4 * TWO64 + IV.h7; 0 <= IV.h7 < TWO64 && x * x <= 19 * TWO128 < (x + 1) * (x + 1)
  {
  }

  lemma Length128Value(n: nat)
    ensures BE(Length128(n)) == 8 * n % TWO128
  {
    hide BE, BE64, Pow256;
    var hi, lo := 8 * n / TWO64 % TWO64, 8 * n % TWO64;
    BE64Value(hi);
    BE64Value(lo);
    BEAppend(BE64(hi), BE64(lo));
    Pow256Eight();
    var q := 8 * n / TWO64;
    ModUnique(8 * n, TWO128, q / TWO64, TWO64 * hi + lo);
  }

  /** p is m, a byte 0x80, the fewest zeros that fill a block up to 16 bytes, and the bit length in
      those. */
  ghost predicate IsPadding(m: seq<byte>, p: seq<byte>) {
    && |p| % BLOCK == 0 && |m| + 17 <= |p| < |m| + 17 + BLOCK && p[..|m|] == m && p[|m|] == 0x80
    && (forall i :: |m| < i < |p| - 16 ==> p[i] == 0)
    && BE(p[|p| - 16..]) == 8 * |m| % TWO128
  }

  lemma PadLayout(m: seq<byte>)
    ensures var p := Pad(m);
      && |p| % BLOCK == 0 && |m| + 17 <= |p| < |m| + 17 + BLOCK && p[..|m|] == m && p[|m|] == 0x80
      && (forall i :: |m| < i < |p| - 16 ==> p[i] == 0)
      && BE(p[|p| - 16..]) == 8 * |m| % TWO128
  {
    hide BE, Length128, PadZeros;
    Length128Value(|m|);
    assert Pad(m)[|Pad(m)| - 16..] == Length128(|m|);
  }

  /** There is only one such padding. */
  lemma PadUnique(m: seq<byte>, p: seq<byte>)
    requires IsPadding(m, p)
    ensures p == Pad(m)
  {
    hide BE, Pad;
    PadLayout(m);
    var q := Pad(m);
    SameMultiple(|p|, |q|, |m| + 17);
    BEInjective(p[|p| - 16..], q[|q| - 16..]);
    forall i | 0 <= i < |p| ensures p[i] == q[i] {
      if i < |m| {
        assert p[i] == p[..|m|][i] && q[i] == q[..|m|][i];
      } else if i >= |p| - 16 {
        assert p[i] == p[|p| - 16..][i - (|p| - 16)] && q[i] == q[|q| - 16..][i - (|q| - 16)];
      }
    }
  }

  lemma SameMultiple(a: nat, b: nat, n: nat)
    requires a % BLOCK == 0 && b % BLOCK == 0 && n <= a < n + BLOCK && n <= b < n + BLOCK
    ensures a == b
  {
  }

  /** The hash of a message, word by word: bytes 8 i to 8 i + 7 spell word i of the chaining value after
      the padded message. */
  lemma HashWords(f: Compress, m: seq<byte>, p: seq<byte>, h: Chain)
    requires IsPadding(m, p) && h == Fold(f, IV, p)
    requires 0 <= h.h0 < TWO64 && 0 <= h.h1 < TWO64 && 0 <= h.h2 < TWO64 && 0 <= h.h3 < TWO64
    requires 0 <= h.h4 < TWO64 && 0 <= h.h5 < TWO64 && 0 <= h.h6 < TWO64 && 0 <= h.h7 < TWO64
    ensures var s := Hash(f, m);
      && BE(s[0..8]) == h.h0 && BE(s[8..16]) == h.h1 && BE(s[16..24]) == h.h2 && BE(s[24..32]) == h.h3
      && BE(s[32..40]) == h.h4 && BE(s[40..48]) == h.h5 && BE(s[48..56]) == h.h6 && BE(s[56..64]) == h.h7
  {
    hide BE, Pad, Fold, Digest;
    PadUnique(m, p);
    DigestWords(h);
  }

  lemma {:induction false} FoldAppend(f: Compress, h: Chain, a: seq<byte>, b: seq<byte>)
    requires |a| % BLOCK == 0 && |b| % BLOCK == 0
    ensures Fold(f, h, a + b) == Fold(f, Fold(f, h, a), b)
    decreases |a|
  {
    if a == [] {
      assert a + b == b;
    } else {
      assert (a + b)[..BLOCK] == a[..BLOCK] && (a + b)[BLOCK..] == a[BLOCK..] + b;
      FoldAppend(f, f(h, a[..BLOCK]), a[BLOCK..], b);
    }
  }

  lemma FoldOne(f: Compress, h: Chain, b: seq<byte>)
    requires |b| == BLOCK
    ensures Fold(f, h, b) == f(h, b)
  {
    assert b[..BLOCK] == b && b[BLOCK..] == [];
    assert Fold(f, f(h, b), []) == f(h, b);
  }

  /** The part of a message in whole blocks, and the rest. */
  function Whole(m: seq<byte>): (w: seq<byte>)
    ensures |w| % BLOCK == 0 && |w| <= |m| < |w| + BLOCK
  {
    m[..|m| / BLOCK * BLOCK]
  }

  function Rest(m: seq<byte>): (r: seq<byte>)
    ensures |r| == |m| % BLOCK && Whole(m) + r == m
  {
    m[|m| / BLOCK * BLOCK..]
  }

  // ---- the streaming state -------------------------------------------------

  /** T[1] and T[0] as one number. */
  function Counter(t0: int, t1: int): int { t0 + TWO64 * t1 }

  /** The counter holds the bits of n bytes and is at a block boundary. */
  ghost predicate Counts(t0: int, t1: int, n: nat) {
    0 <= t0 < TWO64 && 0 <= t1 < TWO64 && t0 % 1024 == 0 && Counter(t0, t1) == 8 * n % TWO128
  }

  class State {
    const compress: Compress
    var H: Chain
    var T0: int
    var T1: int
    var leftover: nat
    const buffer: array<byte>
    ghost var message: seq<byte>

    /** The state is the fold over the complete blocks of the message so far, its tail in the buffer
        and 1024 bits per block in the counter. */
    ghost predicate Valid()
      reads this, buffer
    {
      && buffer.Length == BLOCK && H == Fold(compress, IV, Whole(message))
      && leftover == |message| % BLOCK && buffer[..leftover] == Rest(message) && Counts(T0, T1, |Whole(message)|)
    }

    /** ed25519_hash_init */
    constructor (f: Compress)
      ensures Valid() && fresh(buffer) && compress == f && message == []
    {
      compress := f;
      H := IV;
      T0, T1, leftover := 0, 0, 0;
      buffer := new byte[BLOCK](_ => 0);
      message := [];
    }

    method Block(block: seq<byte>, ghost h0: Chain, ghost done: seq<byte>, ghost n: nat)
      requires |block| == BLOCK && |done| % BLOCK == 0 && (|done| + BLOCK) % BLOCK == 0
      requires H == Fold(compress, h0, done) && Counts(T0, T1, n)
      modifies this`H, this`T0, this`T1
      ensures H == Fold(compress, h0, done + block) && Counts(T0, T1, n + BLOCK)
    {
      hide Fold, Counts, W64;
      FoldAppend(compress, h0, done, block);
      FoldOne(compress, H, block);
      H := compress(H, block);
      CounterStep(T0, T1, n);
      T0 := W64(T0 + 1024);
      T1 := W64(T1 + if T0 == 0 then 1 else 0);
    }

    /** sha512_blocks; `n` is the number of bytes counted before. */
    method Blocks(data: seq<byte>, ghost n: nat)
      requires |data| % BLOCK == 0 && n % BLOCK == 0 && Counts(T0, T1, n)
      modifies this`H, this`T0, this`T1
      ensures H == Fold(compress, old(H), data) && Counts(T0, T1, n + |data|)
    {
      hide Fold, Counts, W64;
      var i := 0;
      FoldNone(compress, H);
      assert data[..0] == [];
      while i < |data|
        invariant 0 <= i <= |data| && i % BLOCK == 0
        invariant H == Fold(compress, old(H), data[..i]) && Counts(T0, T1, n + i)
      {
        assert data[..i + BLOCK] == data[..i] + data[i..i + BLOCK];
        NextBlock(i);
        Block(data[i..i + BLOCK], old(H), data[..i], n + i);
        i := i + BLOCK;
      }
      assert data[..i] == data;
    }

    /** memcpy(S->buffer + at, data, |data|) */
    method Copy(at: nat, data: seq<byte>)
      requires buffer.Length == BLOCK && at + |data| <= BLOCK
      modifies buffer
      ensures buffer[at..at + |data|] == data
      ensures forall i :: 0 <= i < BLOCK && !(at <= i < at + |data|) ==> buffer[i] == old(buffer[i])
    {
      forall i | 0 <= i < |data| {
        buffer[at + i] := data[i];
      }
    }

    /** The part of ed25519_hash_update that starts on a block boundary. */
    method Absorb(data: seq<byte>, ghost before: seq<byte>)
      requires buffer.Length == BLOCK && |before| % BLOCK == 0 && H == Fold(compress, IV, before) && Counts(T0, T1, |before|)
      modifies this`H, this`T0, this`T1, this`leftover, this`message, buffer
      ensures Valid() && message == before + data
    {
      hide Fold, Whole, Rest, Counts;
      var blocks := |data| - |data| % BLOCK;
      leftover := |data| - blocks;
      ghost var done := before + data[..blocks];
      if blocks != 0 {
        FoldAppend(compress, IV, before, data[..blocks]);
        Blocks(data[..blocks], |before|);
      } else {
        assert done == before;
      }
      if leftover != 0 {
        Copy(0, data[blocks..]);
      }
      message := before + data;
      assert message == done + data[blocks..];
      SplitMessage(done, data[blocks..], message);
    }

    /** Compresses a full buffer. */
    method FlushBuffer(ghost before: seq<byte>)
      requires buffer.Length == BLOCK && |before| % BLOCK == 0 && (|before| + BLOCK) % BLOCK == 0
      requires H == Fold(compress, IV, before) && Counts(T0, T1, |before|)
      modifies this`H, this`T0, this`T1
      ensures H == Fold(compress, IV, before + buffer[..]) && Counts(T0, T1, |before| + BLOCK)
    {
      hide Fold, Counts;
      FoldAppend(compress, IV, before, buffer[..]);
      Blocks(buffer[..], |before|);
    }

    /** Copies what fits into the buffer. */
    method Fill(data: seq<byte>) returns (used: nat)
      requires buffer.Length == BLOCK && leftover < BLOCK
      modifies this`leftover, buffer
      ensures used <= |data| && leftover == old(leftover) + used <= BLOCK && (leftover < BLOCK ==> used == |data|)
      ensures buffer[..leftover] == old(buffer[..leftover]) + data[..used]
    {
      var want := BLOCK - leftover;
      used := if want < |data| then want else |data|;
      Copy(leftover, data[..used]);
      leftover := leftover + used;
    }

    /** The first part of ed25519_hash_update: fills the buffer and flushes it once it is full. */
    method TopUp(data: seq<byte>) returns (done: bool, used: nat, ghost before: seq<byte>)
      requires Valid() && leftover != 0
      modifies this`H, this`T0, this`T1, this`leftover, this`message, buffer
      ensures done ==> Valid() && message == old(message) + data
      ensures !done ==> used <= |data| && |before| % BLOCK == 0 && before + data[used..] == old(message) + data
      ensures !done ==> H == Fold(compress, IV, before) && Counts(T0, T1, |before|)
    {
      hide Fold, Whole, Rest, Counts;
      ghost var whole, rest := Whole(message), Rest(message);
      before := whole;
      used := Fill(data);
      done := leftover < BLOCK;
      if done {
        message := message + data;
        assert data[..used] == data;
        assert message == whole + (rest + data);
        SplitMessage(whole, rest + data, message);
      } else {
        assert buffer[..] == rest + data[..used];
        before := whole + buffer[..];
        assert before + data[used..] == message + data;
        NextBlock(|whole|);
        FlushBuffer(whole);
      }
    }

    /** ed25519_hash_update */
    method Update(data: seq<byte>)
      requires Valid()
      modifies this`H, this`T0, this`T1, this`leftover, this`message, buffer
      ensures Valid() && message == old(message) + data
    {
      hide Fold, Whole, Rest, Counts;
      var in1 := data;
      ghost var before := Whole(message);
      assert leftover == 0 ==> before == message;
      if leftover != 0 {
        var done, used;
        done, used, before := TopUp(data);
        if done {
          return;
        }
        in1 := data[used..];
      }
      Absorb(in1, before);
    }

    /** The marker byte and the zeros of ed25519_hash_final, with the extra block they may need. */
    method FillPadding() returns (ghost first: seq<byte>, ghost done: seq<byte>)
      requires Valid()
      modifies this`H, this`T0, this`T1, buffer
      ensures buffer.Length == BLOCK && done == Whole(message) + first && |done| % BLOCK == 0
      ensures var r := Rest(message);
        if leftover <= 111 then first == [] && buffer[..112] == r + [0x80] + Zeros(111 - leftover)
        else first == r + [0x80] + Zeros(127 - leftover) && buffer[..112] == Zeros(112)
      ensures H == Fold(compress, IV, done) && Counts(T0, T1, |done|)
    {
      hide Fold, Whole, Rest, Zeros, Counts;
      ghost var whole, rest := Whole(message), Rest(message);
      buffer[leftover] := 0x80;
      assert buffer[..leftover + 1] == rest + [0x80];
      first, done := [], whole;
      assert whole + first == whole;
      if leftover <= 111 {
        Copy(leftover + 1, Zeros(111 - leftover));
        assert buffer[..112] == rest + [0x80] + Zeros(111 - leftover);
      } else {
        Copy(leftover + 1, Zeros(127 - leftover));
        first := buffer[..];
        assert first == rest + [0x80] + Zeros(127 - leftover);
        FoldAppend(compress, IV, whole, first);
        Blocks(buffer[..], |whole|);
        Copy(0, Zeros(112));
        assert buffer[..112] == Zeros(112);
        done := whole + first;
      }
    }

    /** ed25519_hash_final: the hash of the message, whatever the cuts between updates were. */
    method Final() returns (hash: seq<byte>)
      requires Valid()
      modifies this`H, this`T0, this`T1, buffer
      ensures hash == Hash(compress, message)
    {
      hide Fold, Whole, Rest, Hash, Digest, Length128, BE64, Zeros, Counts;
      ghost var whole := Whole(message);
      var t0, t1 := W64(T0 + leftover * 8), T1;
      LengthWords(T0, T1, |whole|, leftover, |message|);
      ghost var first, done := FillPadding();
      ghost var head := buffer[..112];
      WriteLength(t0, t1);
      LengthBytes(t0, t1, |message|);
      FinalFold(compress, message, whole, Rest(message), first, head, buffer[..]);
      Blocks(buffer[..], |done|);
      hash := Digest(H);
    }

    method WriteLength(t0: int, t1: int)
      requires buffer.Length == BLOCK
      modifies buffer
      ensures buffer[..] == old(buffer[..112]) + (BE64(t1) + BE64(t0))
    {
      hide BE64;
      Copy(112, BE64(t1));
      Copy(120, BE64(t0));
    }
  }

  lemma FinalFold(f: Compress, m: seq<byte>, w: seq<byte>, r: seq<byte>, first: seq<byte>, head: seq<byte>,
                  last: seq<byte>)
    requires |w| % BLOCK == 0 && |r| < BLOCK && m == w + r && |w + first| % BLOCK == 0 && |last| == BLOCK
    requires if |r| <= 111 then first == [] && head == r + [0x80] + Zeros(111 - |r|)
             else first == r + [0x80] + Zeros(127 - |r|) && head == Zeros(112)
    requires last == head + Length128(|m|)
    ensures Digest(Fold(f, Fold(f, IV, w + first), last)) == Hash(f, m)
  {
    hide Fold, Length128, Zeros, Digest;
    PaddedBlocks(w, r, m, first, head, last);
    FoldAppend(f, IV, w + first, last);
    assert (w + first) + last == w + (first + last);
  }

  lemma LengthBytes(t0: int, t1: int, n: nat)
    requires t0 == 8 * n % TWO64 && t1 == 8 * n / TWO64 % TWO64
    ensures BE64(t1) + BE64(t0) == Length128(n)
  {
  }

  /** A message cut at a block boundary with less than a block after it. */
  lemma SplitMessage(w: seq<byte>, r: seq<byte>, m: seq<byte>)
    requires |w| % BLOCK == 0 && |r| < BLOCK && m == w + r
    ensures Whole(m) == w && Rest(m) == r
  {
  }

  /** The two length words spell the bit length of the message. */
  lemma LengthWords(t0: int, t1: int, whole: nat, leftover: nat, n: nat)
    requires Counts(t0, t1, whole)
    requires leftover < BLOCK && n == whole + leftover
    ensures W64(t0 + leftover * 8) == 8 * n % TWO64 && t1 == 8 * n / TWO64 % TWO64
  {
    var q := 8 * whole / TWO128;
    assert 8 * whole == q * TWO128 + (t0 + TWO64 * t1);
    BelowWord(t0);
    ModUnique(8 * n, TWO64, q * TWO64 + t1, t0 + 8 * leftover);
    ModUnique(q * TWO64 + t1, TWO64, q, t1);
  }

  lemma BelowWord(t0: int)
    requires 0 <= t0 < TWO64 && t0 % 1024 == 0
    ensures t0 <= TWO64 - 1024
  {
  }

  /** On both branches the blocks hashed last are the end of the padded message. */
  lemma PaddedBlocks(w: seq<byte>, r: seq<byte>, m: seq<byte>, first: seq<byte>, head: seq<byte>, last: seq<byte>)
    requires |w| % BLOCK == 0 && |r| < BLOCK && m == w + r
    requires if |r| <= 111 then first == [] && head == r + [0x80] + Zeros(111 - |r|)
             else first == r + [0x80] + Zeros(127 - |r|) && head == Zeros(112)
    requires last == head + Length128(|m|)
    ensures w + (first + last) == Pad(m)
  {
    hide Length128, PadZeros;
    ZerosNeeded(|w|, |r|);
    if |r| > 111 {
      assert Zeros(127 - |r|) + Zeros(112) == Zeros(127 - |r| + 112);
    }
  }

  lemma ZerosNeeded(w: nat, r: nat)
    requires w % BLOCK == 0 && r < BLOCK
    ensures PadZeros(w + r) == if r <= 111 then 111 - r else 127 - r + 112
  {
    ModUnique(w + r, BLOCK, w / BLOCK, r);
  }

  lemma FoldNone(f: Compress, h: Chain)
    ensures Fold(f, h, []) == h
  {
  }

  /** Adding 1024 carries into T[1] exactly when T[0] comes back to zero. */
  lemma CounterStep(t0: int, t1: int, n: nat)
    requires Counts(t0, t1, n)
    ensures var s0 := W64(t0 + 1024); Counts(s0, W64(t1 + if s0 == 0 then 1 else 0), n + BLOCK)
  {
    var q, x := 8 * n / TWO128, Counter(t0, t1);
    assert 8 * n == q * TWO128 + x;
    if t0 + 1024 < TWO64 {
      ModUnique(t0 + 1024, TWO64, 0, t0 + 1024);
      ModUnique(8 * (n + BLOCK), TWO128, q, x + 1024);
    } else {
      LastCount(t0);
      ModUnique(t0 + 1024, TWO64, 1, 0);
      if t1 + 1 < TWO64 {
        ModUnique(8 * (n + BLOCK), TWO128, q, x + 1024);
      } else {
        ModUnique(8 * (n + BLOCK), TWO128, q + 1, 0);
      }
    }
  }

  lemma LastCount(t0: int)
    requires 0 <= t0 < TWO64 && t0 % 1024 == 0 && TWO64 <= t0 + 1024
    ensures t0 == TWO64 - 1024
  {
  }

  /** ed25519_hash */
  method HashOnce(f: Compress, data: seq<byte>) returns (hash: seq<byte>)
    ensures hash == Hash(f, data)
  {
    hide Hash;
    var ctx := new State(f);
    ctx.Update(data);
    assert [] + data == data;
    hash := ctx.Final();
  }
}
