/** The tolerant DER signature parser of secp256k1/contrib/lax_der_parsing.c against a grammar,
    and strict DER as its inverse. */
module LaxDer {
  import opened Words
  import opened Bytes

  datatype Option<T> = None | Some(value: T)

  // ---- leading zeros -------------------------------------------------------

  /** Without its leading zero bytes. */
  function Strip(s: seq<byte>): (r: seq<byte>)
    ensures |r| <= |s| && (r == [] || r[0] != 0)
  {
    if s != [] && s[0] == 0 then Strip(s[1..]) else s
  }

  lemma {:induction false} StripValue(s: seq<byte>)
    ensures BE(Strip(s)) == BE(s)
  {
    if s != [] && s[0] == 0 {
      BEHead(s);
      StripValue(s[1..]);
    }
  }

  /** A stripped number has more than k bytes exactly when it is at least 256^k. */
  lemma StrippedSize(s: seq<byte>, k: nat)
    requires s == [] || s[0] != 0
    ensures |s| > k <==> BE(s) >= Pow256(k)
  {
    BEBound(s);
    if |s| > k {
      BEHead(s);
      Pow256Grows(k, |s| - 1);
      MulBound(1, Pow256(|s| - 1), s[0], Pow256(|s| - 1));
    } else {
      Pow256Grows(|s|, k);
    }
  }

  lemma {:induction false} Pow256Grows(a: nat, b: nat)
    requires a <= b
    ensures Pow256(a) <= Pow256(b)
  {
    if a < b {
      Pow256Grows(a, b - 1);
    }
  }

  // ---- the grammar ---------------------------------------------------------

  /** Lengths that need eight bytes or more are refused: 8 is the size of size_t. */
  const MAX_LENGTH: int := TWO56

  /** A length: one byte below 128, or 128 + k and k bytes, leading zeros allowed. */
  function ReadLength(s: seq<byte>): (r: Option<(nat, seq<byte>)>)
    ensures r.Some? ==> |r.value.1| < |s|
  {
    if s == [] then None
    else if s[0] < 0x80 then Some((s[0], s[1..]))
    else
      var k := s[0] - 0x80;
      if k > |s| - 1 || BE(s[1..1 + k]) >= MAX_LENGTH then None else Some((BE(s[1..1 + k]), s[1 + k..]))
  }

  /** An integer: tag 2, a length, and that many bytes. */
  function ReadInteger(s: seq<byte>): (r: Option<(seq<byte>, seq<byte>)>)
  {
    if s == [] || s[0] != 0x02 then None
    else match ReadLength(s[1..])
      case None => None
      case Some((n, rest)) => if n > |rest| then None else Some((rest[..n], rest[n..]))
  }

  /** The sequence header: tag 0x30 and a length descriptor whose value is ignored. */
  function SkipHeader(s: seq<byte>): (r: Option<seq<byte>>)
  {
    if |s| < 2 || s[0] != 0x30 then None
    else if s[1] < 0x80 then Some(s[2..])
    else if s[1] - 0x80 > |s| - 2 then None
    else Some(s[2 + (s[1] - 0x80)..])
  }

  /** The contents of R and S; whatever follows them is ignored. */
  function Contents(s: seq<byte>): (r: Option<(seq<byte>, seq<byte>)>)
  {
    match SkipHeader(s)
    case None => None
    case Some(body) =>
      match ReadInteger(body)
      case None => None
      case Some((r, rest)) =>
        match ReadInteger(rest)
        case None => None
        case Some((q, _)) => Some((r, q))
  }

  // ---- what the grammar accepts --------------------------------------------

  lemma ShortForm(n: nat, rest: seq<byte>)
    requires n < 0x80
    ensures ReadLength([n] + rest) == Some((n, rest))
  {
    assert ([n] + rest)[1..] == rest;
  }

  /** Any long form below 2^56: a count, zeros, and the bytes of the length, also where the short form
      would do. */
  lemma LongForm(z: nat, u: seq<byte>, rest: seq<byte>)
    requires z + |u| <= 127 && BE(u) < TWO56
    ensures ReadLength([0x80 + z + |u|] + (Zeros(z) + u) + rest) == Some((BE(u), rest))
  {
    hide BE;
    var t, k := [0x80 + z + |u|] + (Zeros(z) + u) + rest, z + |u|;
    assert t[1..1 + k] == Zeros(z) + u && t[1 + k..] == rest;
    ZeroExtended(z, u);
  }

  /** The bytes l are a length field of value n. */
  ghost predicate LengthField(l: seq<byte>, n: nat) {
    |l| >= 1 && n < TWO56 && if l[0] < 0x80 then l == [n] else |l| == 1 + (l[0] - 0x80) && BE(l[1..]) == n
  }

  lemma ReadField(l: seq<byte>, n: nat, rest: seq<byte>)
    requires LengthField(l, n)
    ensures ReadLength(l + rest) == Some((n, rest))
  {
    hide BE;
    var t := l + rest;
    if l[0] < 0x80 {
      ShortForm(n, rest);
    } else {
      assert t[1..|l|] == l[1..] && t[|l|..] == rest;
    }
  }

  /** Whatever is read as a length is one of these fields. */
  lemma FieldRead(t: seq<byte>) returns (l: seq<byte>)
    requires ReadLength(t).Some?
    ensures LengthField(l, ReadLength(t).value.0) && t == l + ReadLength(t).value.1
  {
    hide BE;
    var k := if t[0] < 0x80 then 0 else t[0] - 0x80;
    l := t[..1 + k];
    assert l[1..] == t[1..1 + k] && t == l + t[1 + k..];
  }

  lemma ReadElement(l: seq<byte>, x: seq<byte>, rest: seq<byte>)
    requires LengthField(l, |x|)
    ensures ReadInteger([0x02] + l + x + rest) == Some((x, rest))
  {
    hide ReadLength, LengthField;
    var t := [0x02] + l + x + rest;
    assert t[1..] == l + (x + rest);
    ReadField(l, |x|, x + rest);
    assert (x + rest)[..|x|] == x && (x + rest)[|x|..] == rest;
  }

  lemma ElementRead(t: seq<byte>) returns (l: seq<byte>)
    requires ReadInteger(t).Some?
    ensures var (x, rest) := ReadInteger(t).value; LengthField(l, |x|) && t == [0x02] + l + x + rest
  {
    hide ReadLength, LengthField;
    l := FieldRead(t[1..]);
    var (n, rest) := ReadLength(t[1..]).value;
    assert rest == rest[..n] + rest[n..];
  }

  /** Everything of this form is accepted: the tag 0x30 with any length bytes, then the tag 2, a length
      field in any form and that many bytes, twice, then anything. */
  lemma LaxIsAccepted(h: seq<byte>, l: seq<byte>, r: seq<byte>, k: seq<byte>, s: seq<byte>, rest: seq<byte>)
    requires |h| >= 1 && |h| == if h[0] < 0x80 then 1 else 1 + (h[0] - 0x80)
    requires |r| < TWO56 && |l| >= 1
    requires if l[0] < 0x80 then l == [|r|] else |l| == 1 + (l[0] - 0x80) && BE(l[1..]) == |r|
    requires |s| < TWO56 && |k| >= 1
    requires if k[0] < 0x80 then k == [|s|] else |k| == 1 + (k[0] - 0x80) && BE(k[1..]) == |s|
    ensures Contents([0x30] + h + ([0x02] + l + r) + ([0x02] + k + s) + rest) == Some((r, s))
    ensures Scalars(r, s) == if BE(r) < N && BE(s) < N then Signature(BE(r), BE(s)) else Signature(0, 0)
  {
    hide BE, ReadInteger, SkipHeader;
    var second := [0x02] + k + s + rest;
    var body := [0x02] + l + r + second;
    assert [0x30] + h + ([0x02] + l + r) + ([0x02] + k + s) + rest == [0x30] + h + body;
    SkipLaxHeader(h, body);
    ReadElement(l, r, second);
    ReadElement(k, s, rest);
  }

  lemma SkipLaxHeader(h: seq<byte>, body: seq<byte>)
    requires |h| >= 1 && |h| == if h[0] < 0x80 then 1 else 1 + (h[0] - 0x80)
    ensures SkipHeader([0x30] + h + body) == Some(body)
  {
    var t := [0x30] + h + body;
    assert t[1] == h[0] && t[1 + |h|..] == body;
  }

  /** And nothing else is. */
  lemma OnlyLaxIsAccepted(t: seq<byte>) returns (h: seq<byte>, l: seq<byte>, k: seq<byte>, rest: seq<byte>)
    requires Contents(t).Some?
    ensures var (r, s) := Contents(t).value;
      && |h| >= 1 && |h| == (if h[0] < 0x80 then 1 else 1 + (h[0] - 0x80))
      && LengthField(l, |r|) && LengthField(k, |s|)
      && t == [0x30] + h + ([0x02] + l + r) + ([0x02] + k + s) + rest
  {
    hide LengthField, ReadInteger;
    h := t[1..2 + if t[1] < 0x80 then 0 else t[1] - 0x80];
    var body := SkipHeader(t).value;
    assert t == [0x30] + h + body;
    l := ElementRead(body);
    var (r, second) := ReadInteger(body).value;
    k := ElementRead(second);
    rest := ReadInteger(second).value.1;
  }

  // ---- the parser ----------------------------------------------------------

  /** The order of the secp256k1 group. */
  const N: int := 0xffff_ffff_ffff_ffff_ffff_ffff_ffff_fffe_baae_dce6_af48_a03b_bfd2_5e8c_d036_4141

  datatype Signature = Signature(r: int, s: int)

  // ---- scalars of four 64-bit words ------------------------------------------

  const N0: int := 0xBFD25E8CD0364141
  const N1: int := 0xBAAEDCE6AF48A03B
  const N2: int := 0xFFFFFFFFFFFFFFFE
  const N3: int := 0xFFFFFFFFFFFFFFFF

  lemma OrderWords()
    ensures Radix64(N0, N1, N2, N3) == N
  {
  }

  predicate Word(d: int) {
    0 <= d < TWO64
  }

  /** secp256k1_scalar_check_overflow: word by word from the top, is the number at least the order? */
  method CheckOverflow(d0: int, d1: int, d2: int, d3: int) returns (yes: bool)
    requires Word(d0) && Word(d1) && Word(d2) && Word(d3)
    ensures yes <==> Radix64(d0, d1, d2, d3) >= N
  {
    OrderWords();
    var no := d3 < N3;
    no := no || d2 < N2;
    yes := d2 > N2 && !no;
    no := no || d1 < N1;
    yes := yes || (d1 > N1 && !no);
    yes := yes || (d0 >= N0 && !no);
  }

  /** One word of an addition in a 128-bit accumulator. */
  method Accumulate64(t: int, d: int, a: int) returns (word: int, next: int)
    requires 0 <= t <= 1 && Word(d) && Word(a)
    ensures Word(word) && 0 <= next <= 1 && t + d + a == word + TWO64 * next
  {
    var sum := W128(W128(t + d) + a);
    word := W64(sum);
    next := sum / TWO64;
  }

  /** secp256k1_scalar_reduce: adds 2^256 minus the order, modulo 2^256, if asked to. */
  method ReduceScalar(d0: int, d1: int, d2: int, d3: int, overflow: bool) returns (r0: int, r1: int, r2: int, r3: int)
    requires Word(d0) && Word(d1) && Word(d2) && Word(d3) && (overflow <==> Radix64(d0, d1, d2, d3) >= N)
    ensures Word(r0) && Word(r1) && Word(r2) && Word(r3)
    ensures Radix64(r0, r1, r2, r3) == Radix64(d0, d1, d2, d3) % N
  {
    var o := if overflow then 1 else 0;
    var t;
    r0, t := Accumulate64(0, d0, o * (TWO64 - N0));
    ghost var t0 := t;
    r1, t := Accumulate64(t, d1, o * (TWO64 - 1 - N1));
    ghost var t1 := t;
    r2, t := Accumulate64(t, d2, o);
    ghost var t2 := t;
    r3, t := Accumulate64(t, d3, 0);
    ReducedValue(d0, d1, d2, d3, r0, r1, r2, r3, t0, t1, t2, t, o);
  }

  lemma ReducedValue(d0: int, d1: int, d2: int, d3: int, r0: int, r1: int, r2: int, r3: int, t0: int, t1: int,
                     t2: int, t3: int, o: int)
    requires Word(d0) && Word(d1) && Word(d2) && Word(d3) && Word(r0) && Word(r1) && Word(r2) && Word(r3) && 0 <= t3 <= 1
    requires 0 <= o <= 1 && (o == 1 <==> Radix64(d0, d1, d2, d3) >= N)
    requires d0 + o * (TWO64 - N0) == r0 + TWO64 * t0 && t0 + d1 + o * (TWO64 - 1 - N1) == r1 + TWO64 * t1
    requires t1 + d2 + o == r2 + TWO64 * t2 && t2 + d3 == r3 + TWO64 * t3
    ensures Radix64(r0, r1, r2, r3) == Radix64(d0, d1, d2, d3) % N
  {
    hide Radix64;
    var v, w := Radix64(d0, d1, d2, d3), Radix64(r0, r1, r2, r3);
    CarrySum(d0, d1, d2, d3, r0, r1, r2, r3, t0, t1, t2, t3, o);
    WordRange(d0, d1, d2, d3);
    WordRange(r0, r1, r2, r3);
    ModUnique(v, N, o, v - o * N);
  }

  lemma CarrySum(d0: int, d1: int, d2: int, d3: int, r0: int, r1: int, r2: int, r3: int, t0: int, t1: int, t2: int,
                 t3: int, o: int)
    requires d0 + o * (TWO64 - N0) == r0 + TWO64 * t0 && t0 + d1 + o * (TWO64 - 1 - N1) == r1 + TWO64 * t1
    requires t1 + d2 + o == r2 + TWO64 * t2 && t2 + d3 == r3 + TWO64 * t3
    ensures Radix64(d0, d1, d2, d3) + o * (TWO256 - N) == Radix64(r0, r1, r2, r3) + TWO256 * t3
  {
  }

  lemma WordRange(d0: int, d1: int, d2: int, d3: int)
    requires Word(d0) && Word(d1) && Word(d2) && Word(d3)
    ensures 0 <= Radix64(d0, d1, d2, d3) < TWO256
  {
  }

  /** secp256k1_scalar_set_b32 */
  method SetB32(b32: seq<byte>) returns (d0: int, d1: int, d2: int, d3: int, overflow: bool)
    requires |b32| == 32
    ensures overflow <==> BE(b32) >= N
    ensures Word(d0) && Word(d1) && Word(d2) && Word(d3) && Radix64(d0, d1, d2, d3) == BE(b32) % N
  {
    hide BE, Radix64;
    WordsOf(b32);
    d0, d1, d2, d3 := BE(b32[24..32]), BE(b32[16..24]), BE(b32[8..16]), BE(b32[0..8]);
    overflow := CheckOverflow(d0, d1, d2, d3);
    d0, d1, d2, d3 := ReduceScalar(d0, d1, d2, d3, overflow);
  }

  lemma WordsOf(s: seq<byte>)
    requires |s| == 32
    ensures BE(s) == Radix64(BE(s[24..32]), BE(s[16..24]), BE(s[8..16]), BE(s[0..8]))
    ensures Word(BE(s[24..32])) && Word(BE(s[16..24])) && Word(BE(s[8..16])) && Word(BE(s[0..8]))
  {
    hide BE, Pow256;
    Pow256Eight();
    BEBound(s[24..32]); BEBound(s[16..24]); BEBound(s[8..16]); BEBound(s[0..8]);
    assert s == s[0..24] + s[24..32] && s[0..24] == s[0..16] + s[16..24] && s[0..16] == s[0..8] + s[8..16];
    BEAppend(s[0..24], s[24..32]);
    BEAppend(s[0..16], s[16..24]);
    BEAppend(s[0..8], s[8..16]);
  }

  /** secp256k1_ecdsa_signature_parse_compact: the two numbers if both are below the order, and zero
      otherwise. */
  method ParseCompact(input64: seq<byte>) returns (ok: bool, sig: Signature)
    requires |input64| == 64
    ensures ok <==> BE(input64[..32]) < N && BE(input64[32..]) < N
    ensures sig == if ok then Signature(BE(input64[..32]), BE(input64[32..])) else Signature(0, 0)
  {
    hide BE, Radix64;
    var r0, r1, r2, r3, over := SetB32(input64[..32]);
    ok := !over;
    var s0, s1, s2, s3;
    s0, s1, s2, s3, over := SetB32(input64[32..]);
    ok := ok && !over;
    sig := Signature(0, 0);
    if ok {
      ModUnique(BE(input64[..32]), N, 0, BE(input64[..32]));
      ModUnique(BE(input64[32..]), N, 0, BE(input64[32..]));
      sig := Signature(Radix64(r0, r1, r2, r3), Radix64(s0, s1, s2, s3));
    }
  }

  /** Skips leading zero bytes of a length. */
  method SkipZeros(input: seq<byte>, pos0: nat, len0: nat) returns (pos: nat, len: nat)
    requires pos0 + len0 <= |input|
    ensures pos + len == pos0 + len0 && input[pos..pos + len] == Strip(input[pos0..pos0 + len0])
  {
    pos, len := pos0, len0;
    ghost var end := pos0 + len0;
    while len > 0 && input[pos] == 0
      invariant pos + len == end && Strip(input[pos..end]) == Strip(input[pos0..end])
    {
      assert input[pos..end][1..] == input[pos + 1..end];
      pos := pos + 1;
      len := len - 1;
    }
  }

  /** Accumulating a big-endian length over at most seven bytes never overflows. */
  method Accumulate(input: seq<byte>, pos0: nat, n: nat) returns (len: int)
    requires pos0 + n <= |input| && n <= 7
    ensures len == BE(input[pos0..pos0 + n])
  {
    hide Pow256;
    len := 0;
    for i := 0 to n
      invariant len == BE(input[pos0..pos0 + i])
    {
      ghost var done := input[pos0..pos0 + i];
      assert input[pos0..pos0 + i + 1][..i] == done;
      BEBound(done);
      Pow256Grows(i, 6);
      Pow256Seven();
      len := W64(W64(len * 256) + input[pos0 + i]);
    }
  }

  /** The integer length, from the byte after the tag. */
  method ParseLength(input: seq<byte>, pos0: nat) returns (ok: bool, len: int, pos: nat)
    requires pos0 <= |input|
    ensures ok <==> ReadLength(input[pos0..]).Some?
    ensures ok ==> pos0 <= pos <= |input| && ReadLength(input[pos0..]).value == (len, input[pos..])
  {
    hide BE, Strip, Pow256;
    ok, len, pos := false, 0, pos0;
    if pos == |input| {
      return;
    }
    var lenbyte := input[pos];
    pos := pos + 1;
    if lenbyte >= 0x80 {
      lenbyte := lenbyte - 0x80;
      if lenbyte > |input| - pos {
        return;
      }
      ghost var k := lenbyte;
      ghost var bytes := input[pos..pos + k];
      assert input[pos0..][1..1 + k] == bytes && input[pos0..][1 + k..] == input[pos + k..];
      StripValue(bytes);
      pos, lenbyte := SkipZeros(input, pos, lenbyte);
      StrippedSize(input[pos..pos + lenbyte], 7);
      Pow256Seven();
      if lenbyte >= 8 {
        return;
      }
      len := Accumulate(input, pos, lenbyte);
      pos := pos + lenbyte;
    } else {
      len := lenbyte;
      assert input[pos0..][1..] == input[pos..];
    }
    ok := true;
  }

  /** One integer: the position and length of its contents. Every read is inside the input. */
  method ParseInteger(input: seq<byte>, pos0: nat) returns (ok: bool, start: nat, len: nat)
    requires pos0 <= |input|
    ensures ok <==> ReadInteger(input[pos0..]).Some?
    ensures ok ==> start + len <= |input| && ReadInteger(input[pos0..]).value == (input[start..start + len], input[start + len..])
  {
    hide ReadLength;
    ok, start, len := false, pos0, 0;
    if pos0 == |input| || input[pos0] != 0x02 {
      return;
    }
    assert input[pos0..][1..] == input[pos0 + 1..];
    var n;
    ok, n, start := ParseLength(input, pos0 + 1);
    if !ok {
      return;
    }
    if n > |input| - start {
      ok := false;
      return;
    }
    len := n;
    assert input[start..][..len] == input[start..start + len] && input[start..][len..] == input[start + len..];
  }

  /** The sequence tag and its length descriptor. */
  method ParseHeader(input: seq<byte>) returns (ok: bool, pos: nat)
    ensures ok <==> SkipHeader(input).Some?
    ensures ok ==> pos <= |input| && SkipHeader(input).value == input[pos..]
  {
    ok, pos := false, 0;
    if pos == |input| || input[pos] != 0x30 {
      return;
    }
    pos := pos + 1;
    if pos == |input| {
      return;
    }
    var lenbyte := input[pos];
    pos := pos + 1;
    if lenbyte >= 0x80 {
      lenbyte := lenbyte - 0x80;
      if lenbyte > |input| - pos {
        return;
      }
      pos := pos + lenbyte;
    }
    ok := true;
  }

  /** A field of the 64-byte buffer: right-aligned in 32 bytes, or flagged when it has more. */
  method CopyField(tmpsig: array<byte>, at: nat, input: seq<byte>, start: nat, len: nat) returns (overflow: bool)
    requires tmpsig.Length == 64 && at + 32 <= 64 && start + len <= |input|
    requires forall i :: at <= i < at + 32 ==> tmpsig[i] == 0
    modifies tmpsig
    ensures overflow <==> BE(input[start..start + len]) >= Pow256(32)
    ensures !overflow ==> BE(tmpsig[at..at + 32]) == BE(input[start..start + len])
    ensures forall i :: 0 <= i < 64 && !(at <= i < at + 32) ==> tmpsig[i] == old(tmpsig[i])
  {
    hide BE, Strip, Pow256;
    StripValue(input[start..start + len]);
    var pos, n := SkipZeros(input, start, len);
    ghost var digits := input[pos..pos + n];
    StrippedSize(digits, 32);
    overflow := n > 32;
    if !overflow {
      forall i | 0 <= i < n {
        tmpsig[at + 32 - n + i] := input[pos + i];
      }
      assert tmpsig[at..at + 32] == Zeros(32 - n) + digits;
      ZeroExtended(32 - n, digits);
    }
  }

  lemma {:induction false} ZeroExtended(n: nat, s: seq<byte>)
    ensures BE(Zeros(n) + s) == BE(s)
  {
    if n == 0 {
      assert Zeros(0) + s == s;
    } else {
      var t := Zeros(n) + s;
      assert t[1..] == Zeros(n - 1) + s;
      BEHead(t);
      ZeroExtended(n - 1, s);
    }
  }

  /** What the parser returns for contents r and s: the numbers if both are below the order, and
      the invalid signature (0, 0) otherwise. */
  function Scalars(r: seq<byte>, s: seq<byte>): (sig: Signature) {
    if BE(r) < N && BE(s) < N then Signature(BE(r), BE(s)) else Signature(0, 0)
  }

  /** The input is a sequence of two integers with contents r and s, up to the bytes after them. */
  ghost predicate Laid(t: seq<byte>, h: seq<byte>, l: seq<byte>, r: seq<byte>, k: seq<byte>, s: seq<byte>,
                       rest: seq<byte>) {
    && |h| >= 1 && |h| == (if h[0] < 0x80 then 1 else 1 + (h[0] - 0x80))
    && LengthField(l, |r|) && LengthField(k, |s|)
    && t == [0x30] + h + ([0x02] + l + r) + ([0x02] + k + s) + rest
  }

  lemma ContentsIff(t: seq<byte>)
    ensures Contents(t).Some? <==> exists h, l, r, k, s, rest :: Laid(t, h, l, r, k, s, rest)
    ensures forall h, l, r, k, s, rest :: Laid(t, h, l, r, k, s, rest) ==> Contents(t) == Some((r, s))
  {
    hide Contents, BE;
    forall h, l, r, k, s, rest | Laid(t, h, l, r, k, s, rest) ensures Contents(t) == Some((r, s)) {
      LaxIsAccepted(h, l, r, k, s, rest);
    }
    if Contents(t).Some? {
      var h, l, k, rest := OnlyLaxIsAccepted(t);
      assert Laid(t, h, l, Contents(t).value.0, k, Contents(t).value.1, rest);
    }
  }

  /** ecdsa_signature_parse_der_lax */
  method Parse(input: seq<byte>) returns (ret: bool, sig: Signature)
    ensures ret <==> Contents(input).Some?
    ensures sig == if ret then Scalars(Contents(input).value.0, Contents(input).value.1) else Signature(0, 0)
    ensures ret <==> exists h, l, r, k, s, rest :: Laid(input, h, l, r, k, s, rest)
    ensures forall h, l, r, k, s, rest :: Laid(input, h, l, r, k, s, rest) ==>
      sig == if BE(r) < N && BE(s) < N then Signature(BE(r), BE(s)) else Signature(0, 0)
  {
    hide ReadInteger, SkipHeader, BE, Pow256, Laid;
    ContentsIff(input);
    sig := Signature(0, 0);
    var pos;
    ret, pos := ParseHeader(input);
    if !ret {
      return;
    }
    var rstart, rlen, sstart, slen;
    ret, rstart, rlen := ParseInteger(input, pos);
    if !ret {
      return;
    }
    ret, sstart, slen := ParseInteger(input, rstart + rlen);
    if !ret {
      return;
    }
    sig := Finish(input, rstart, rlen, sstart, slen);
  }

  /** The second half of the parser: both copies and the conversion. */
  method Finish(input: seq<byte>, rstart: nat, rlen: nat, sstart: nat, slen: nat) returns (sig: Signature)
    requires rstart + rlen <= |input| && sstart + slen <= |input|
    ensures sig == Scalars(input[rstart..rstart + rlen], input[sstart..sstart + slen])
  {
    hide BE, Pow256;
    var tmpsig := new byte[64](_ => 0);
    OrderBelow();
    var overflowR := CopyField(tmpsig, 0, input, rstart, rlen);
    ghost var left := tmpsig[..32];
    assert left == tmpsig[0..32];
    var overflowS := CopyField(tmpsig, 32, input, sstart, slen);
    assert tmpsig[..32] == left && tmpsig[..][..32] == left && tmpsig[..][32..] == tmpsig[32..64];
    var ok := false;
    sig := Signature(0, 0);
    if !overflowR && !overflowS {
      ok, sig := ParseCompact(tmpsig[..]);
    }
    if !ok {
      forall i | 0 <= i < 64 {
        tmpsig[i] := 0;
      }
      ZeroHalves(tmpsig[..]);
      ok, sig := ParseCompact(tmpsig[..]);
    }
  }

  lemma ZeroHalves(s: seq<byte>)
    requires |s| == 64 && forall i :: 0 <= i < 64 ==> s[i] == 0
    ensures BE(s[..32]) == 0 && BE(s[32..]) == 0
  {
    assert s[..32] == Zeros(32) + [] && s[32..] == Zeros(32) + [];
    ZeroExtended(32, []);
  }

  lemma OrderBelow()
    ensures N < Pow256(32)
  {
    Pow256Eight();
    hide Pow256;
    Pow256Add(8, 8);
    Pow256Add(16, 16);
  }

  // ---- strict DER ----------------------------------------------------------

  /** The bytes of n without leading zeros. */
  function Minimal(n: nat): (s: seq<byte>)
    ensures s == [] <==> n == 0
    ensures s != [] ==> s[0] != 0
  {
    if n == 0 then [] else Minimal(n / 256) + [n % 256]
  }

  lemma {:induction false} MinimalValue(n: nat)
    ensures BE(Minimal(n)) == n
  {
    if n != 0 {
      MinimalValue(n / 256);
      var s := Minimal(n);
      assert s[..|s| - 1] == Minimal(n / 256);
    }
  }

  /** The contents of a DER integer (section 8.3 of X.690): the shortest two's complement form of a
      number that is not negative. */
  function IntegerContents(n: nat): (s: seq<byte>)
    ensures |s| >= 1
  {
    if n == 0 then [0] else if Minimal(n)[0] >= 0x80 then [0] + Minimal(n) else Minimal(n)
  }

  lemma IntegerContentsValue(n: nat)
    ensures BE(IntegerContents(n)) == n
  {
    MinimalValue(n);
    if n == 0 {
      assert [0][..0] == [];
    } else if Minimal(n)[0] >= 0x80 {
      BEHead([0] + Minimal(n));
      assert ([0] + Minimal(n))[1..] == Minimal(n);
    }
  }

  /** A DER length (section 8.1.3 of X.690): the short form below 128, else the shortest long form. */
  function Length(n: nat): (s: seq<byte>)
    requires n < MAX_LENGTH
  {
    ShortLength(n);
    if n < 0x80 then [n] else [0x80 + |Minimal(n)|] + Minimal(n)
  }

  lemma ShortLength(n: nat)
    requires n < MAX_LENGTH
    ensures |Minimal(n)| <= 7
  {
    MinimalValue(n);
    StrippedSize(Minimal(n), 7);
    Pow256Seven();
  }

  /** The first byte below 128 is the length; otherwise it counts the bytes after it, which have no
      leading zero and spell the length. */
  lemma DerLength(n: nat)
    requires n < MAX_LENGTH
    ensures n < 0x80 ==> Length(n) == [n]
    ensures n >= 0x80 ==> var s := Length(n); |s| >= 2 && s[0] == 0x80 + (|s| - 1) && s[1] != 0 && BE(s[1..]) == n
  {
    hide BE;
    MinimalValue(n);
    if n >= 0x80 {
      assert Length(n)[1..] == Minimal(n);
    }
  }

  function Element(tag: byte, contents: seq<byte>): (s: seq<byte>)
    requires |contents| < MAX_LENGTH
  {
    [tag] + Length(|contents|) + contents
  }

  ghost predicate Encodable(r: nat, s: nat) {
    |IntegerContents(r)| + |IntegerContents(s)| + 18 < MAX_LENGTH
  }

  lemma ElementSize(tag: byte, contents: seq<byte>)
    requires |contents| < MAX_LENGTH
    ensures |Element(tag, contents)| <= |contents| + 9
  {
    ShortLength(|contents|);
  }

  /** The DER encoding of the pair (r, s). */
  function Strict(r: nat, s: nat): (out: seq<byte>)
    requires Encodable(r, s)
  {
    ElementSize(0x02, IntegerContents(r));
    ElementSize(0x02, IntegerContents(s));
    Element(0x30, Element(0x02, IntegerContents(r)) + Element(0x02, IntegerContents(s)))
  }

  /** Nested elements: each a tag, the length of what follows, and the contents. */
  lemma StrictLayout(r: nat, s: nat)
    requires Encodable(r, s)
    ensures var a, b := IntegerContents(r), IntegerContents(s);
      var body := [0x02] + Length(|a|) + a + ([0x02] + Length(|b|) + b);
      |body| < MAX_LENGTH && Strict(r, s) == [0x30] + Length(|body|) + body
  {
    hide IntegerContents, Length;
    ElementSize(0x02, IntegerContents(r));
    ElementSize(0x02, IntegerContents(s));
  }

  /** A number that is not negative, in the fewest bytes whose first bit is 0. */
  lemma ContentsLayout(n: nat)
    ensures var a := IntegerContents(n);
      |a| >= 1 && BE(a) == n && a[0] < 0x80 && (|a| > 1 && a[0] == 0 ==> a[1] >= 0x80)
  {
    hide BE;
    IntegerContentsValue(n);
  }

  lemma ReadLengthOf(n: nat, rest: seq<byte>)
    requires n < MAX_LENGTH
    ensures ReadLength(Length(n) + rest) == Some((n, rest))
  {
    hide BE;
    ShortLength(n);
    MinimalValue(n);
    var t := Length(n) + rest;
    if n < 0x80 {
      assert t[1..] == rest;
    } else {
      var k := |Minimal(n)|;
      assert t[1..1 + k] == Minimal(n) && t[1 + k..] == rest;
    }
  }

  lemma ReadIntegerOf(contents: seq<byte>, rest: seq<byte>)
    requires |contents| < MAX_LENGTH
    ensures ReadInteger(Element(0x02, contents) + rest) == Some((contents, rest))
  {
    hide ReadLength, Length;
    var t := Element(0x02, contents) + rest;
    ReadLengthOf(|contents|, contents + rest);
    assert t[1..] == Length(|contents|) + (contents + rest);
    assert (contents + rest)[..|contents|] == contents && (contents + rest)[|contents|..] == rest;
  }

  lemma SkipHeaderOf(body: seq<byte>, rest: seq<byte>)
    requires |body| < MAX_LENGTH
    ensures SkipHeader(Element(0x30, body) + rest) == Some(body + rest)
  {
    ShortLength(|body|);
    var t := Element(0x30, body) + rest;
    var k := |Length(|body|)|;
    assert t == [0x30] + Length(|body|) + (body + rest);
    assert t[1 + k..] == body + rest;
  }

  /** Every strict encoding is accepted, also with bytes after it, and gives back r and s; numbers
      out of range give the invalid signature. */
  lemma StrictIsAccepted(r: nat, s: nat, junk: seq<byte>)
    requires Encodable(r, s)
    ensures Contents(Strict(r, s) + junk).Some?
    ensures var c := Contents(Strict(r, s) + junk).value;
      Scalars(c.0, c.1) == if r < N && s < N then Signature(r, s) else Signature(0, 0)
  {
    hide ReadInteger, SkipHeader, Element, IntegerContents, BE;
    var a, b := IntegerContents(r), IntegerContents(s);
    ElementSize(0x02, a);
    ElementSize(0x02, b);
    var body := Element(0x02, a) + Element(0x02, b);
    SkipHeaderOf(body, junk);
    assert body + junk == Element(0x02, a) + (Element(0x02, b) + junk);
    ReadIntegerOf(a, Element(0x02, b) + junk);
    ReadIntegerOf(b, junk);
    IntegerContentsValue(r);
    IntegerContentsValue(s);
  }

  /** Dropping zero bytes that the sign does not need from a zero byte and the 32 bytes of a scalar
      leaves the contents of its DER integer. */
  method TrimScalar(bytes: seq<byte>) returns (trimmed: seq<byte>)
    requires |bytes| == 33 && bytes[0] == 0
    ensures trimmed == IntegerContents(BE(bytes)) && |trimmed| <= 33
  {
    var p := 0;
    while 33 - p > 1 && bytes[p] == 0 && bytes[p + 1] < 0x80
      invariant 0 <= p <= 32 && BE(bytes[p..]) == BE(bytes) && (bytes[p] == 0 || bytes[p] < 0x80)
    {
      BEHead(bytes[p..]);
      assert bytes[p..][1..] == bytes[p + 1..];
      p := p + 1;
    }
    trimmed := bytes[p..];
    ContentsUnique(trimmed);
  }

  /** Only the shortest form satisfies both conditions of section 8.3.2 of X.690. */
  lemma ContentsUnique(t: seq<byte>)
    requires |t| >= 1 && t[0] < 0x80 && (|t| > 1 && t[0] == 0 ==> t[1] >= 0x80)
    ensures t == IntegerContents(BE(t))
  {
    hide Minimal;
    var u := if t[0] == 0 then t[1..] else t;
    BEHead(t);
    MinimalUnique(u);
    if t[0] == 0 {
      assert t == [0] + u;
      if |t| == 1 {
        assert BE(u) == 0;
      }
    }
  }

  lemma {:induction false} MinimalUnique(u: seq<byte>)
    requires u == [] || u[0] != 0
    ensures u == Minimal(BE(u))
  {
    if u == [] {
      assert BE(u) == 0;
    } else {
      hide BE, Minimal, Pow256;
      var v, d := u[..|u| - 1], u[|u| - 1];
      assert v == [] || v[0] == u[0];
      MinimalUnique(v);
      StrippedSize(u, 0);
      BENone(u);
      BELast(u);
      MinimalStep(BE(v), d);
    }
  }

  lemma MinimalStep(n: nat, d: byte)
    requires 256 * n + d > 0
    ensures Minimal(256 * n + d) == Minimal(n) + [d]
  {
    hide Minimal;
    MinimalUnfold(256 * n + d);
    ModUnique(256 * n + d, 256, n, d);
  }

  lemma MinimalUnfold(n: nat)
    requires n > 0
    ensures Minimal(n) == Minimal(n / 256) + [n % 256]
  {
  }

  /** secp256k1_scalar_get_b32, for n = 32. */
  function ScalarBytes(v: nat, n: nat): (s: seq<byte>)
    ensures |s| == n
  {
    if n == 0 then [] else ScalarBytes(v / 256, n - 1) + [v % 256]
  }

  lemma {:induction false} ScalarBytesValue(v: nat, n: nat)
    requires v < Pow256(n)
    ensures BE(ScalarBytes(v, n)) == v
  {
    hide BE, ScalarBytes, Pow256;
    if n == 0 {
      NoBytes(v);
    } else {
      BytesStep(v, n);
      DivBelow(v, 256, Pow256(n - 1));
      ScalarBytesValue(v / 256, n - 1);
      var s := ScalarBytes(v, n);
      BELast(s);
      assert s[..n - 1] == ScalarBytes(v / 256, n - 1);
    }
  }

  lemma NoBytes(v: nat)
    ensures Pow256(0) == 1 && BE(ScalarBytes(v, 0)) == 0
  {
  }

  lemma BytesStep(v: nat, n: nat)
    requires n != 0
    ensures ScalarBytes(v, n) == ScalarBytes(v / 256, n - 1) + [v % 256] && Pow256(n) == 256 * Pow256(n - 1)
  {
  }

  lemma ZeroFirst(b: seq<byte>)
    ensures BE([0] + b) == BE(b)
  {
    BEHead([0] + b);
    assert ([0] + b)[1..] == b;
  }

  /** secp256k1_ecdsa_sig_serialize into a large enough buffer. */
  method Serialize(r: nat, s: nat) returns (sig: seq<byte>)
    requires r < N && s < N
    ensures Encodable(r, s) && sig == Strict(r, s)
    ensures var a, b := IntegerContents(r), IntegerContents(s);
      sig == [0x30, 4 + |a| + |b|, 0x02, |a|] + a + [0x02, |b|] + b
  {
    hide BE, IntegerContents, Minimal, Pow256, ScalarBytes;
    var rb, sb := ScalarBytes(r, 32), ScalarBytes(s, 32);
    OrderBelow();
    ScalarBytesValue(r, 32);
    ScalarBytesValue(s, 32);
    ZeroFirst(rb);
    ZeroFirst(sb);
    var rp := TrimScalar([0] + rb);
    var sp := TrimScalar([0] + sb);
    sig := [0x30, 4 + |sp| + |rp|, 0x02, |rp|] + rp + [0x02, |sp|] + sp;
    ShortElements(rp, sp);
  }

  lemma ShortElements(a: seq<byte>, b: seq<byte>)
    requires |a| <= 33 && |b| <= 33
    ensures var body := Element(0x02, a) + Element(0x02, b);
      |body| < MAX_LENGTH && Element(0x30, body) == [0x30, 4 + |b| + |a|, 0x02, |a|] + a + [0x02, |b|] + b
  {
    assert Element(0x02, a) == [0x02, |a|] + a && Element(0x02, b) == [0x02, |b|] + b;
  }

  /** Serializing a signature and parsing it back, with or without bytes after it, is the identity. */
  method RoundTrip(r: nat, s: nat, junk: seq<byte>) returns (ret: bool, sig: Signature)
    requires r < N && s < N
    ensures ret && sig == Signature(r, s)
  {
    hide Contents, Strict, Scalars, Encodable;
    var der := Serialize(r, s);
    ret, sig := Parse(der + junk);
    StrictIsAccepted(r, s, junk);
  }
}
