/** The 32-byte encoding of field elements: curve25519_expand and curve25519_contract. */
module FieldCodec {
  import opened Words
  import opened Bytes
  import opened Field

  lemma ShiftsUsed()
    ensures Pow2(13) == 0x2000 && Pow2(26) == 0x400_0000 && Pow2(39) == 0x80_0000_0000
    ensures Pow2(12) == 0x1000 && Pow2(25) == 0x200_0000 && Pow2(38) == 0x40_0000_0000 && Pow2(51) == TWO51
  {
    assert Pow2(12) == 0x1000 && Pow2(13) == 0x2000;
    hide Pow2;
    Pow2Add(13, 12);
    Pow2Add(13, 13);
    Pow2Add(26, 12);
    Pow2Add(26, 13);
    Pow2Add(26, 25);
  }

  /** curve25519_expand: the low 255 bits of the encoding, the top bit ignored. */
  method Expand(s: seq<byte>) returns (out: Fe)
    requires |s| == 32
    ensures Within(out, TWO51 - 1) && Val(out) == LE(s) % TWO255
  {
    hide LE;
    LoadWords(s);
    var x0, x1, x2, x3 := Load64(s, 0), Load64(s, 8), Load64(s, 16), Load64(s, 24);
    out := Spread(x0, x1, x2, x3);
  }

  method Spread(x0: int, x1: int, x2: int, x3: int) returns (out: Fe)
    requires 0 <= x0 < TWO64 && 0 <= x1 < TWO64 && 0 <= x2 < TWO64 && 0 <= x3 < TWO64
    ensures Within(out, TWO51 - 1) && Val(out) == Radix64(x0, x1, x2, x3) % TWO255
  {
    hide Pow2;
    ShiftsUsed();
    var o0 := x0 % TWO51;
    var o1 := CutWord(x0, TWO51, x1, 13, 0x2000, 0x40_0000_0000, 0x2000);
    var o2 := CutWord(x1, 0x40_0000_0000, x2, 26, 0x400_0000, 0x200_0000, 0x2000);
    var o3 := CutWord(x2, 0x200_0000, x3, 39, 0x80_0000_0000, 0x1000, 0x2000);
    var o4 := x3 / 0x1000 % TWO51;
    out := Fe(o0, o1, o2, o3, o4);
    ghost var h := x3 / 0x1000 / TWO51;
    SpreadValue(out, x0 / TWO51, x1 % 0x40_0000_0000, x1 / 0x40_0000_0000, x2 % 0x200_0000, x2 / 0x200_0000, x3 % 0x1000, h);
    hide Val, Radix64;
    SplitTop(Radix64(x0, x1, x2, x3), Val(out), h);
  }

  /** The words written out in the pieces that the limbs are joined from. */
  lemma SpreadValue(o: Fe, b0: int, a1: int, b1: int, a2: int, b2: int, a3: int, h: int)
    requires Within(o, TWO51 - 1) && o.l1 == b0 + 0x2000 * a1 && o.l2 == b1 + 0x400_0000 * a2 && o.l3 == b2 + 0x80_0000_0000 * a3
    ensures Radix64(o.l0 + TWO51 * b0, a1 + 0x40_0000_0000 * b1, a2 + 0x200_0000 * b2, a3 + 0x1000 * (o.l4 + TWO51 * h)) == Val(o) + TWO255 * h
    ensures 0 <= Val(o) < TWO255
  {
    hide Val;
    ValIs(o);
  }

  /** Two carries: `t` properly carried, its value below 2^255. */
  method Normalize(input: Fe) returns (t: Fe)
    requires Within(input, LOOSE)
    ensures Within(t, TWO51 - 1) && Cong(Val(t), Val(input))
  {
    hide Cong;
    ghost var c, d;
    t, c := CarryFold(input);
    CongIntro(Val(t), Val(input), -c);
    ghost var u := t;
    t, d := CarryFold(t);
    SecondCarry(u, t, c, d);
    hide Val;
    CongIntro(Val(t), Val(u), -d);
    CongTrans(Val(t), Val(u), Val(input));
  }

  /** The second carry out is 0 or 1, and 1 only when limb 0 ends small. */
  lemma SecondCarry(u: Fe, t: Fe, c: int, d: int)
    requires 0 <= c && c * TWO51 <= LOOSE + 0x1001
    requires 0 <= u.l0 - c * 19 < TWO51 && 0 <= u.l1 < TWO51 && 0 <= u.l2 < TWO51 && 0 <= u.l3 < TWO51 && 0 <= u.l4 < TWO51
    requires Val(t) == Val(u) - d * P && d == Val(u) / TWO255
    requires 0 <= t.l0 - d * 19 < TWO51 && 0 <= t.l1 < TWO51 && 0 <= t.l2 < TWO51 && 0 <= t.l3 < TWO51 && 0 <= t.l4 < TWO51
    ensures Within(t, TWO51 - 1)
  {
    hide Val;
    ValIs(u);
    ValIs(t);
  }

  /** The canonical form: subtracts p exactly when the value reaches it, by adding 19 and
      watching bit 255. */
  method Canonical(n: Fe) returns (t: Fe)
    requires Within(n, TWO51 - 1)
    ensures Within(t, TWO51 - 1)
    ensures Val(t) == if Val(n) < P then Val(n) else Val(n) - P
  {
    hide Val;
    ghost var c;
    t := Fe(W64(n.l0 + 19), n.l1, n.l2, n.l3, n.l4);
    ValIs(n);
    ValIs(t);
    t, c := CarryFold(t);
    ValIs(t);
    t := Fe(W64(t.l0 + TWO51 - 19), W64(t.l1 + TWO51 - 1), W64(t.l2 + TWO51 - 1), W64(t.l3 + TWO51 - 1), W64(t.l4 + TWO51 - 1));
    ghost var w := t;
    ValIs(w);
    t := CarryDrop(t);
    CarriedRange(n);
    assert Val(w) == Val(n) + 19 - c * P + TWO255 - 19;
    SplitTop(Val(w), Val(n) - c * P, 1);
  }

  /** curve25519_contract_carry_final */
  method CarryDrop(t: Fe) returns (out: Fe)
    requires Within(t, TWO63 - 1)
    ensures Within(out, TWO51 - 1) && Val(out) == Val(t) % TWO255
  {
    var c;
    out, c := CarryChain(t);
  }

  /** The four 64-bit words of a carried element, as the write51 macros assemble them. */
  method Gather(t: Fe) returns (f0: int, f1: int, f2: int, f3: int)
    requires Within(t, TWO51 - 1)
    ensures 0 <= f0 < TWO64 && 0 <= f1 < TWO64 && 0 <= f2 < TWO64 && 0 <= f3 < TWO64
    ensures Radix64(f0, f1, f2, f3) == Val(t)
  {
    hide Pow2, Val;
    ShiftsUsed();
    f0 := Join(t.l0, t.l1, 51, TWO51, 0x2000);
    f1 := Join(t.l1 / 0x2000, t.l2, 38, 0x40_0000_0000, 0x400_0000);
    f2 := Join(t.l2 / 0x400_0000, t.l3, 25, 0x200_0000, 0x80_0000_0000);
    f3 := Join(t.l3 / 0x80_0000_0000, t.l4, 12, 0x1000, 0x10_0000_0000_0000);
    ValIs(t);
  }

  /** curve25519_contract: the 32 bytes spell the representative of the element in [0, p). */
  method Contract(input: Fe) returns (out: seq<byte>)
    requires Within(input, LOOSE)
    ensures |out| == 32 && LE(out) == Val(input) % P
  {
    hide LE, Store, Radix64, Radix51, Cong;
    var t := Normalize(input);
    ghost var v := Val(t);
    CarriedRange(t);
    t := Canonical(t);
    assert Val(t) == Val(input) % P by { CanonicalIsMod(v, Val(input), Val(t)); }
    var f0, f1, f2, f3 := Gather(t);
    StoreWords(f0, f1, f2, f3);
    out := Store(f0, 8) + (Store(f1, 8) + (Store(f2, 8) + Store(f3, 8)));
  }

  lemma CanonicalIsMod(v: int, a: int, r: int)
    requires Cong(v, a) && 0 <= v < TWO255 && r == if v < P then v else v - P
    ensures r == a % P
  {
    CongMod(a);
    CongTrans(v, a, a % P);
    CongIntro(r, v, if v < P then 0 else -1);
    CongTrans(r, v, a % P);
    CongCanonical(r, a % P);
  }

  /** Encoding after decoding gives back every encoding below p, and the reduced one above. */
  method Recode(s: seq<byte>) returns (out: seq<byte>)
    requires |s| == 32
    ensures |out| == 32 && LE(out) == LE(s) % TWO255 % P
    ensures LE(s) < P ==> out == s
  {
    hide LE, Radix51;
    var e := Expand(s);
    out := Contract(e);
    if LE(s) < P {
      LEInjective(out, s);
    }
  }
}
