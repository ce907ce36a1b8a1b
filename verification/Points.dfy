/** The point representations and formulas of ed25519-donna-impl-base.h.

    First the formulas themselves, over arbitrary residues: what each output coordinate is as
    a polynomial of the inputs, with every limb bound. Then what they compute in the group. */
module Points {
  import opened Words
  import opened Field
  import opened CurveGroup

  /** ge25519, ge25519_p1p1, ge25519_niels and ge25519_pniels */
  datatype Ge = Ge(x: Fe, y: Fe, z: Fe, t: Fe)
  datatype P1P1 = P1P1(x: Fe, y: Fe, z: Fe, t: Fe)
  datatype Niels = Niels(ysubx: Fe, xaddy: Fe, t2d: Fe)
  datatype PNiels = PNiels(ysubx: Fe, xaddy: Fe, z: Fe, t2d: Fe)

  /** The residues of four coordinates. */
  datatype Residues = Residues(x: int, y: int, z: int, t: int)

  ghost predicate HasPartial(p: Ge, v: Residues) {
    Is(p.x, REDUCED, v.x) && Is(p.y, REDUCED, v.y) && Is(p.z, REDUCED, v.z)
  }

  ghost predicate HasFull(p: Ge, v: Residues) {
    HasPartial(p, v) && Is(p.t, REDUCED, v.t)
  }

  ghost predicate HasP1P1(p: P1P1, v: Residues) {
    Is(p.x, LOOSE, v.x) && Is(p.y, LOOSE, v.y) && Is(p.z, LOOSE, v.z) && Is(p.t, LOOSE, v.t)
  }

  /** ysubx, xaddy, z and t2d residues; z is 1 for a plain niels entry. */
  datatype NielsResidues = NielsResidues(ysubx: int, xaddy: int, z: int, t2d: int)

  ghost predicate HasNiels(q: Niels, v: NielsResidues) {
    Is(q.ysubx, REDUCED, v.ysubx) && Is(q.xaddy, REDUCED, v.xaddy) && Is(q.t2d, REDUCED, v.t2d)
  }

  ghost predicate HasPNiels(q: PNiels, v: NielsResidues) {
    && Is(q.ysubx, 4 * TWO51, v.ysubx) && Is(q.xaddy, 4 * TWO51, v.xaddy)
    && Is(q.z, REDUCED, v.z) && Is(q.t2d, REDUCED, v.t2d)
  }

  // ---- conversions ---------------------------------------------------------

  /** ge25519_p1p1_to_partial leaves r.t as it was. */
  method ToPartial(r0: Ge, p: P1P1, ghost v: Residues) returns (r: Ge)
    requires HasP1P1(p, v)
    ensures HasPartial(r, Residues(v.x * v.t, v.y * v.z, v.z * v.t, 0)) && r.t == r0.t
  {
    hide Val, Cong;
    var x := Mul(p.x, p.t, v.x, v.t);
    var y := Mul(p.y, p.z, v.y, v.z);
    var z := Mul(p.z, p.t, v.z, v.t);
    r := Ge(x, y, z, r0.t);
  }

  /** ge25519_p1p1_to_full */
  method ToFull(p: P1P1, ghost v: Residues) returns (r: Ge)
    requires HasP1P1(p, v)
    ensures HasFull(r, Residues(v.x * v.t, v.y * v.z, v.z * v.t, v.x * v.y))
  {
    hide Val, Cong;
    var x := Mul(p.x, p.t, v.x, v.t);
    var y := Mul(p.y, p.z, v.y, v.z);
    var z := Mul(p.z, p.t, v.z, v.t);
    var t := Mul(p.x, p.y, v.x, v.y);
    r := Ge(x, y, z, t);
  }

  /** ge25519_full_to_pniels */
  method ToPNiels(r: Ge, ghost v: Residues) returns (p: PNiels)
    requires HasFull(r, v)
    ensures HasPNiels(p, ToNiels(v)) && p.z == r.z
  {
    hide Val, Cong;
    ConstantLimbs();
    var ysubx := Sub(r.y, r.x, REDUCED, v.y, v.x);
    var xaddy := Add(r.y, r.x, REDUCED, REDUCED, v.y, v.x);
    var t2d := Mul(r.t, EC2D, v.t, D2);
    p := PNiels(ysubx, xaddy, r.z, t2d);
  }

  // ---- adding and doubling -------------------------------------------------

  /** The p1p1 output of every addition formula, for a second operand in niels form. */
  function Sum(p: Residues, q: NielsResidues): Residues {
    Residues((p.y + p.x) * q.xaddy - (p.y - p.x) * q.ysubx, (p.y + p.x) * q.xaddy + (p.y - p.x) * q.ysubx,
             2 * (p.z * q.z) + p.t * q.t2d, 2 * (p.z * q.z) - p.t * q.t2d)
  }

  function ToNiels(v: Residues): NielsResidues {
    NielsResidues(v.y - v.x, v.y + v.x, v.z, v.t * D2)
  }

  /** The residues a table entry must hold to stand for `v` when it is read with a sign bit. */
  function Signed(v: NielsResidues, signbit: int): NielsResidues {
    if signbit == 0 then v else NielsResidues(v.xaddy, v.ysubx, v.z, -v.t2d)
  }

  /** ge25519_add_p1p1 */
  method AddP1P1(p: Ge, q: Ge, ghost u: Residues, ghost v: Residues) returns (r: P1P1)
    requires HasFull(p, u) && HasFull(q, v)
    ensures HasP1P1(r, Sum(u, ToNiels(v)))
  {
    hide Val, Cong;
    ConstantLimbs();
    var a := Sub(p.y, p.x, REDUCED, u.y, u.x);
    var b := Add(p.y, p.x, REDUCED, REDUCED, u.y, u.x);
    var t := Sub(q.y, q.x, REDUCED, v.y, v.x);
    var w := Add(q.y, q.x, REDUCED, REDUCED, v.y, v.x);
    a := Mul(a, t, u.y - u.x, v.y - v.x);
    b := Mul(b, w, u.y + u.x, v.y + v.x);
    var c := Mul(p.t, q.t, u.t, v.t);
    c := Mul(c, EC2D, u.t * v.t, D2);
    var d := Mul(p.z, q.z, u.z, v.z);
    d := Add(d, d, REDUCED, REDUCED, u.z * v.z, u.z * v.z);
    var x := Sub(b, a, REDUCED, (u.y + u.x) * (v.y + v.x), (u.y - u.x) * (v.y - v.x));
    var y := Add(b, a, REDUCED, REDUCED, (u.y + u.x) * (v.y + v.x), (u.y - u.x) * (v.y - v.x));
    var z := Add(d, c, 2 * REDUCED, REDUCED, 2 * (u.z * v.z), (u.t * v.t) * D2);
    t := SubAfterBasic(d, c, 2 * REDUCED, 2 * (u.z * v.z), (u.t * v.t) * D2);
    assert (u.t * v.t) * D2 == u.t * (v.t * D2);
    r := P1P1(x, y, z, t);
  }

  /** ge25519_double_p1p1 reads no t. */
  method DoubleP1P1(p: Ge, ghost u: Residues) returns (r: P1P1)
    requires HasPartial(p, u)
    ensures HasP1P1(r, Residues((u.x + u.y) * (u.x + u.y) - (u.y * u.y + u.x * u.x), u.y * u.y + u.x * u.x,
                                u.y * u.y - u.x * u.x, 2 * (u.z * u.z) - (u.y * u.y - u.x * u.x)))
  {
    hide Val, Cong;
    var a := Square(p.x, u.x);
    var b := Square(p.y, u.y);
    var c := Square(p.z, u.z);
    c := AddReduce(c, c, u.z * u.z, u.z * u.z);
    var x := Add(p.x, p.y, REDUCED, REDUCED, u.x, u.y);
    x := Square(x, u.x + u.y);
    var y := Add(b, a, REDUCED, REDUCED, u.y * u.y, u.x * u.x);
    var z := Sub(b, a, REDUCED, u.y * u.y, u.x * u.x);
    x := SubAfterBasic(x, y, REDUCED, (u.x + u.y) * (u.x + u.y), u.y * u.y + u.x * u.x);
    var t := SubAfterBasic(c, z, TWO51 + 512, 2 * (u.z * u.z), u.y * u.y - u.x * u.x);
    r := P1P1(x, y, z, t);
  }

  /** The part ge25519_nielsadd2_p1p1 and ge25519_pnielsadd_p1p1 share: `zz` is 2 z1 z2. The sign
      bit selects which of ysubx and xaddy each factor meets and where c is added. */
  method SignedSum(p: Ge, ysubx: Fe, xaddy: Fe, t2d: Fe, zz: Fe, signbit: int, ghost u: Residues,
                   ghost v: NielsResidues)
    returns (r: P1P1)
    requires HasFull(p, u) && 0 <= signbit <= 1
    requires Is(ysubx, 4 * TWO51, Signed(v, signbit).ysubx) && Is(xaddy, 4 * TWO51, Signed(v, signbit).xaddy)
    requires Is(t2d, REDUCED, Signed(v, signbit).t2d) && Is(zz, TWO51 + 512, 2 * (u.z * v.z))
    ensures HasP1P1(r, Sum(u, v))
  {
    hide Val, Cong;
    var a := Sub(p.y, p.x, REDUCED, u.y, u.x);
    var b := Add(p.y, p.x, REDUCED, REDUCED, u.y, u.x);
    var first, second := if signbit == 0 then ysubx else xaddy, if signbit == 0 then xaddy else ysubx;
    a := Mul(a, first, u.y - u.x, v.ysubx);
    var x := Mul(b, second, u.y + u.x, v.xaddy);
    var y := Add(x, a, REDUCED, REDUCED, (u.y + u.x) * v.xaddy, (u.y - u.x) * v.ysubx);
    x := Sub(x, a, REDUCED, (u.y + u.x) * v.xaddy, (u.y - u.x) * v.ysubx);
    ghost var k := u.t * Signed(v, signbit).t2d;
    var c := Mul(p.t, t2d, u.t, Signed(v, signbit).t2d);
    var plus := Add(zz, c, TWO51 + 512, REDUCED, 2 * (u.z * v.z), k);
    var minus := Sub(zz, c, TWO51 + 512, 2 * (u.z * v.z), k);
    assert signbit == 1 ==> k == -(u.t * v.t2d);
    r := if signbit == 0 then P1P1(x, y, plus, minus) else P1P1(x, y, minus, plus);
  }

  /** ge25519_nielsadd2_p1p1 */
  method NielsAdd2P1P1(p: Ge, q: Niels, signbit: int, ghost u: Residues, ghost v: NielsResidues) returns (r: P1P1)
    requires HasFull(p, u) && 0 <= signbit <= 1 && v.z == 1 && HasNiels(q, Signed(v, signbit))
    ensures HasP1P1(r, Sum(u, v))
  {
    hide Val, Cong;
    var zz := AddReduce(p.z, p.z, u.z, u.z);
    r := SignedSum(p, q.ysubx, q.xaddy, q.t2d, zz, signbit, u, v);
  }

  /** ge25519_pnielsadd_p1p1 */
  method PNielsAddP1P1(p: Ge, q: PNiels, signbit: int, ghost u: Residues, ghost v: NielsResidues) returns (r: P1P1)
    requires HasFull(p, u) && 0 <= signbit <= 1 && HasPNiels(q, Signed(v, signbit))
    ensures HasP1P1(r, Sum(u, v))
  {
    hide Val, Cong;
    var zz := Mul(p.z, q.z, u.z, v.z);
    zz := AddReduce(zz, zz, u.z * v.z, u.z * v.z);
    r := SignedSum(p, q.ysubx, q.xaddy, q.t2d, zz, signbit, u, v);
  }

  /** ge25519_nielsadd2 up to its four closing multiplications, which are those of
      ge25519_p1p1_to_full. */
  method NielsSum(r0: Ge, q: Niels, ghost u: Residues, ghost v: NielsResidues) returns (r: P1P1)
    requires HasFull(r0, u) && v.z == 1 && HasNiels(q, v)
    ensures HasP1P1(r, Sum(u, v))
  {
    hide Val, Cong;
    var a := Sub(r0.y, r0.x, REDUCED, u.y, u.x);
    var b := Add(r0.y, r0.x, REDUCED, REDUCED, u.y, u.x);
    a := Mul(a, q.ysubx, u.y - u.x, v.ysubx);
    var e := Mul(b, q.xaddy, u.y + u.x, v.xaddy);
    var h := Add(e, a, REDUCED, REDUCED, (u.y + u.x) * v.xaddy, (u.y - u.x) * v.ysubx);
    e := Sub(e, a, REDUCED, (u.y + u.x) * v.xaddy, (u.y - u.x) * v.ysubx);
    var c := Mul(r0.t, q.t2d, u.t, v.t2d);
    var f := Add(r0.z, r0.z, REDUCED, REDUCED, u.z, u.z);
    var g := Add(f, c, 2 * REDUCED, REDUCED, 2 * u.z, u.t * v.t2d);
    f := SubAfterBasic(f, c, 2 * REDUCED, 2 * u.z, u.t * v.t2d);
    r := P1P1(e, h, g, f);
  }

  /** ge25519_pnielsadd up to its closing conversions, which are those of ge25519_p1p1_to_full
      and ge25519_full_to_pniels. */
  method PNielsSum(p: Ge, q: PNiels, ghost u: Residues, ghost v: NielsResidues) returns (r: P1P1)
    requires HasFull(p, u) && HasPNiels(q, v)
    ensures HasP1P1(r, Sum(u, v))
  {
    hide Val, Cong;
    var a := Sub(p.y, p.x, REDUCED, u.y, u.x);
    var b := Add(p.y, p.x, REDUCED, REDUCED, u.y, u.x);
    a := Mul(a, q.ysubx, u.y - u.x, v.ysubx);
    var x := Mul(b, q.xaddy, u.y + u.x, v.xaddy);
    var y := Add(x, a, REDUCED, REDUCED, (u.y + u.x) * v.xaddy, (u.y - u.x) * v.ysubx);
    x := Sub(x, a, REDUCED, (u.y + u.x) * v.xaddy, (u.y - u.x) * v.ysubx);
    var c := Mul(p.t, q.t2d, u.t, v.t2d);
    var t := Mul(p.z, q.z, u.z, v.z);
    t := Add(t, t, REDUCED, REDUCED, u.z * v.z, u.z * v.z);
    var z := Add(t, c, 2 * REDUCED, REDUCED, 2 * (u.z * v.z), u.t * v.t2d);
    t := SubAfterBasic(t, c, 2 * REDUCED, 2 * (u.z * v.z), u.t * v.t2d);
    r := P1P1(x, y, z, t);
  }
}
