/** The lane-complemented round on any lane representation refines the plain round of FIPS 202.

    Six lanes are stored complemented between rounds (`Resting`); theta spreads the complements
    (`AfterTheta`), pi moves them (`BeforeKhi`), and KHI absorbs them again. */
module KeccakComplement {
  import opened KeccakLanes
  import opened KeccakRotations
  import opened KeccakSpec
  import opened KeccakCode

  // ----- Laws of the 64-bit operations -----

  function Flip(b: bool, x: bv64): (r: bv64) {
    if b then Not64(x) else x
  }

  lemma XorCommutes(a: bv64, b: bv64) ensures Xor64(a, b) == Xor64(b, a) {}
  lemma XorAssociates(a: bv64, b: bv64, c: bv64) ensures Xor64(Xor64(a, b), c) == Xor64(a, Xor64(b, c)) {}
  lemma NotNot(a: bv64) ensures Not64(Not64(a)) == a {}
  lemma XorNot(a: bv64, b: bv64) ensures Xor64(a, Not64(b)) == Not64(Xor64(a, b)) {}
  lemma OrAsAnd(a: bv64, b: bv64) ensures Or64(a, b) == Not64(And64(Not64(a), Not64(b))) {}

  lemma XorFlip(p: bool, a: bv64, q: bool, b: bv64)
    ensures Xor64(Flip(p, a), Flip(q, b)) == Flip(p != q, Xor64(a, b))
  {
    hide Xor64, Not64;
    XorCommutes(a, b);
    XorCommutes(Not64(a), b);
    XorNot(b, a);
    XorNot(a, b);
    XorNot(Not64(a), b);
    NotNot(Xor64(a, b));
  }

  lemma FlipFlip(p: bool, q: bool, a: bv64)
    ensures Flip(p, Flip(q, a)) == Flip(p != q, a)
  {
    hide Not64;
    NotNot(a);
  }

  lemma RolFlip(b: bool, a: bv64, n: bv7)
    requires n < 64
    ensures Rol(Flip(b, a), n) == Flip(b, Rol(a, n))
  {
    hide Rol, Not64;
    RolNot(a, n);
  }

  // ----- Which lanes are complemented, and where -----

  datatype Stage = Resting | AfterTheta | BeforeKhi

  /** Whether lane i = 5x + y is stored complemented. Between rounds: a04 a10 a20 a22 a23 a31;
      on input of KHI: a00 a01 a02 a04 a13 a20 a21 a22 a30 a33 a34 a43. */
  predicate On(m: Stage, i: nat) {
    match m
    case Resting => i == 4 || i == 5 || i == 10 || i == 12 || i == 13 || i == 16
    case AfterTheta =>
      i == 0 || i == 1 || i == 2 || i == 3 || i == 5 || i == 10 || i == 12 || i == 13
      || i == 15 || i == 17 || i == 18 || i == 19
    case BeforeKhi =>
      i == 0 || i == 1 || i == 2 || i == 4 || i == 8 || i == 10 || i == 11 || i == 12
      || i == 15 || i == 18 || i == 19 || i == 23
  }

  /** The columns whose theta word is complemented. */
  predicate ThetaOn(x: nat) { x == 0 || x == 3 }

  function Masked(m: Stage, s: seq<bv64>): (t: seq<bv64>)
    requires |s| == 25
    ensures |t| == 25
  {
    seq(25, i requires 0 <= i < 25 => Flip(On(m, i), s[i]))
  }

  lemma MaskedTwice(m: Stage, s: seq<bv64>)
    requires |s| == 25
    ensures Masked(m, Masked(m, s)) == s
  {
    hide Not64;
    forall i | 0 <= i < 25
      ensures Masked(m, Masked(m, s))[i] == s[i]
    {
      FlipFlip(On(m, i), On(m, i), s[i]);
    }
  }

  // ----- Each step moves the complements -----

  lemma ColumnFlips(s: seq<bv64>, x: nat)
    requires |s| == 25 && x < 5
    ensures Column(Masked(Resting, s), x) == Flip(x != 4, Column(s, x))
  {
    hide Xor64, Not64;
    var k := 5 * x;
    var m0, m1, m2, m3, m4 := On(Resting, k), On(Resting, k + 1), On(Resting, k + 2), On(Resting, k + 3), On(Resting, k + 4);
    XorFlip(m0, s[k], m1, s[k + 1]);
    XorFlip(m0 != m1, Xor64(s[k], s[k + 1]), m2, s[k + 2]);
    var p := (m0 != m1) != m2;
    var a := Xor64(Xor64(s[k], s[k + 1]), s[k + 2]);
    XorFlip(p, a, m3, s[k + 3]);
    XorFlip(p != m3, Xor64(a, s[k + 3]), m4, s[k + 4]);
  }

  lemma EffectFlips(s: seq<bv64>, x: nat)
    requires |s| == 25 && x < 5
    ensures Effect(Masked(Resting, s), x) == Flip(ThetaOn(x), Effect(s, x))
  {
    hide Xor64, Not64, Rol, Column;
    var l, r := (x + 4) % 5, (x + 1) % 5;
    ColumnFlips(s, l);
    ColumnFlips(s, r);
    RolFlip(r != 4, Column(s, r), 1);
    XorFlip(l != 4, Column(s, l), r != 4, Rol(Column(s, r), 1));
  }

  lemma ThetaFlipsLanes(s: seq<bv64>)
    requires |s| == 25
    ensures Theta(Masked(Resting, s)) == Masked(AfterTheta, Theta(s))
  {
    hide Xor64, Not64, Effect;
    forall i | 0 <= i < 25
      ensures Theta(Masked(Resting, s))[i] == Masked(AfterTheta, Theta(s))[i]
    {
      EffectFlips(s, i / 5);
      XorFlip(On(Resting, i), s[i], ThetaOn(i / 5), Effect(s, i / 5));
    }
  }

  lemma RhoKeepsFlips(s: seq<bv64>)
    requires |s| == 25
    ensures Rho(Masked(AfterTheta, s)) == Masked(AfterTheta, Rho(s))
  {
    hide Flip, Rol, Shift;
    forall i | 0 <= i < 25
      ensures Rho(Masked(AfterTheta, s))[i] == Masked(AfterTheta, Rho(s))[i]
    {
      RolFlip(On(AfterTheta, i), s[i], Shift(i));
    }
  }

  lemma PiMovesMask(i: nat)
    requires i < 25
    ensures On(AfterTheta, PiSource(i)) == On(BeforeKhi, i)
  {
    // Column by column.
    if i / 5 == 0 {} else if i / 5 == 1 {} else if i / 5 == 2 {} else if i / 5 == 3 {} else {}
  }

  lemma PiMovesFlips(s: seq<bv64>)
    requires |s| == 25
    ensures Pi(Masked(AfterTheta, s)) == Masked(BeforeKhi, Pi(s))
  {
    hide Flip, PiSource;
    forall i | 0 <= i < 25
      ensures Pi(Masked(AfterTheta, s))[i] == Masked(BeforeKhi, Pi(s))[i]
    {
      PiMovesMask(i);
    }
  }

  // ----- The macros through an abstraction of the lanes -----

  function Lanes<L>(h: L -> bv64, s: seq<L>): (t: seq<bv64>)
    ensures |t| == |s|
  {
    seq(|s|, i requires 0 <= i < |s| => h(s[i]))
  }

  lemma Xor5Reordered(a: bv64, b: bv64, c: bv64, d: bv64, e: bv64)
    ensures Xor64(Xor64(Xor64(a, b), e), Xor64(c, d)) == Xor5(a, b, c, d, e)
  {
    hide Xor64;
    var ab := Xor64(a, b);
    XorAssociates(ab, e, Xor64(c, d));
    XorCommutes(e, Xor64(c, d));
    XorAssociates(ab, Xor64(c, d), e);
    XorAssociates(ab, c, d);
  }

  lemma ThetaWordReordered(t: bv64, a: bv64, b: bv64, c: bv64, d: bv64, e: bv64)
    ensures Xor64(Xor64(t, e), Xor64(Xor64(a, b), Xor64(c, d))) == Xor64(Xor5(a, b, c, d, e), t)
  {
    hide Xor64;
    var ab, cd := Xor64(a, b), Xor64(c, d);
    XorAssociates(t, e, Xor64(ab, cd));
    XorCommutes(e, Xor64(ab, cd));
    XorAssociates(ab, c, d);
    XorCommutes(t, Xor5(a, b, c, d, e));
  }

  lemma XorThrough<L(!new)>(o: Ops<L>, h: L -> bv64, a: L, b: L)
    requires Refines(o, h)
    ensures h(o.xor(a, b)) == Xor64(h(a), h(b))
  {
    hide Masks, Rotates, Xor64;
  }

  lemma Sum5Through<L(!new)>(o: Ops<L>, h: L -> bv64, d0: L, d1: L, d2: L, d3: L, d4: L)
    requires Refines(o, h)
    ensures h(o.xor(o.xor(o.xor(d0, d1), d4), o.xor(d2, d3))) == Xor5(h(d0), h(d1), h(d2), h(d3), h(d4))
  {
    hide Refines, Xor64;
    XorThrough(o, h, d0, d1);
    XorThrough(o, h, d2, d3);
    XorThrough(o, h, o.xor(d0, d1), d4);
    XorThrough(o, h, o.xor(o.xor(d0, d1), d4), o.xor(d2, d3));
    Xor5Reordered(h(d0), h(d1), h(d2), h(d3), h(d4));
  }

  lemma ThEltRefines<L(!new)>(o: Ops<L>, h: L -> bv64,
                              c0: L, c1: L, c2: L, c3: L, c4: L, d0: L, d1: L, d2: L, d3: L, d4: L)
    requires Refines(o, h)
    ensures h(ThElt(o, c0, c1, c2, c3, c4, d0, d1, d2, d3, d4))
         == Xor64(Xor5(h(c0), h(c1), h(c2), h(c3), h(c4)), Rol(Xor5(h(d0), h(d1), h(d2), h(d3), h(d4)), 1))
  {
    hide Refines, Rol, Xor64, Xor5;
    var d := o.xor(o.xor(o.xor(d0, d1), d4), o.xor(d2, d3));
    var t := o.rol(d, 1);
    Sum5Through(o, h, d0, d1, d2, d3, d4);
    RolThrough(o, h, d);
    XorThrough(o, h, t, c4);
    XorThrough(o, h, c0, c1);
    XorThrough(o, h, c2, c3);
    XorThrough(o, h, o.xor(c0, c1), o.xor(c2, c3));
    XorThrough(o, h, o.xor(t, c4), o.xor(o.xor(c0, c1), o.xor(c2, c3)));
    ThetaWordReordered(h(t), h(c0), h(c1), h(c2), h(c3), h(c4));
  }

  lemma RolThrough<L(!new)>(o: Ops<L>, h: L -> bv64, d: L)
    requires Refines(o, h)
    ensures h(o.rol(d, 1)) == Rol(h(d), 1)
  {
    hide Adds, Masks, Rol;
  }

  lemma ThetaWordRefines<L(!new)>(o: Ops<L>, h: L -> bv64, s: seq<L>, x: nat)
    requires Refines(o, h) && |s| == 25 && x < 5
    ensures h(ThetaWord(o, s, x)) == Effect(Lanes(h, s), x)
  {
    hide Rol, Refines, Xor64, Xor5, ThElt;
    var c, d := 5 * ((x + 4) % 5), 5 * ((x + 1) % 5);
    ThEltRefines(o, h, s[c], s[c + 1], s[c + 2], s[c + 3], s[c + 4], s[d], s[d + 1], s[d + 2], s[d + 3], s[d + 4]);
  }

  lemma ThetaRefines<L(!new)>(o: Ops<L>, h: L -> bv64, s: seq<L>)
    requires Refines(o, h) && |s| == 25
    ensures Lanes(h, ThetaCode(o, s)) == Theta(Lanes(h, s))
  {
    hide Rol, Masks, Rotates, ThetaWord, Effect, Xor64;
    forall i | 0 <= i < 25
      ensures Lanes(h, ThetaCode(o, s))[i] == Theta(Lanes(h, s))[i]
    {
      ThetaWordRefines(o, h, s, i / 5);
    }
  }

  lemma RhoRefines<L(!new)>(o: Ops<L>, h: L -> bv64, s: seq<L>)
    requires Refines(o, h) && |s| == 25
    ensures Lanes(h, RhoCode(o, s)) == Rho(Lanes(h, s))
  {
    hide Rol, Masks, Adds;
    RolZero(h(s[0]));
    forall i | 0 <= i < 25
      ensures Lanes(h, RhoCode(o, s))[i] == Rho(Lanes(h, s))[i]
    {
    }
  }

  lemma PiRefines<L>(h: L -> bv64, s: seq<L>)
    requires |s| == 25
    ensures Lanes(h, Pi(s)) == Pi(Lanes(h, s))
  {
  }

  // ----- KHI absorbs the complements -----

  /** `KHI_XO` on a complemented first operand, or with a complemented conjunction, is one
      lane of chi. */
  lemma XoIsChi(a: bv64, b: bv64, c: bv64)
    ensures Xor64(a, Or64(b, c)) == Not64(ChiLane(a, b, Not64(c)))
    ensures Xor64(a, Or64(b, c)) == ChiLane(Not64(a), b, Not64(c))
  {
    hide Xor64, And64, Or64, Not64;
    OrAsAnd(b, c);
    XorNot(a, And64(Not64(b), Not64(c)));
    XorCommutes(a, And64(Not64(b), Not64(c)));
    XorNot(And64(Not64(b), Not64(c)), a);
    XorCommutes(Not64(a), And64(Not64(b), Not64(c)));
  }

  /** `KHI_XA` is one lane of chi. */
  lemma XaIsChi(a: bv64, b: bv64, c: bv64)
    ensures Xor64(a, And64(b, c)) == ChiLane(a, Not64(b), c)
    ensures Xor64(a, And64(b, c)) == Not64(ChiLane(Not64(a), Not64(b), c))
  {
    hide Xor64, And64, Not64;
    NotNot(b);
    XorCommutes(a, And64(b, c));
    XorCommutes(Not64(a), And64(b, c));
    XorNot(And64(b, c), a);
    NotNot(Xor64(a, And64(b, c)));
  }

  lemma XoThrough<L(!new)>(o: Ops<L>, h: L -> bv64, a: L, b: L, c: L)
    requires Refines(o, h)
    ensures h(KhiXo(o, a, b, c)) == Xor64(h(a), Or64(h(b), h(c)))
  {
    hide Rotates, Xor64, Or64, And64, Not64;
  }

  lemma XoChi<L(!new)>(o: Ops<L>, h: L -> bv64, a: L, b: L, c: L)
    requires Refines(o, h)
    ensures h(KhiXo(o, a, b, c)) == Not64(ChiLane(h(a), h(b), Not64(h(c))))
  {
    hide Refines, KhiXo, ChiLane, Xor64, Or64, Not64;
    XoThrough(o, h, a, b, c);
    XoIsChi(h(a), h(b), h(c));
  }

  lemma XoChiFlipped<L(!new)>(o: Ops<L>, h: L -> bv64, a: L, b: L, c: L)
    requires Refines(o, h)
    ensures h(KhiXo(o, a, b, c)) == ChiLane(Not64(h(a)), h(b), Not64(h(c)))
  {
    hide Refines, KhiXo, ChiLane, Xor64, Or64, Not64;
    XoThrough(o, h, a, b, c);
    XoIsChi(h(a), h(b), h(c));
  }

  lemma XaThrough<L(!new)>(o: Ops<L>, h: L -> bv64, a: L, b: L, c: L)
    requires Refines(o, h)
    ensures h(KhiXa(o, a, b, c)) == Xor64(h(a), And64(h(b), h(c)))
  {
    hide Rotates, Xor64, Or64, And64, Not64;
  }

  lemma XaChi<L(!new)>(o: Ops<L>, h: L -> bv64, a: L, b: L, c: L)
    requires Refines(o, h)
    ensures h(KhiXa(o, a, b, c)) == ChiLane(h(a), Not64(h(b)), h(c))
  {
    hide Refines, KhiXa, ChiLane, Xor64, And64, Not64;
    XaThrough(o, h, a, b, c);
    XaIsChi(h(a), h(b), h(c));
  }

  lemma XaChiFlipped<L(!new)>(o: Ops<L>, h: L -> bv64, a: L, b: L, c: L)
    requires Refines(o, h)
    ensures h(KhiXa(o, a, b, c)) == Not64(ChiLane(Not64(h(a)), Not64(h(b)), h(c)))
  {
    hide Refines, KhiXa, ChiLane, Xor64, And64, Not64;
    XaThrough(o, h, a, b, c);
    XaIsChi(h(a), h(b), h(c));
  }

  lemma NotThrough<L(!new)>(o: Ops<L>, h: L -> bv64, a: L)
    requires Refines(o, h)
    ensures h(o.not(a)) == Not64(h(a))
  {
    hide Masks, Rotates, Xor64, Not64;
  }

  function RowLanes<L>(h: L -> bv64, r: Row<L>): (v: Row<bv64>) {
    Row(h(r.b0), h(r.b1), h(r.b2), h(r.b3), h(r.b4))
  }

  function RowMasked(m: Stage, y: nat, r: Row<bv64>): (v: Row<bv64>) {
    Row(Flip(On(m, y), r.b0), Flip(On(m, 5 + y), r.b1), Flip(On(m, 10 + y), r.b2),
        Flip(On(m, 15 + y), r.b3), Flip(On(m, 20 + y), r.b4))
  }

  function ChiRow(r: Row<bv64>): (v: Row<bv64>) {
    Row(ChiLane(r.b0, r.b1, r.b2), ChiLane(r.b1, r.b2, r.b3), ChiLane(r.b2, r.b3, r.b4),
        ChiLane(r.b3, r.b4, r.b0), ChiLane(r.b4, r.b0, r.b1))
  }

  /** Row y of `KHI` is chi on the plain row, complemented again where the lanes rest so. */
  ghost predicate RowIsChi<L(!new)>(o: Ops<L>, h: L -> bv64, y: nat, r: Row<L>)
    requires y < 5
  {
    RowLanes(h, KhiRow(o, y, r)) == RowMasked(Resting, y, ChiRow(RowMasked(BeforeKhi, y, RowLanes(h, r))))
  }

  lemma KhiRow0<L(!new)>(o: Ops<L>, h: L -> bv64, r: Row<L>)
    requires Refines(o, h)
    ensures RowIsChi(o, h, 0, r)
  {
    hide Refines, KhiXo, KhiXa, ChiLane, Xor64, And64, Or64, Not64;
    var Row(b0, b1, b2, b3, b4) := r;
    var n := o.not(b2);
    NotThrough(o, h, b2);
    NotNot(h(b2));
    XoChiFlipped(o, h, b0, b1, b2);
    XoChi(o, h, b1, n, b3);
    XaChiFlipped(o, h, b2, b3, b4);
    XoChiFlipped(o, h, b3, b4, b0);
    XaChi(o, h, b4, b0, b1);
  }

  lemma KhiRow1<L(!new)>(o: Ops<L>, h: L -> bv64, r: Row<L>)
    requires Refines(o, h)
    ensures RowIsChi(o, h, 1, r)
  {
    hide Refines, KhiXo, KhiXa, ChiLane, Xor64, And64, Or64, Not64;
    var Row(b0, b1, b2, b3, b4) := r;
    var n := o.not(b4);
    NotThrough(o, h, b4);
    NotNot(h(b4));
    XoChiFlipped(o, h, b0, b1, b2);
    XaChi(o, h, b1, b2, b3);
    XoChiFlipped(o, h, b2, b3, n);
    XoChi(o, h, b3, b4, b0);
    XaChi(o, h, b4, b0, b1);
  }

  lemma KhiRow2<L(!new)>(o: Ops<L>, h: L -> bv64, r: Row<L>)
    requires Refines(o, h)
    ensures RowIsChi(o, h, 2, r)
  {
    hide Refines, KhiXo, KhiXa, ChiLane, Xor64, And64, Or64, Not64;
    var Row(b0, b1, b2, b3, b4) := r;
    var n := o.not(b3);
    NotThrough(o, h, b3);
    NotNot(h(b3));
    XoChiFlipped(o, h, b0, b1, b2);
    XaChi(o, h, b1, b2, b3);
    XaChiFlipped(o, h, b2, n, b4);
    XoChiFlipped(o, h, n, b4, b0);
    XaChi(o, h, b4, b0, b1);
  }

  lemma KhiRow3<L(!new)>(o: Ops<L>, h: L -> bv64, r: Row<L>)
    requires Refines(o, h)
    ensures RowIsChi(o, h, 3, r)
  {
    hide Refines, KhiXo, KhiXa, ChiLane, Xor64, And64, Or64, Not64;
    var Row(b0, b1, b2, b3, b4) := r;
    var n := o.not(b3);
    NotThrough(o, h, b3);
    NotNot(h(b3));
    XaChi(o, h, b0, b1, b2);
    XoChiFlipped(o, h, b1, b2, b3);
    XoChi(o, h, b2, n, b4);
    XaChi(o, h, n, b4, b0);
    XoChiFlipped(o, h, b4, b0, b1);
  }

  lemma KhiRow4<L(!new)>(o: Ops<L>, h: L -> bv64, r: Row<L>)
    requires Refines(o, h)
    ensures RowIsChi(o, h, 4, r)
  {
    hide Refines, KhiXo, KhiXa, ChiLane, Xor64, And64, Or64, Not64;
    var Row(b0, b1, b2, b3, b4) := r;
    var n := o.not(b1);
    NotThrough(o, h, b1);
    NotNot(h(b1));
    XaChiFlipped(o, h, b0, n, b2);
    XoChiFlipped(o, h, n, b2, b3);
    XaChi(o, h, b2, b3, b4);
    XoChiFlipped(o, h, b3, b4, b0);
    XaChi(o, h, b4, b0, b1);
  }

  /** The plain lane (x, y) behind a state that `KHI` is about to read. */
  function Plain<L>(h: L -> bv64, s: seq<L>, x: nat, y: nat): (r: bv64)
    requires |s| == 25 && x < 5 && y < 5
  {
    Flip(On(BeforeKhi, 5 * x + y), h(s[5 * x + y]))
  }

  lemma KhiLane<L(!new)>(o: Ops<L>, h: L -> bv64, s: seq<L>, x: nat, y: nat)
    requires Refines(o, h) && |s| == 25 && x < 5 && y < 5
    ensures h(KhiRow(o, y, RowOf(s, y)).At(x))
         == Flip(On(Resting, 5 * x + y),
                 ChiLane(Plain(h, s, x, y), Plain(h, s, (x + 1) % 5, y), Plain(h, s, (x + 2) % 5, y)))
  {
    hide Refines, KhiRow, ChiLane, Flip, On, RowMasked, ChiRow, RowLanes, RowOf, Row.At;
    var r := RowOf(s, y);
    KhiRowIsChi(o, h, y, r);
    var p := RowMasked(BeforeKhi, y, RowLanes(h, r));
    RowLanesAt(h, KhiRow(o, y, r), x);
    RowMaskedAt(Resting, y, ChiRow(p), x);
    ChiRowAt(p, x);
    PlainAt(h, s, x, y);
    PlainAt(h, s, (x + 1) % 5, y);
    PlainAt(h, s, (x + 2) % 5, y);
  }

  lemma RowLanesAt<L>(h: L -> bv64, r: Row<L>, x: nat)
    requires x < 5
    ensures RowLanes(h, r).At(x) == h(r.At(x))
  {
  }

  lemma RowMaskedAt(m: Stage, y: nat, r: Row<bv64>, x: nat)
    requires x < 5
    ensures RowMasked(m, y, r).At(x) == Flip(On(m, 5 * x + y), r.At(x))
  {
    hide On, Flip;
  }

  lemma ChiRowAt(r: Row<bv64>, x: nat)
    requires x < 5
    ensures ChiRow(r).At(x) == ChiLane(r.At(x), r.At((x + 1) % 5), r.At((x + 2) % 5))
  {
    hide ChiLane;
    // Lane by lane.
    if x == 0 {} else if x == 1 {} else if x == 2 {} else if x == 3 {} else {}
  }

  lemma PlainAt<L>(h: L -> bv64, s: seq<L>, x: nat, y: nat)
    requires |s| == 25 && x < 5 && y < 5
    ensures RowMasked(BeforeKhi, y, RowLanes(h, RowOf(s, y))).At(x) == Plain(h, s, x, y)
  {
    hide On, Flip, RowMasked, RowLanes;
    RowMaskedAt(BeforeKhi, y, RowLanes(h, RowOf(s, y)), x);
    RowLanesAt(h, RowOf(s, y), x);
  }

  lemma RowNeighbours(i: nat)
    requires i < 25
    ensures i == 5 * (i / 5) + i % 5
    ensures (i + 5) % 25 == 5 * ((i / 5 + 1) % 5) + i % 5
    ensures (i + 10) % 25 == 5 * ((i / 5 + 2) % 5) + i % 5
  {
  }

  lemma ChiAt(s: seq<bv64>, i: nat)
    requires |s| == 25 && i < 25
    ensures Chi(s)[i] == ChiLane(s[i], s[(i + 5) % 25], s[(i + 10) % 25])
  {
    hide ChiLane;
    assert Chi(s)[i] == ChiOf(s, i) by { hide ChiOf; }
  }

  lemma KhiRefines<L(!new)>(o: Ops<L>, h: L -> bv64, s: seq<L>)
    requires Refines(o, h) && |s| == 25
    ensures Lanes(h, KhiCode(o, s)) == Masked(Resting, Chi(Masked(BeforeKhi, Lanes(h, s))))
  {
    hide Refines, KhiCode, KhiRow, Chi, ChiLane, Flip, On, RowOf, Row.At;
    var p := Masked(BeforeKhi, Lanes(h, s));
    var l, m := Lanes(h, KhiCode(o, s)), Masked(Resting, Chi(p));
    forall i | 0 <= i < 25
      ensures l[i] == m[i]
    {
      var x, y := i / 5, i % 5;
      KhiLane(o, h, s, x, y);
      RowNeighbours(i);
      var j, k := (i + 5) % 25, (i + 10) % 25;
      assert p[i] == Plain(h, s, x, y);
      assert p[j] == Plain(h, s, (x + 1) % 5, y);
      assert p[k] == Plain(h, s, (x + 2) % 5, y);
      ChiAt(p, i);
      KhiCodeAt(o, s, i);
      assert m[i] == Flip(On(Resting, i), ChiLane(p[i], p[j], p[k]));
    }
  }

  lemma KhiRowIsChi<L(!new)>(o: Ops<L>, h: L -> bv64, y: nat, r: Row<L>)
    requires Refines(o, h) && y < 5
    ensures RowIsChi(o, h, y, r)
  {
    hide Refines, RowIsChi;
    if y == 0 { KhiRow0(o, h, r); }
    else if y == 1 { KhiRow1(o, h, r); }
    else if y == 2 { KhiRow2(o, h, r); }
    else if y == 3 { KhiRow3(o, h, r); }
    else { KhiRow4(o, h, r); }
  }

  lemma IotaRefines<L(!new)>(o: Ops<L>, h: L -> bv64, s: seq<L>, k: L, plain: seq<bv64>)
    requires Refines(o, h) && |s| == |plain| == 25
    requires Lanes(h, s) == Masked(Resting, plain)
    ensures Lanes(h, IotaCode(o, s, k)) == Masked(Resting, Iota(plain, h(k)))
  {
    hide Refines, Xor64, Not64;
    XorThrough(o, h, s[0], k);
    assert h(s[0]) == Lanes(h, s)[0] == Masked(Resting, plain)[0];
    var l, m := Lanes(h, IotaCode(o, s, k)), Masked(Resting, Iota(plain, h(k)));
    forall i | 0 <= i < 25
      ensures l[i] == m[i]
    {
      if i > 0 { assert l[i] == Lanes(h, s)[i] == Masked(Resting, plain)[i]; }
    }
  }

  /** One round of the code, on complemented lanes in any representation, is one plain round. */
  lemma RoundRefines<L(!new)>(o: Ops<L>, h: L -> bv64, s: seq<L>, k: L, plain: seq<bv64>)
    requires Refines(o, h) && |s| == |plain| == 25
    requires Lanes(h, s) == Masked(Resting, plain)
    ensures Lanes(h, RoundCode(o, s, k)) == Masked(Resting, Round(plain, h(k)))
  {
    hide Refines, ThetaCode, RhoCode, KhiCode, IotaCode, Pi, Theta, Rho, Chi, Iota, Masked, Lanes;
    var s1 := ThetaCode(o, s);
    var s2 := RhoCode(o, s1);
    var s3 := Pi(s2);
    ThetaRefines(o, h, s);
    ThetaFlipsLanes(plain);
    RhoRefines(o, h, s1);
    RhoKeepsFlips(Theta(plain));
    PiRefines(h, s2);
    PiMovesFlips(Rho(Theta(plain)));
    KhiRefines(o, h, s3);
    MaskedTwice(BeforeKhi, Pi(Rho(Theta(plain))));
    IotaRefines(o, h, KhiCode(o, s3), k, Chi(Pi(Rho(Theta(plain)))));
  }

  /** Any number of rounds of the code is as many plain rounds. */
  lemma {:induction false} RoundsRefine<L(!new)>(o: Ops<L>, h: L -> bv64, s: seq<L>, k: seq<L>, plain: seq<bv64>)
    requires Refines(o, h) && |s| == |plain| == 25
    requires Lanes(h, s) == Masked(Resting, plain)
    ensures Lanes(h, RoundsCode(o, s, k)) == Masked(Resting, Rounds(plain, Lanes(h, k)))
    decreases |k|
  {
    hide Refines, RoundCode, Round, Masked;
    if k != [] {
      RoundRefines(o, h, s, k[0], plain);
      RoundsRefine(o, h, RoundCode(o, s, k[0]), k[1..], Round(plain, h(k[0])));
      assert Lanes(h, k)[1..] == Lanes(h, k[1..]);
    }
  }
}
