/** The round of `src/keccak.c` as a function of the 25 lanes, for any lane macros. That it
    computes the plain round through the lane complement is proved in `KeccakComplement`. */
module KeccakCode {
  import opened KeccakLanes
  import opened KeccakSpec

  // ----- The macros -----

  /** `TH_ELT(t, c0, .., c4, d0, .., d4)` with the two columns of a state. */
  function ThElt<L>(o: Ops<L>, c0: L, c1: L, c2: L, c3: L, c4: L, d0: L, d1: L, d2: L, d3: L, d4: L): (r: L) {
    var tt0 := o.rol(o.xor(o.xor(o.xor(d0, d1), d4), o.xor(d2, d3)), 1);
    var tt2 := o.xor(o.xor(c0, c1), o.xor(c2, c3));
    o.xor(o.xor(tt0, c4), tt2)
  }

  /** The word that `THETA` adds to the lanes of column x. */
  function ThetaWord<L>(o: Ops<L>, s: seq<L>, x: nat): (r: L)
    requires |s| == 25 && x < 5
  {
    var c := 5 * ((x + 4) % 5);
    var d := 5 * ((x + 1) % 5);
    ThElt(o, s[c], s[c + 1], s[c + 2], s[c + 3], s[c + 4], s[d], s[d + 1], s[d + 2], s[d + 3], s[d + 4])
  }

  function ThetaCode<L>(o: Ops<L>, s: seq<L>): (t: seq<L>)
    requires |s| == 25
    ensures |t| == 25
  {
    seq(25, i requires 0 <= i < 25 => o.xor(s[i], ThetaWord(o, s, i / 5)))
  }

  function RhoCode<L>(o: Ops<L>, s: seq<L>): (t: seq<L>)
    requires |s| == 25
    ensures |t| == 25
  {
    seq(25, i requires 0 <= i < 25 => if i == 0 then s[0] else o.rol(s[i], Shift(i)))
  }

  function KhiXo<L>(o: Ops<L>, a: L, b: L, c: L): (r: L) { o.xor(a, o.or(b, c)) }
  function KhiXa<L>(o: Ops<L>, a: L, b: L, c: L): (r: L) { o.xor(a, o.and(b, c)) }

  /** The five lanes of one row, x = 0 .. 4. */
  datatype Row<L> = Row(b0: L, b1: L, b2: L, b3: L, b4: L)
  {
    function At(x: nat): (r: L)
      requires x < 5
    {
      if x == 0 then b0 else if x == 1 then b1 else if x == 2 then b2 else if x == 3 then b3 else b4
    }
  }

  function RowOf<L>(s: seq<L>, y: nat): (r: Row<L>)
    requires |s| == 25 && y < 5
  {
    Row(s[y], s[5 + y], s[10 + y], s[15 + y], s[20 + y])
  }

  /** `KHI` on row y: the five formulas and the one complement differ from row to row. */
  function KhiRow<L>(o: Ops<L>, y: nat, r: Row<L>): (v: Row<L>)
    requires y < 5
  {
    var Row(b0, b1, b2, b3, b4) := r;
    if y == 0 then
      var bnn := o.not(b2);
      Row(KhiXo(o, b0, b1, b2), KhiXo(o, b1, bnn, b3), KhiXa(o, b2, b3, b4),
          KhiXo(o, b3, b4, b0), KhiXa(o, b4, b0, b1))
    else if y == 1 then
      var bnn := o.not(b4);
      Row(KhiXo(o, b0, b1, b2), KhiXa(o, b1, b2, b3), KhiXo(o, b2, b3, bnn),
          KhiXo(o, b3, b4, b0), KhiXa(o, b4, b0, b1))
    else if y == 2 then
      var bnn := o.not(b3);
      Row(KhiXo(o, b0, b1, b2), KhiXa(o, b1, b2, b3), KhiXa(o, b2, bnn, b4),
          KhiXo(o, bnn, b4, b0), KhiXa(o, b4, b0, b1))
    else if y == 3 then
      var bnn := o.not(b3);
      Row(KhiXa(o, b0, b1, b2), KhiXo(o, b1, b2, b3), KhiXo(o, b2, bnn, b4),
          KhiXa(o, bnn, b4, b0), KhiXo(o, b4, b0, b1))
    else
      var bnn := o.not(b1);
      Row(KhiXa(o, b0, bnn, b2), KhiXo(o, bnn, b2, b3), KhiXa(o, b2, b3, b4),
          KhiXo(o, b3, b4, b0), KhiXa(o, b4, b0, b1))
  }

  function KhiCode<L>(o: Ops<L>, s: seq<L>): (t: seq<L>)
    requires |s| == 25
    ensures |t| == 25
  {
    seq(25, i requires 0 <= i < 25 => KhiRow(o, i % 5, RowOf(s, i % 5)).At(i / 5))
  }

  lemma KhiCodeAt<L>(o: Ops<L>, s: seq<L>, i: nat)
    requires |s| == 25 && i < 25
    ensures KhiCode(o, s)[i] == KhiRow(o, i % 5, RowOf(s, i % 5)).At(i / 5)
  {
    hide KhiRow, RowOf, Row.At;
  }

  function IotaCode<L>(o: Ops<L>, s: seq<L>, k: L): (t: seq<L>)
    requires |s| == 25
    ensures |t| == 25
  {
    s[0 := o.xor(s[0], k)]
  }

  /** `KF_ELT`: the relabelling between `RHO` and `KHI` is the pi step. */
  function RoundCode<L>(o: Ops<L>, s: seq<L>, k: L): (t: seq<L>)
    requires |s| == 25
    ensures |t| == 25
  {
    IotaCode(o, KhiCode(o, Pi(RhoCode(o, ThetaCode(o, s)))), k)
  }

  function RoundsCode<L>(o: Ops<L>, s: seq<L>, k: seq<L>): (t: seq<L>)
    requires |s| == 25
    ensures |t| == 25
    decreases |k|
  {
    hide RoundCode;
    if k == [] then s else RoundsCode(o, RoundCode(o, s, k[0]), k[1..])
  }
}
