/** `KECCAK_F_1600` of `src/keccak.c`: the relabelled rounds and the moves back to `P0`, for
    every unroll count, on a memory of 25 words. */
module KeccakPermutation {
  import opened KeccakLanes
  import opened KeccakSpec
  import opened KeccakCode
  import opened KeccakLabels

  // ----- The moves -----

  /** After the moves, word x + 5y holds what the label row[y] named before. */
  predicate RowRestored<L(==)>(a: seq<L>, m: seq<L>, row: seq<nat>, x: nat)
    requires |a| == 25 && |m| == 25 && x < 5
  {
    && |row| == 5 && Word(row[0]) < 25 && Word(row[1]) < 25 && Word(row[2]) < 25 && Word(row[3]) < 25
    && Word(row[4]) < 25
    && a[x] == m[Word(row[0])] && a[x + 5] == m[Word(row[1])] && a[x + 10] == m[Word(row[2])]
    && a[x + 15] == m[Word(row[3])] && a[x + 20] == m[Word(row[4])]
  }

  predicate Restored<L(==)>(a: seq<L>, m: seq<L>, p: Table) {
    && |a| == 25 && |m| == 25 && Square(p)
    && RowRestored(a, m, p[0], 0) && RowRestored(a, m, p[1], 1) && RowRestored(a, m, p[2], 2)
    && RowRestored(a, m, p[3], 3) && RowRestored(a, m, p[4], 4)
  }

  /** `P1_TO_P0`. */
  method Restore1<L(==)>(m: seq<L>) returns (a: seq<L>)
    requires |m| == 25
    ensures |a| == 25
    ensures RowRestored(a, m, [0, 30, 10, 40, 20], 0)
    ensures RowRestored(a, m, [11, 41, 21, 1, 31], 1)
    ensures RowRestored(a, m, [22, 2, 32, 12, 42], 2)
    ensures RowRestored(a, m, [33, 13, 43, 23, 3], 3)
    ensures RowRestored(a, m, [44, 24, 4, 34, 14], 4)
  {
    a := m;
    var t := a[5]; a := a[5 := a[3]]; a := a[3 := a[18]]; a := a[18 := a[17]];
    a := a[17 := a[11]]; a := a[11 := a[7]]; a := a[7 := a[10]]; a := a[10 := a[1]];
    a := a[1 := a[6]]; a := a[6 := a[9]]; a := a[9 := a[22]]; a := a[22 := a[14]];
    a := a[14 := a[20]]; a := a[20 := a[2]]; a := a[2 := a[12]]; a := a[12 := a[13]];
    a := a[13 := a[19]]; a := a[19 := a[23]]; a := a[23 := a[15]]; a := a[15 := a[4]];
    a := a[4 := a[24]]; a := a[24 := a[21]]; a := a[21 := a[8]]; a := a[8 := a[16]];
    a := a[16 := t];
  }

  /** `P2_TO_P0`. */
  method Restore2<L(==)>(m: seq<L>) returns (a: seq<L>)
    requires |m| == 25
    ensures |a| == 25
    ensures RowRestored(a, m, [0, 33, 11, 44, 22], 0)
    ensures RowRestored(a, m, [41, 24, 2, 30, 13], 1)
    ensures RowRestored(a, m, [32, 10, 43, 21, 4], 2)
    ensures RowRestored(a, m, [23, 1, 34, 12, 40], 3)
    ensures RowRestored(a, m, [14, 42, 20, 3, 31], 4)
  {
    a := m;
    var t := a[5]; a := a[5 := a[18]]; a := a[18 := a[11]]; a := a[11 := a[10]];
    a := a[10 := a[6]]; a := a[6 := a[22]]; a := a[22 := a[20]]; a := a[20 := a[12]];
    a := a[12 := a[19]]; a := a[19 := a[15]]; a := a[15 := a[24]]; a := a[24 := a[8]];
    a := a[8 := t];
    t := a[1]; a := a[1 := a[9]]; a := a[9 := a[14]]; a := a[14 := a[2]];
    a := a[2 := a[13]]; a := a[13 := a[23]]; a := a[23 := a[4]]; a := a[4 := a[21]];
    a := a[21 := a[16]]; a := a[16 := a[3]]; a := a[3 := a[17]]; a := a[17 := a[7]];
    a := a[7 := t];
  }

  /** `P4_TO_P0`. */
  method Restore4<L(==)>(m: seq<L>) returns (a: seq<L>)
    requires |m| == 25
    ensures |a| == 25
    ensures RowRestored(a, m, [0, 12, 24, 31, 43], 0)
    ensures RowRestored(a, m, [42, 4, 11, 23, 30], 1)
    ensures RowRestored(a, m, [34, 41, 3, 10, 22], 2)
    ensures RowRestored(a, m, [21, 33, 40, 2, 14], 3)
    ensures RowRestored(a, m, [13, 20, 32, 44, 1], 4)
  {
    a := m;
    var t := a[5]; a := a[5 := a[11]]; a := a[11 := a[6]]; a := a[6 := a[20]];
    a := a[20 := a[19]]; a := a[19 := a[24]]; a := a[24 := t];
    t := a[10]; a := a[10 := a[22]]; a := a[22 := a[12]]; a := a[12 := a[15]];
    a := a[15 := a[8]]; a := a[8 := a[18]]; a := a[18 := t];
    t := a[1]; a := a[1 := a[14]]; a := a[14 := a[13]]; a := a[13 := a[4]];
    a := a[4 := a[16]]; a := a[16 := a[17]]; a := a[17 := t];
    t := a[21]; a := a[21 := a[3]]; a := a[3 := a[7]]; a := a[7 := a[9]];
    a := a[9 := a[2]]; a := a[2 := a[23]]; a := a[23 := t];
  }

  /** `P6_TO_P0`. */
  method Restore6<L(==)>(m: seq<L>) returns (a: seq<L>)
    requires |m| == 25
    ensures |a| == 25
    ensures RowRestored(a, m, [0, 2, 4, 1, 3], 0)
    ensures RowRestored(a, m, [20, 22, 24, 21, 23], 1)
    ensures RowRestored(a, m, [40, 42, 44, 41, 43], 2)
    ensures RowRestored(a, m, [10, 12, 14, 11, 13], 3)
    ensures RowRestored(a, m, [30, 32, 34, 31, 33], 4)
  {
    a := m;
    var t := a[5]; a := a[5 := a[10]]; a := a[10 := a[20]]; a := a[20 := a[15]];
    a := a[15 := t];
    t := a[1]; a := a[1 := a[2]]; a := a[2 := a[4]]; a := a[4 := a[3]];
    a := a[3 := t];
    t := a[6]; a := a[6 := a[12]]; a := a[12 := a[24]]; a := a[24 := a[18]];
    a := a[18 := t];
    t := a[11]; a := a[11 := a[22]]; a := a[22 := a[19]]; a := a[19 := a[8]];
    a := a[8 := t];
    t := a[16]; a := a[16 := a[7]]; a := a[7 := a[14]]; a := a[14 := a[23]];
    a := a[23 := t];
    t := a[21]; a := a[21 := a[17]]; a := a[17 := a[9]]; a := a[9 := a[13]];
    a := a[13 := t];
  }

  /** `P8_TO_P0`. */
  method Restore8<L(==)>(m: seq<L>) returns (a: seq<L>)
    requires |m| == 25
    ensures |a| == 25
    ensures RowRestored(a, m, [0, 11, 22, 33, 44], 0)
    ensures RowRestored(a, m, [32, 43, 4, 10, 21], 1)
    ensures RowRestored(a, m, [14, 20, 31, 42, 3], 2)
    ensures RowRestored(a, m, [41, 2, 13, 24, 30], 3)
    ensures RowRestored(a, m, [23, 34, 40, 1, 12], 4)
  {
    a := m;
    var t := a[5]; a := a[5 := a[6]]; a := a[6 := a[19]]; a := a[19 := t];
    t := a[10]; a := a[10 := a[12]]; a := a[12 := a[8]]; a := a[8 := t];
    t := a[15]; a := a[15 := a[18]]; a := a[18 := a[22]]; a := a[22 := t];
    t := a[20]; a := a[20 := a[24]]; a := a[24 := a[11]]; a := a[11 := t];
    t := a[1]; a := a[1 := a[13]]; a := a[13 := a[16]]; a := a[16 := t];
    t := a[21]; a := a[21 := a[7]]; a := a[7 := a[2]]; a := a[2 := t];
    t := a[17]; a := a[17 := a[14]]; a := a[14 := a[4]]; a := a[4 := t];
    t := a[3]; a := a[3 := a[9]]; a := a[9 := a[23]]; a := a[23 := t];
  }

  /** `P12_TO_P0`. */
  method Restore12<L(==)>(m: seq<L>) returns (a: seq<L>)
    requires |m| == 25
    ensures |a| == 25
    ensures RowRestored(a, m, [0, 4, 3, 2, 1], 0)
    ensures RowRestored(a, m, [40, 44, 43, 42, 41], 1)
    ensures RowRestored(a, m, [30, 34, 33, 32, 31], 2)
    ensures RowRestored(a, m, [20, 24, 23, 22, 21], 3)
    ensures RowRestored(a, m, [10, 14, 13, 12, 11], 4)
  {
    a := m;
    var t := a[5]; a := a[5 := a[20]]; a := a[20 := t];
    t := a[10]; a := a[10 := a[15]]; a := a[15 := t];
    t := a[1]; a := a[1 := a[4]]; a := a[4 := t];
    t := a[6]; a := a[6 := a[24]]; a := a[24 := t];
    t := a[11]; a := a[11 := a[19]]; a := a[19 := t];
    t := a[16]; a := a[16 := a[14]]; a := a[14 := t];
    t := a[21]; a := a[21 := a[9]]; a := a[9 := t];
    t := a[2]; a := a[2 := a[3]]; a := a[3 := t];
    t := a[7]; a := a[7 := a[23]]; a := a[23 := t];
    t := a[12]; a := a[12 := a[18]]; a := a[18 := t];
    t := a[17]; a := a[17 := a[13]]; a := a[13 := t];
    t := a[22]; a := a[22 := a[8]]; a := a[8 := t];
  }

  lemma RestoredView<L>(a: seq<L>, m: seq<L>, p: Table, first: seq<nat>, w: seq<nat>)
    requires Restored(a, m, p) && Square(p)
    requires IsLayout(first) && forall i | 0 <= i < 25 :: first[i] == Transposed(i)
    requires IsLayout(w) && w == Layout(p)
    ensures |a| == |m| == 25 && View(a, first) == View(m, w)
  {
    hide Square, Word, RowRestored, At, Transposed;
    forall i | 0 <= i < 25
      ensures View(a, first)[i] == View(m, w)[i]
    {
      assert w[i] == Word(At(p, i)) && first[i] == Transposed(i);
      RestoredAt(a, m, p, i);
    }
  }

  lemma RestoredAt<L>(a: seq<L>, m: seq<L>, p: Table, i: nat)
    requires Restored(a, m, p) && i < 25 && Word(At(p, i)) < 25 && Transposed(i) < 25
    ensures a[Transposed(i)] == m[Word(At(p, i))]
  {
    hide Word;
  }

  /** The unroll counts the source implements; 0 is full unrolling. */
  predicate IsUnroll(n: nat) {
    n == 0 || n == 1 || n == 2 || n == 4 || n == 6 || n == 8 || n == 12
  }

  function Words(r: nat): (w: seq<nat>)
    requires r < 24
    ensures IsLayout(w)
  {
    LabelsAreLayouts(r);
    Layout(Labels(r))
  }

  method Restore<L(==)>(n: nat, m: seq<L>) returns (a: seq<L>)
    requires IsUnroll(n) && |m| == 25
    ensures |a| == 25 && View(a, Words(0)) == View(m, Words(n))
  {
    hide View, Words, RowRestored;
    a := m;
    if n == 1 { a := Restore1(m); }
    else if n == 2 { a := Restore2(m); }
    else if n == 4 { a := Restore4(m); }
    else if n == 6 { a := Restore6(m); }
    else if n == 8 { a := Restore8(m); }
    else if n == 12 { a := Restore12(m); }
    if n != 0 { RestoredWords(a, m, n); }
  }

  lemma RestoredWords<L>(a: seq<L>, m: seq<L>, n: nat)
    requires n < 24 && Restored(a, m, Labels(n))
    ensures |a| == |m| == 25 && View(a, Words(0)) == View(m, Words(n))
  {
    hide Labels, Layout, Restored, View, At, IsLayout;
    LabelsAreLayouts(0);
    LabelsAreLayouts(n);
    FirstLayout();
    RestoredView(a, m, Labels(n), Words(0), Words(n));
  }

  // ----- The steps in place, on the words that a table names -----

  /** `THETA`. */
  method ThetaStep<L>(o: Ops<L>, m: seq<L>, w: seq<nat>) returns (a: seq<L>)
    requires |m| == 25 && IsLayout(w)
    ensures |a| == 25 && View(a, w) == ThetaCode(o, View(m, w))
  {
    hide ThetaWord;
    ghost var s := View(m, w);
    a := m;
    var t := seq(5, x requires 0 <= x < 5 && |View(m, w)| == 25 => ThetaWord(o, View(m, w), x));
    for i := 0 to 25
      invariant |a| == 25
      invariant forall j | 0 <= j < i :: a[w[j]] == ThetaCode(o, s)[j]
      invariant forall j | i <= j < 25 :: a[w[j]] == m[w[j]]
    {
      a := a[w[i] := o.xor(a[w[i]], t[i / 5])];
    }
  }

  /** `RHO`: the lane b(0, 0) stays. */
  method RhoStep<L>(o: Ops<L>, m: seq<L>, w: seq<nat>) returns (a: seq<L>)
    requires |m| == 25 && IsLayout(w)
    ensures |a| == 25 && View(a, w) == RhoCode(o, View(m, w))
  {
    hide Shift;
    ghost var s := View(m, w);
    a := m;
    for i := 1 to 25
      invariant |a| == 25
      invariant forall j | 0 <= j < i :: a[w[j]] == RhoCode(o, s)[j]
      invariant forall j | i <= j < 25 :: a[w[j]] == m[w[j]]
    {
      a := a[w[i] := o.rol(a[w[i]], Shift(i))];
    }
  }

  /** `KHI` on row y: the five lanes are read before the first is written. */
  method KhiRowStep<L>(o: Ops<L>, m: seq<L>, w: seq<nat>, y: nat) returns (a: seq<L>)
    requires |m| == 25 && IsLayout(w) && y < 5
    ensures |a| == 25
    ensures forall i | 0 <= i < 25 ::
      View(a, w)[i] == if i % 5 == y then KhiRow(o, y, RowOf(View(m, w), y)).At(i / 5) else View(m, w)[i]
  {
    hide KhiRow;
    var c := KhiRow(o, y, Row(m[w[y]], m[w[5 + y]], m[w[10 + y]], m[w[15 + y]], m[w[20 + y]]));
    a := m[w[y] := c.b0];
    a := a[w[5 + y] := c.b1];
    a := a[w[10 + y] := c.b2];
    a := a[w[15 + y] := c.b3];
    a := a[w[20 + y] := c.b4];
  }

  /** `KHI`, row by row. */
  method KhiStep<L>(o: Ops<L>, m: seq<L>, w: seq<nat>) returns (a: seq<L>)
    requires |m| == 25 && IsLayout(w)
    ensures |a| == 25 && View(a, w) == KhiCode(o, View(m, w))
  {
    hide KhiRow, RowOf, KhiCode, Row.At, View;
    ghost var s := View(m, w);
    a := m;
    for y := 0 to 5
      invariant |a| == 25
      invariant forall i | 0 <= i < 25 :: View(a, w)[i] == if i % 5 < y then KhiCode(o, s)[i] else s[i]
    {
      ghost var v := View(a, w);
      SameRow(v, s, y);
      a := KhiRowStep(o, a, w, y);
      forall i | 0 <= i < 25
        ensures View(a, w)[i] == if i % 5 < y + 1 then KhiCode(o, s)[i] else s[i]
      {
        KhiCodeAt(o, s, i);
      }
    }
  }

  lemma SameRow<L>(v: seq<L>, s: seq<L>, y: nat)
    requires |v| == |s| == 25 && y < 5
    requires forall i | 0 <= i < 25 && i % 5 == y :: v[i] == s[i]
    ensures RowOf(v, y) == RowOf(s, y)
  {
  }

  /** `KF_ELT(r, s, k)` with s the table after r. */
  method KfElt<L>(o: Ops<L>, m: seq<L>, r: nat, k: L) returns (a: seq<L>)
    requires |m| == 25 && r < 24
    ensures |a| == 25 && View(a, Words(Next(r))) == RoundCode(o, View(m, Words(r)), k)
  {
    hide View, Words, ThetaCode, RhoCode, KhiCode, Pi;
    a := ThetaStep(o, m, Words(r));
    a := RhoStep(o, a, Words(r));
    NextWords(a, r);
    a := KhiStep(o, a, Words(Next(r)));
    FirstWord(a, Next(r), o.xor(a[0], k));
    a := a[0 := o.xor(a[0], k)];
  }

  lemma NextWords<L>(m: seq<L>, r: nat)
    requires |m| == 25 && r < 24
    ensures View(m, Words(Next(r))) == Pi(View(m, Words(r)))
  {
    hide Labels, Layout, View, Pi, IsLayout;
    NextViewIsPi(m, r);
  }

  /** a00 is the first word in every table. */
  lemma FirstWord<L>(m: seq<L>, r: nat, v: L)
    requires |m| == 25 && r < 24
    ensures View(m, Words(r))[0] == m[0]
    ensures View(m[0 := v], Words(r)) == View(m, Words(r))[0 := v]
  {
    hide Words;
    FirstIndex(r);
  }

  lemma {:induction false} FirstIndex(r: nat)
    requires r < 24
    ensures Words(r)[0] == 0
  {
    hide Labels, Renames, IsLayout;
    LabelsAreLayouts(r);
    if r == 0 {
      FirstLabels();
    } else {
      FirstIndex(r - 1);
      LabelsAreLayouts(r - 1);
      LabelsFollowPi(r - 1);
      RenamedLayout(Labels(r - 1), Labels(r));
      assert PiSource(0) == 0;
    }
  }

  // ----- The permutation -----

  lemma {:induction false} RoundsCodeSplit<L>(o: Ops<L>, s: seq<L>, j: seq<L>, k: seq<L>)
    requires |s| == 25
    ensures RoundsCode(o, s, j + k) == RoundsCode(o, RoundsCode(o, s, j), k)
    decreases |j|
  {
    hide RoundCode;
    if j == [] {
      assert j + k == k;
    } else {
      RoundsCodeSplit(o, RoundCode(o, s, j[0]), j[1..], k);
      assert (j + k)[1..] == j[1..] + k;
    }
  }

  /** The rounds `KF_ELT(0, 1, ..)`, `KF_ELT(1, 2, ..)`, ..., one for each constant of `k`. */
  method Unrolled<L>(o: Ops<L>, m: seq<L>, k: seq<L>) returns (a: seq<L>)
    requires |m| == 25 && |k| <= 24
    ensures |a| == 25 && View(a, Words(|k| % 24)) == RoundsCode(o, View(m, Words(0)), k)
  {
    hide View, Words, RoundCode;
    ghost var s := View(m, Words(0));
    a := m;
    for r := 0 to |k|
      invariant |a| == 25
      invariant View(a, Words(r % 24)) == RoundsCode(o, s, k[..r])
    {
      a := KfElt(o, a, r, k[r]);
      RoundsCodeSplit(o, s, k[..r], [k[r]]);
      assert k[..r + 1] == k[..r] + [k[r]];
      assert Next(r) == (r + 1) % 24;
    }
    assert k[..|k|] == k;
  }

  /** `KECCAK_F_1600` for every unroll count n: n rounds under the labels `P0` .. `Pn`, then the
      moves back, until the constants are used up; for 0 all 24 rounds, which end at `P0`. */
  method KeccakF<L(==)>(o: Ops<L>, n: nat, m: seq<L>, rc: seq<L>) returns (a: seq<L>)
    requires IsUnroll(n) && |m| == 25 && |rc| == 24
    ensures |a| == 25 && View(a, Words(0)) == RoundsCode(o, View(m, Words(0)), rc)
  {
    hide View, Words, RoundCode, RoundsCode;
    a := m;
    if n == 0 {
      a := Unrolled(o, m, rc);
    } else {
      ghost var s := View(m, Words(0));
      var j := 0;
      assert rc[..0] == [];
      NoRounds(o, s);
      while j < 24
        invariant 0 <= j <= 24 && j % n == 0 && |a| == 25
        invariant View(a, Words(0)) == RoundsCode(o, s, rc[..j])
      {
        assert j + n <= 24;
        ghost var before := View(a, Words(0));
        a := Unrolled(o, a, rc[j..j + n]);
        a := Restore(n, a);
        RoundsCodeSplit(o, s, rc[..j], rc[j..j + n]);
        assert rc[..j + n] == rc[..j] + rc[j..j + n];
        j := j + n;
      }
      assert rc[..24] == rc;
    }
  }

  lemma NoRounds<L>(o: Ops<L>, s: seq<L>)
    requires |s| == 25
    ensures RoundsCode(o, s, []) == s
  {
  }
}
