/** The lane labels `P0` .. `P23` of `src/keccak.c`: each table renames the one before it by pi,
    so that a round needs no moves. The moves back to `P0` are in `KeccakPermutation`.

    A label aXY is written as the number 10X + Y. Row x of a table holds the labels that the
    macro arguments b(x,0) .. b(x,4) receive. */
module KeccakLabels {
  import opened KeccakSpec

  type Table = seq<seq<nat>>

  function Labels(r: nat): (p: Table)
    requires r < 24
  {
    match r
    case 0 =>
      [[0, 1, 2, 3, 4], [10, 11, 12, 13, 14], [20, 21, 22, 23, 24], [30, 31, 32, 33, 34], [40, 41, 42, 43, 44]]
    case 1 =>
      [[0, 30, 10, 40, 20], [11, 41, 21, 1, 31], [22, 2, 32, 12, 42], [33, 13, 43, 23, 3], [44, 24, 4, 34, 14]]
    case 2 =>
      [[0, 33, 11, 44, 22], [41, 24, 2, 30, 13], [32, 10, 43, 21, 4], [23, 1, 34, 12, 40], [14, 42, 20, 3, 31]]
    case 3 =>
      [[0, 23, 41, 14, 32], [24, 42, 10, 33, 1], [43, 11, 34, 2, 20], [12, 30, 3, 21, 44], [31, 4, 22, 40, 13]]
    case 4 =>
      [[0, 12, 24, 31, 43], [42, 4, 11, 23, 30], [34, 41, 3, 10, 22], [21, 33, 40, 2, 14], [13, 20, 32, 44, 1]]
    case 5 =>
      [[0, 21, 42, 13, 34], [4, 20, 41, 12, 33], [3, 24, 40, 11, 32], [2, 23, 44, 10, 31], [1, 22, 43, 14, 30]]
    case 6 =>
      [[0, 2, 4, 1, 3], [20, 22, 24, 21, 23], [40, 42, 44, 41, 43], [10, 12, 14, 11, 13], [30, 32, 34, 31, 33]]
    case 7 =>
      [[0, 10, 20, 30, 40], [22, 32, 42, 2, 12], [44, 4, 14, 24, 34], [11, 21, 31, 41, 1], [33, 43, 3, 13, 23]]
    case 8 =>
      [[0, 11, 22, 33, 44], [32, 43, 4, 10, 21], [14, 20, 31, 42, 3], [41, 2, 13, 24, 30], [23, 34, 40, 1, 12]]
    case 9 =>
      [[0, 41, 32, 23, 14], [43, 34, 20, 11, 2], [31, 22, 13, 4, 40], [24, 10, 1, 42, 33], [12, 3, 44, 30, 21]]
    case 10 =>
      [[0, 24, 43, 12, 31], [34, 3, 22, 41, 10], [13, 32, 1, 20, 44], [42, 11, 30, 4, 23], [21, 40, 14, 33, 2]]
    case 11 =>
      [[0, 42, 34, 21, 13], [3, 40, 32, 24, 11], [1, 43, 30, 22, 14], [4, 41, 33, 20, 12], [2, 44, 31, 23, 10]]
    case 12 =>
      [[0, 4, 3, 2, 1], [40, 44, 43, 42, 41], [30, 34, 33, 32, 31], [20, 24, 23, 22, 21], [10, 14, 13, 12, 11]]
    case 13 =>
      [[0, 20, 40, 10, 30], [44, 14, 34, 4, 24], [33, 3, 23, 43, 13], [22, 42, 12, 32, 2], [11, 31, 1, 21, 41]]
    case 14 =>
      [[0, 22, 44, 11, 33], [14, 31, 3, 20, 42], [23, 40, 12, 34, 1], [32, 4, 21, 43, 10], [41, 13, 30, 2, 24]]
    case 15 =>
      [[0, 32, 14, 41, 23], [31, 13, 40, 22, 4], [12, 44, 21, 3, 30], [43, 20, 2, 34, 11], [24, 1, 33, 10, 42]]
    case 16 =>
      [[0, 43, 31, 24, 12], [13, 1, 44, 32, 20], [21, 14, 2, 40, 33], [34, 22, 10, 3, 41], [42, 30, 23, 11, 4]]
    case 17 =>
      [[0, 34, 13, 42, 21], [1, 30, 14, 43, 22], [2, 31, 10, 44, 23], [3, 32, 11, 40, 24], [4, 33, 12, 41, 20]]
    case 18 =>
      [[0, 3, 1, 4, 2], [30, 33, 31, 34, 32], [10, 13, 11, 14, 12], [40, 43, 41, 44, 42], [20, 23, 21, 24, 22]]
    case 19 =>
      [[0, 40, 30, 20, 10], [33, 23, 13, 3, 43], [11, 1, 41, 31, 21], [44, 34, 24, 14, 4], [22, 12, 2, 42, 32]]
    case 20 =>
      [[0, 44, 33, 22, 11], [23, 12, 1, 40, 34], [41, 30, 24, 13, 2], [14, 3, 42, 31, 20], [32, 21, 10, 4, 43]]
    case 21 =>
      [[0, 14, 23, 32, 41], [12, 21, 30, 44, 3], [24, 33, 42, 1, 10], [31, 40, 4, 13, 22], [43, 2, 11, 20, 34]]
    case 22 =>
      [[0, 31, 12, 43, 24], [21, 2, 33, 14, 40], [42, 23, 4, 30, 11], [13, 44, 20, 1, 32], [34, 10, 41, 22, 3]]
    case _ =>
      [[0, 13, 21, 34, 42], [2, 10, 23, 31, 44], [4, 12, 20, 33, 41], [1, 14, 22, 30, 43], [3, 11, 24, 32, 40]]
  }

  predicate Square(p: Table) {
    |p| == 5 && |p[0]| == 5 && |p[1]| == 5 && |p[2]| == 5 && |p[3]| == 5 && |p[4]| == 5
  }

  /** Row x of `q` renames the lanes of `p` as pi does: b(x, y) becomes b(x + 3y, x). */
  predicate RowFrom(q: seq<nat>, p: Table, x: nat)
    requires Square(p) && x < 5
  {
    q == [p[x][x], p[(x + 3) % 5][x], p[(x + 6) % 5][x], p[(x + 9) % 5][x], p[(x + 12) % 5][x]]
  }

  predicate Renames(p: Table, q: Table) {
    && Square(p) && Square(q)
    && RowFrom(q[0], p, 0) && RowFrom(q[1], p, 1) && RowFrom(q[2], p, 2)
    && RowFrom(q[3], p, 3) && RowFrom(q[4], p, 4)
  }

  function Next(r: nat): (q: nat)
    ensures r < 24 ==> q < 24
  {
    if r < 23 then r + 1 else 0
  }

  lemma FirstSixRename(r: nat)
    requires r < 6
    ensures Renames(Labels(r), Labels(Next(r)))
  {
  }

  lemma SecondSixRename(r: nat)
    requires 6 <= r < 12
    ensures Renames(Labels(r), Labels(Next(r)))
  {
  }

  lemma ThirdSixRename(r: nat)
    requires 12 <= r < 18
    ensures Renames(Labels(r), Labels(Next(r)))
  {
  }

  lemma FourthSixRename(r: nat)
    requires 18 <= r < 24
    ensures Renames(Labels(r), Labels(Next(r)))
  {
  }

  /** Each table renames its predecessor by pi, and after 24 rounds the labels are `P0` again. */
  lemma LabelsFollowPi(r: nat)
    requires r < 24
    ensures Renames(Labels(r), Labels(Next(r)))
  {
    hide Labels, Renames;
    if r < 6 {
      FirstSixRename(r);
    } else if r < 12 {
      SecondSixRename(r);
    } else if r < 18 {
      ThirdSixRename(r);
    } else {
      FourthSixRename(r);
    }
  }

  // ----- Where the lanes are in memory -----

  /** The index of the word that the label aXY names: X + 5Y. */
  function Word(a: nat): (w: nat) {
    a / 10 + 5 * (a % 10)
  }

  /** The word of lane (x, y), at index 5x + y. */
  function Layout(p: Table): (w: seq<nat>)
    requires Square(p)
    ensures |w| == 25
  {
    seq(25, i requires 0 <= i < 25 => Word(At(p, i)))
  }

  function At(p: Table, i: nat): (a: nat)
    requires Square(p) && i < 25
  {
    p[i / 5][i % 5]
  }

  ghost predicate IsLayout(w: seq<nat>) {
    && |w| == 25
    && (forall i | 0 <= i < 25 :: w[i] < 25)
    && (forall i, j | 0 <= i < j < 25 :: w[i] != w[j])
  }

  function View<L>(m: seq<L>, w: seq<nat>): (s: seq<L>)
    requires |m| == 25 && IsLayout(w)
    ensures |s| == 25
  {
    seq(25, i requires 0 <= i < 25 => m[w[i]])
  }

  lemma RenamesAt(p: Table, q: Table, i: nat)
    requires Renames(p, q) && i < 25
    ensures At(q, i) == At(p, PiSource(i))
  {
    var x, y := i / 5, i % 5;
    assert PiSource(i) / 5 == (x + 3 * y) % 5 && PiSource(i) % 5 == x;
    assert RowFrom(q[x], p, x);
  }

  /** Where pi sends lane j. */
  function PiTarget(j: nat): (i: nat) {
    5 * (j % 5) + (2 * (j / 5 + 4 * (j % 5))) % 5
  }

  lemma PiRoundTrip(x: nat, y: nat)
    requires x < 5 && y < 5
    ensures (2 * ((x + 3 * y) % 5 + 4 * x)) % 5 == y
  {
  }

  lemma PiTargetSource(i: nat)
    requires i < 25
    ensures PiTarget(PiSource(i)) == i
  {
    var x, y, j := i / 5, i % 5, PiSource(i);
    assert j % 5 == x && j / 5 == (x + 3 * y) % 5;
    PiRoundTrip(x, y);
  }

  lemma FirstLayout()
    ensures IsLayout(Layout(Labels(0)))
    ensures forall i | 0 <= i < 25 :: Layout(Labels(0))[i] == Transposed(i)
  {
    hide Labels, At, Word;
    FirstLabels();
    forall i | 0 <= i < 25
      ensures Layout(Labels(0))[i] == Transposed(i)
    {
      FirstLabelAt(i);
      WordOfLabel(i / 5, i % 5);
      TransposedTwice(i);
    }
    forall i, j | 0 <= i < j < 25
      ensures Transposed(i) != Transposed(j)
    {
      TransposedTwice(i);
      TransposedTwice(j);
    }
  }

  /** Lane (x, y) of the state is word x + 5y. */
  function Transposed(i: nat): (j: nat) {
    i / 5 + 5 * (i % 5)
  }

  lemma TransposedTwice(i: nat)
    requires i < 25
    ensures Transposed(i) < 25 && Transposed(Transposed(i)) == i
  {
    var x, y := i / 5, i % 5;
    assert Transposed(i) / 5 == y && Transposed(i) % 5 == x;
  }

  lemma WordOfLabel(x: nat, y: nat)
    requires x < 5 && y < 5
    ensures Word(10 * x + y) == x + 5 * y
  {
  }

  lemma FirstLabels()
    ensures Labels(0) == [
      [0, 1, 2, 3, 4], [10, 11, 12, 13, 14], [20, 21, 22, 23, 24], [30, 31, 32, 33, 34], [40, 41, 42, 43, 44]]
  {
  }

  lemma FirstLabelAt(i: nat)
    requires i < 25
    ensures Square(Labels(0)) && At(Labels(0), i) == 10 * (i / 5) + i % 5
  {
    hide Labels;
    FirstLabels();
  }

  lemma RenamesSquare(p: Table, q: Table)
    requires Renames(p, q)
    ensures Square(p) && Square(q)
  {
  }

  lemma RenamedLayout(p: Table, q: Table)
    requires Renames(p, q) && Square(p) && IsLayout(Layout(p))
    ensures Square(q) && IsLayout(Layout(q))
    ensures forall i | 0 <= i < 25 :: Layout(q)[i] == Layout(p)[PiSource(i)]
  {
    hide Renames, PiSource, PiTarget, Word, At;
    RenamesSquare(p, q);
    forall i | 0 <= i < 25
      ensures Layout(q)[i] == Layout(p)[PiSource(i)]
    {
      RenamesAt(p, q, i);
    }
    forall i, j | 0 <= i < j < 25
      ensures Layout(q)[i] != Layout(q)[j]
    {
      PiTargetSource(i);
      PiTargetSource(j);
    }
  }

  /** Every table gives each lane a word of its own. */
  lemma {:induction false} LabelsAreLayouts(r: nat)
    requires r < 24
    ensures Square(Labels(r)) && IsLayout(Layout(Labels(r)))
  {
    hide Labels, Layout, IsLayout;
    if r == 0 {
      FirstLabels();
      FirstLayout();
    } else {
      LabelsAreLayouts(r - 1);
      LabelsFollowPi(r - 1);
      assert Next(r - 1) == r;
      RenamedLayout(Labels(r - 1), Labels(r));
    }
  }

  /** Reading memory through the next table is pi of reading it through this one. */
  lemma NextViewIsPi<L>(m: seq<L>, r: nat)
    requires |m| == 25 && r < 24
    ensures Square(Labels(r)) && IsLayout(Layout(Labels(r)))
    ensures Square(Labels(Next(r))) && IsLayout(Layout(Labels(Next(r))))
    ensures View(m, Layout(Labels(Next(r)))) == Pi(View(m, Layout(Labels(r))))
  {
    hide Labels, Layout, IsLayout, PiSource, Square, Renames;
    LabelsAreLayouts(r);
    LabelsAreLayouts(Next(r));
    LabelsFollowPi(r);
    RenamedLayout(Labels(r), Labels(Next(r)));
  }
}
