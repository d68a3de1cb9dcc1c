/** The two tables of Keccak follow the rules of FIPS 202: the rotation offsets the walk of section
    3.2.2, the round constants the shift register of section 3.2.5. */
module KeccakTables {
  import opened KeccakLanes
  import opened KeccakSpec

  // ----- The rotation offsets -----

  /** The lane of step t of rho: from (1, 0) by (x, y) := (y, 2x + 3y). */
  function Walk(t: nat): (p: (nat, nat))
    ensures p.0 < 5 && p.1 < 5
  {
    if t == 0 then (1, 0) else OneStep(Walk(t - 1))
  }

  function OneStep(p: (nat, nat)): (q: (nat, nat))
    requires p.0 < 5 && p.1 < 5
    ensures q.0 < 5 && q.1 < 5
  {
    (p.1, (2 * p.0 + 3 * p.1) % 5)
  }

  /** The number 5x + y of the lane of step t. */
  function LaneAt(t: nat): (i: nat)
    ensures i < 25
  {
    5 * Walk(t).0 + Walk(t).1
  }

  function Visited(t: nat): (i: nat)
    requires t < 24
  {
    match t
    case 0 => 5 case 1 => 2 case 2 => 11 case 3 => 7 case 4 => 13 case 5 => 18 case 6 => 15 case 7 => 1
    case 8 => 8 case 9 => 16 case 10 => 9 case 11 => 24 case 12 => 20 case 13 => 3 case 14 => 19 case 15 => 23
    case 16 => 17 case 17 => 12 case 18 => 10 case 19 => 4 case 20 => 22 case 21 => 14 case 22 => 21 case _ => 6
  }

  /** The step that visits a lane. */
  function StepOf(i: nat): (t: nat)
    requires 0 < i < 25
    ensures t < 24
  {
    match i
    case 1 => 7 case 2 => 1 case 3 => 13 case 4 => 19 case 5 => 0 case 6 => 23 case 7 => 3 case 8 => 8
    case 9 => 10 case 10 => 18 case 11 => 2 case 12 => 17 case 13 => 4 case 14 => 21 case 15 => 6 case 16 => 9
    case 17 => 16 case 18 => 5 case 19 => 14 case 20 => 12 case 21 => 22 case 22 => 20 case 23 => 15 case _ => 11
  }

  lemma {:induction false} WalkVisits(t: nat)
    requires t < 24
    ensures LaneAt(t) == Visited(t)
  {
    hide OneStep;
    if t > 0 {
      WalkVisits(t - 1);
      var p := Walk(t - 1);
      LaneSplits(p);
      NextVisited(t - 1);
    }
  }

  lemma LaneSplits(p: (nat, nat))
    requires p.0 < 5 && p.1 < 5
    ensures (5 * p.0 + p.1) / 5 == p.0 && (5 * p.0 + p.1) % 5 == p.1
  {
  }

  lemma NextVisited(t: nat)
    requires t < 23
    ensures Visited(t) < 25
    ensures var q := OneStep((Visited(t) / 5, Visited(t) % 5));
      Visited(t + 1) == 5 * q.0 + q.1
  {
  }

  /** The walk visits every lane but (0, 0), and the offset of step t is (t + 1)(t + 2) / 2. */
  lemma RhoOffsets(t: nat)
    requires t < 24
    ensures Shift(LaneAt(t)) == ((t + 1) * (t + 2) / 2 % 64) as bv7
    ensures Shift(0) == 0
  {
    hide Walk, LaneAt;
    WalkVisits(t);
    VisitedOffsets(t);
  }

  lemma VisitedOffsets(t: nat)
    requires t < 24
    ensures Visited(t) < 25 && Shift(Visited(t)) == ((t + 1) * (t + 2) / 2 % 64) as bv7
  {
    hide Visited, Shift;
    if t < 8 {
      FirstOffsets(t);
    } else if t < 16 {
      MiddleOffsets(t);
    } else {
      LastOffsets(t);
    }
  }

  lemma FirstOffsets(t: nat)
    requires t < 8
    ensures Visited(t) < 25 && Shift(Visited(t)) == ((t + 1) * (t + 2) / 2 % 64) as bv7
  {
    var n := (t + 1) * (t + 2) / 2 % 64;
    match t
    case 0 => assert n == 1;
    case 1 => assert n == 3;
    case 2 => assert n == 6;
    case 3 => assert n == 10;
    case 4 => assert n == 15;
    case 5 => assert n == 21;
    case 6 => assert n == 28;
    case _ => assert n == 36;
  }

  lemma MiddleOffsets(t: nat)
    requires 8 <= t < 16
    ensures Visited(t) < 25 && Shift(Visited(t)) == ((t + 1) * (t + 2) / 2 % 64) as bv7
  {
    var n := (t + 1) * (t + 2) / 2 % 64;
    match t
    case 8 => assert n == 45;
    case 9 => assert n == 55;
    case 10 => assert n == 2;
    case 11 => assert n == 14;
    case 12 => assert n == 27;
    case 13 => assert n == 41;
    case 14 => assert n == 56;
    case _ => assert n == 8;
  }

  lemma LastOffsets(t: nat)
    requires 16 <= t < 24
    ensures Visited(t) < 25 && Shift(Visited(t)) == ((t + 1) * (t + 2) / 2 % 64) as bv7
  {
    var n := (t + 1) * (t + 2) / 2 % 64;
    match t
    case 16 => assert n == 25;
    case 17 => assert n == 43;
    case 18 => assert n == 62;
    case 19 => assert n == 18;
    case 20 => assert n == 39;
    case 21 => assert n == 61;
    case 22 => assert n == 20;
    case _ => assert n == 44;
  }

  lemma EveryLaneIsVisited(i: nat)
    requires 0 < i < 25
    ensures LaneAt(StepOf(i)) == i
  {
    hide Walk, LaneAt;
    WalkVisits(StepOf(i));
  }

  // ----- The round constants -----

  /** One step of the register: bit i is R[i], and the bit shifted out is added to R[0], R[4], R[5]
      and R[6]. */
  function Feedback(r: bv8): (s: bv8) {
    if r & 0x80 == 0 then r << 1 else (r << 1) ^ 0x71
  }

  function Register(t: nat): (r: bv8) {
    if t == 0 then 1 else Feedback(Register(t - 1))
  }

  /** rc(t). */
  function RcBit(t: nat): (b: bool) {
    Register(t) & 1 == 1
  }

  /** The constant of round i: bit 2^j - 1 is rc(j + 7i), for j up to 6. */
  function RcByRule(i: nat): (r: bv64) {
    Spread(RcBit(7 * i), RcBit(7 * i + 1), RcBit(7 * i + 2), RcBit(7 * i + 3),
           RcBit(7 * i + 4), RcBit(7 * i + 5), RcBit(7 * i + 6))
  }

  function Spread(b0: bool, b1: bool, b2: bool, b3: bool, b4: bool, b5: bool, b6: bool): (r: bv64) {
    BitIf(b0, 0x1) | BitIf(b1, 0x2) | BitIf(b2, 0x8) | BitIf(b3, 0x80) | BitIf(b4, 0x8000)
    | BitIf(b5, 0x8000_0000) | BitIf(b6, 0x8000_0000_0000_0000)
  }

  function BitIf(b: bool, mask: bv64): (r: bv64) {
    if b then mask else 0
  }

  /** The register at the start of each round. */
  function Snapshot(i: nat): (r: bv8)
    requires i <= 24
  {
    match i
    case 0 => 0x01 case 1 => 0x80 case 2 => 0xD8 case 3 => 0x1A case 4 => 0xDF case 5 => 0x09 case 6 => 0x35 case 7 => 0x4F case 8 => 0xCA
    case 9 => 0x70 case 10 => 0x41 case 11 => 0xEC case 12 => 0xD5 case 13 => 0xCD case 14 => 0x63 case 15 => 0xAB case 16 => 0xAA case 17 => 0x2A
    case 18 => 0xF2 case 19 => 0xE8 case 20 => 0x37 case 21 => 0x3E case 22 => 0x0B case 23 => 0x44 case _ => 0x8E
  }

  function Turns(r: bv8, n: nat): (s: bv8) {
    if n == 0 then r else Feedback(Turns(r, n - 1))
  }

  lemma {:induction false} RegisterTurns(t: nat, n: nat)
    ensures Register(t + n) == Turns(Register(t), n)
    decreases n
  {
    hide Feedback;
    if n > 0 {
      RegisterTurns(t, n - 1);
    }
  }

  lemma {:induction false} RegisterIs(i: nat)
    requires i <= 24
    ensures Register(7 * i) == Snapshot(i)
  {
    hide Feedback, Turns, Snapshot;
    FirstSnapshot();
    if i > 0 {
      RegisterIs(i - 1);
      RegisterTurns(7 * (i - 1), 7);
      NextSnapshot(i - 1);
    }
  }

  lemma SevenTurns(r: bv8)
    ensures Turns(r, 7) == Feedback(Feedback(Feedback(Feedback(Feedback(Feedback(Feedback(r)))))))
  {
    hide Feedback;
    assert Turns(r, 1) == Feedback(r);
    assert Turns(r, 2) == Feedback(Turns(r, 1));
    assert Turns(r, 3) == Feedback(Turns(r, 2));
    assert Turns(r, 4) == Feedback(Turns(r, 3));
    assert Turns(r, 5) == Feedback(Turns(r, 4));
    assert Turns(r, 6) == Feedback(Turns(r, 5));
  }

  lemma FirstSnapshot()
    ensures Snapshot(0) == 1
  {
  }

  lemma NextSnapshot(i: nat)
    requires i < 24
    ensures Turns(Snapshot(i), 7) == Snapshot(i + 1)
  {
    SevenTurns(Snapshot(i));
    match i
    case 0 => {}
    case 1 => {}
    case 2 => {}
    case 3 => {}
    case 4 => {}
    case 5 => {}
    case 6 => {}
    case 7 => {}
    case 8 => {}
    case 9 => {}
    case 10 => {}
    case 11 => {}
    case 12 => {}
    case 13 => {}
    case 14 => {}
    case 15 => {}
    case 16 => {}
    case 17 => {}
    case 18 => {}
    case 19 => {}
    case 20 => {}
    case 21 => {}
    case 22 => {}
    case _ => {}
  }

  lemma RcBitIs(i: nat, k: nat)
    requires i < 24
    ensures RcBit(7 * i + k) == (Turns(Snapshot(i), k) & 1 == 1)
  {
    hide Turns, Register, Snapshot;
    RegisterIs(i);
    RegisterTurns(7 * i, k);
  }

  /** Every round constant is the one that the shift register makes. */
  lemma ConstantsFollowRule(i: nat)
    requires i < 24
    ensures RC(i) == RcByRule(i)
  {
    hide Turns, RC, RcBit, Snapshot, Spread;
    RcBitIs(i, 0);
    RcBitIs(i, 1);
    RcBitIs(i, 2);
    RcBitIs(i, 3);
    RcBitIs(i, 4);
    RcBitIs(i, 5);
    RcBitIs(i, 6);
    SnapshotBits(i);
  }

  lemma SnapshotBits(i: nat)
    requires i < 24
    ensures var r := Snapshot(i);
      RC(i) == Spread(Turns(r, 0) & 1 == 1, Turns(r, 1) & 1 == 1, Turns(r, 2) & 1 == 1, Turns(r, 3) & 1 == 1,
                      Turns(r, 4) & 1 == 1, Turns(r, 5) & 1 == 1, Turns(r, 6) & 1 == 1)
  {
    match i
    case 0 => {}
    case 1 => {}
    case 2 => {}
    case 3 => {}
    case 4 => {}
    case 5 => {}
    case 6 => {}
    case 7 => {}
    case 8 => {}
    case 9 => {}
    case 10 => {}
    case 11 => {}
    case 12 => {}
    case 13 => {}
    case 14 => {}
    case 15 => {}
    case 16 => {}
    case 17 => {}
    case 18 => {}
    case 19 => {}
    case 20 => {}
    case 21 => {}
    case 22 => {}
    case _ => {}
  }
}
