/** Keccak[c] of FIPS 202 on bytes, and the streaming code of `src/keccak.c` that computes it. */
module KeccakSponge {
  import opened KeccakLanes
  import opened KeccakSpec
  import opened KeccakCode
  import opened KeccakComplement
  import opened KeccakLabels
  import opened KeccakBytes
  import opened Streaming

  // ----- The plain sponge -----

  /** The bytes of word j of a block, if the block has them. */
  function BlockWord(block: seq<Byte>, j: nat): (b: seq<Byte>)
    ensures |b| == 8
  {
    if 8 * j + 8 <= |block| then block[8 * j..8 * j + 8] else [0, 0, 0, 0, 0, 0, 0, 0]
  }

  /** A block is added to the state word by word; word x + 5y is lane (x, y). */
  function AddBlock(s: seq<bv64>, block: seq<Byte>): (t: seq<bv64>)
    requires |s| == 25
    ensures |t| == 25
  {
    seq(25, i requires 0 <= i < 25 =>
      if 8 * Transposed(i) + 8 <= |block| then Xor64(s[i], Dec64(BlockWord(block, Transposed(i)))) else s[i])
  }

  function RoundConstants(): (k: seq<bv64>)
    ensures |k| == 24
  {
    seq(24, i requires 0 <= i < 24 => RC(i))
  }

  /** One block: addition, then Keccak-f[1600]. */
  function PlainStep(s: seq<bv64>, block: seq<Byte>): (t: seq<bv64>)
    requires |s| == 25
    ensures |t| == 25
  {
    Rounds(AddBlock(s, block), RoundConstants())
  }

  function PlainStepper(): (r: (seq<bv64>, seq<Byte>) -> seq<bv64>) {
    (s: seq<bv64>, block: seq<Byte>) => if |s| == 25 then PlainStep(s, block) else s
  }

  function ZeroState(): (s: seq<bv64>)
    ensures |s| == 25
  {
    seq(25, _ => 0)
  }

  /** The bytes of the first k words of a state. */
  function Output(s: seq<bv64>, k: nat): (r: seq<Byte>)
    requires |s| == 25 && k <= 25
  {
    if k == 0 then [] else Output(s, k - 1) + Enc64(s[WordLane(k - 1)])
  }

  /** The lane at word j. */
  function WordLane(j: nat): (i: nat)
    requires j < 25
    ensures i < 25
  {
    Transposed(j)
  }

  // ----- The code's sponge, on values -----

  function AddBlockCode<L>(r: Rep<L>, v: seq<L>, block: seq<Byte>): (t: seq<L>)
    requires |v| == 25
    ensures |t| == 25
  {
    seq(25, i requires 0 <= i < 25 =>
      if 8 * Transposed(i) + 8 <= |block| then r.ops.xor(v[i], r.load(BlockWord(block, Transposed(i)))) else v[i])
  }

  function StepCode<L>(r: Rep<L>, v: seq<L>, block: seq<Byte>): (t: seq<L>)
    requires |v| == 25
    ensures |t| == 25
  {
    RoundsCode(r.ops, AddBlockCode(r, v, block), r.rc)
  }

  function StepperCode<L>(r: Rep<L>): (v: (seq<L>, seq<Byte>) -> seq<L>) {
    (v: seq<L>, block: seq<Byte>) => if |v| == 25 then StepCode(r, v, block) else v
  }

  /** `keccak_init`: the six resting lanes are all ones. */
  function InitLanes<L>(r: Rep<L>): (v: seq<L>)
    ensures |v| == 25
  {
    seq(25, i requires 0 <= i < 25 => if On(Resting, i) then r.ones else r.zero)
  }

  // ----- The code's sponge is the plain sponge under the complement -----

  /** Lanes `v` of the code stand for the plain state `s`. */
  ghost predicate StandsFor<L(!new)>(h: L -> bv64, v: seq<L>, s: seq<bv64>) {
    |v| == 25 && |s| == 25 && Lanes(h, v) == Masked(Resting, s)
  }

  lemma AddBlockRefines<L(!new)>(r: Rep<L>, h: L -> bv64, v: seq<L>, s: seq<bv64>, block: seq<Byte>)
    requires Represents(r, h) && StandsFor(h, v, s)
    ensures StandsFor(h, AddBlockCode(r, v, block), AddBlock(s, block))
  {
    hide Refines, Constants, Stores, Xor64, Dec64, BlockWord, On, Transposed, Flip;
    var l, m := Lanes(h, AddBlockCode(r, v, block)), Masked(Resting, AddBlock(s, block));
    forall i | 0 <= i < 25
      ensures l[i] == m[i]
    {
      AddWordRefines(r, h, v, s, block, i);
    }
  }

  lemma AddWordRefines<L(!new)>(r: Rep<L>, h: L -> bv64, v: seq<L>, s: seq<bv64>, block: seq<Byte>, i: nat)
    requires Represents(r, h) && StandsFor(h, v, s) && i < 25
    ensures h(AddBlockCode(r, v, block)[i]) == Flip(On(Resting, i), AddBlock(s, block)[i])
  {
    hide Refines, Constants, Stores, Xor64, Not64, Dec64, BlockWord, On, Transposed;
    var w := BlockWord(block, Transposed(i));
    XorThrough(r.ops, h, v[i], r.load(w));
    assert h(v[i]) == Lanes(h, v)[i] == Flip(On(Resting, i), s[i]);
    XorFlip(On(Resting, i), s[i], false, Dec64(w));
  }

  lemma StepRefines<L(!new)>(r: Rep<L>, h: L -> bv64, v: seq<L>, s: seq<bv64>, block: seq<Byte>)
    requires Represents(r, h) && StandsFor(h, v, s)
    ensures StandsFor(h, StepCode(r, v, block), PlainStep(s, block))
  {
    hide Refines, Stores, Loads, AddBlock, AddBlockCode, Masked, RC;
    AddBlockRefines(r, h, v, s, block);
    assert Lanes(h, r.rc) == RoundConstants();
    RoundsRefine(r.ops, h, AddBlockCode(r, v, block), r.rc, AddBlock(s, block));
  }

  lemma InitRefines<L(!new)>(r: Rep<L>, h: L -> bv64)
    requires Represents(r, h)
    ensures StandsFor(h, InitLanes(r), ZeroState())
  {
    hide Refines, Stores, Loads, RC;
    assert Not64(0) == 0xFFFF_FFFF_FFFF_FFFF;
    var l, m := Lanes(h, InitLanes(r)), Masked(Resting, ZeroState());
    forall i | 0 <= i < 25
      ensures l[i] == m[i]
    {
    }
  }

  /** After any data, the code's lanes stand for the plain state, and the same bytes wait. */
  lemma SpongeRefines<L(!new)>(r: Rep<L>, h: L -> bv64, lim: nat, bytes: seq<Byte>)
    requires Represents(r, h) && lim > 0
    ensures StandsFor(h, Absorb(StepperCode(r), lim, InitLanes(r), bytes).0,
                      Absorb(PlainStepper(), lim, ZeroState(), bytes).0)
    ensures Absorb(StepperCode(r), lim, InitLanes(r), bytes).1 == Absorb(PlainStepper(), lim, ZeroState(), bytes).1
  {
    hide Represents, StepCode, PlainStep, InitLanes;
    InitRefines(r, h);
    SpongeRefinesFrom(r, h, lim, InitLanes(r), ZeroState(), bytes);
  }

  lemma {:induction false} SpongeRefinesFrom<L(!new)>(
    r: Rep<L>, h: L -> bv64, lim: nat, v: seq<L>, s: seq<bv64>, bytes: seq<Byte>)
    requires Represents(r, h) && lim > 0 && StandsFor(h, v, s)
    ensures StandsFor(h, Absorb(StepperCode(r), lim, v, bytes).0, Absorb(PlainStepper(), lim, s, bytes).0)
    ensures Absorb(StepperCode(r), lim, v, bytes).1 == Absorb(PlainStepper(), lim, s, bytes).1
    decreases |bytes|
  {
    hide Represents, StepCode, PlainStep, Masked;
    if |bytes| >= lim {
      StepRefines(r, h, v, s, bytes[..lim]);
      SpongeRefinesFrom(r, h, lim, StepCode(r, v, bytes[..lim]), PlainStep(s, bytes[..lim]), bytes[lim..]);
    }
  }
}
