/** Stake modifiers along a whole chain, and the modifier that a coin's kernel must use. */
module KernelChain {
  import opened Options
  import opened Kernel
  import opened Arithmetic

  // ----- Determinacy of a selection -----

  /** The rounds leave no choice: the picks, and so the modifier, are determined. */
  lemma {:induction false} PicksAreUnique(p: Params, c: seq<Block>, time: nat, prev: nat, a: seq<Block>, b: seq<Block>, n: nat)
    requires p.Valid() && Picked(p, c, time, prev, a) && Picked(p, c, time, prev, b)
    requires n <= |a| == |b|
    ensures a[..n] == b[..n]
  {
    hide IsPick, Hashes;
    if n > 0 {
      PicksAreUnique(p, c, time, prev, a, b, n - 1);
      assert a[..n] == a[..n - 1] + [a[n - 1]] && b[..n] == b[..n - 1] + [b[n - 1]];
      PickIsUnique(p, c, Hashes(a[..n - 1]), Stop(p, time, n - 1), prev, a[n - 1], b[n - 1]);
    }
  }

  /** The modifier of the next block is a function of the chain. */
  lemma NextIsUnique(p: Params, chain: seq<Block>, m: nat, g: bool, m': nat, g': bool)
    requires p.Valid() && IsNext(p, chain, m, g) && IsNext(p, chain, m', g')
    ensures m == m' && g == g'
  {
    if chain != [] && g {
      var a :| IsSelection(p, chain, a) && m == Value(EntropyBits(a));
      var b :| IsSelection(p, chain, b) && m' == Value(EntropyBits(b));
      var time := chain[|chain| - 1].time;
      PicksAreUnique(p, Candidates(chain, SelectionStart(p, time)), time,
                     chain[LastGenerated(chain).value].modifier, a, b, |a|);
      assert a[..|a|] == a && b[..|b|] == b;
    }
  }

  /** No block gives two bits. */
  lemma PicksAreDistinct(p: Params, c: seq<Block>, time: nat, prev: nat, picks: seq<Block>)
    requires p.Valid() && Picked(p, c, time, prev, picks)
    ensures Distinct(picks)
  {
    forall i, j | 0 <= i < j < |picks|
      ensures picks[i].hash != picks[j].hash
    {
      assert IsPick(p, c, Hashes(picks[..j]), Stop(p, time, j), prev, picks[j]);
      assert picks[..j][i] == picks[i];
      assert picks[i] in picks[..j];
    }
  }

  /** After all 64 sections the stop is the start of the parent's modifier interval. */
  lemma LastStop(p: Params, time: nat)
    requires p.Valid()
    ensures Stop(p, time, 63) == IntervalStart(p, time)
    ensures Stop(p, time, 63) <= time < Stop(p, time, 63) + p.interval
  {
    hide Sections;
    assert time == p.interval * (time / p.interval) + time % p.interval;
  }

  // ----- Chains -----

  /** A chain whose blocks carry what `AddToBlockIndex` stored for them. */
  ghost predicate Built(p: Params, chain: seq<Block>)
    requires p.Valid()
  {
    forall k | 0 <= k < |chain| :: IsNext(p, chain[..k], chain[k].modifier, chain[k].generated)
  }

  /** Adding the block that `ComputeNextStakeModifier` describes keeps a chain built. */
  method Extend(p: Params, index: map<nat, Block>, chain: seq<Block>, b: Block) returns (next: seq<Block>)
    requires p.Valid() && Built(p, chain) && Indexed(index, chain) && Distinct(chain)
    ensures |next| == |chain| + 1 && next[..|chain|] == chain && Built(p, next)
    ensures next[|chain|] == b.(modifier := next[|chain|].modifier, generated := next[|chain|].generated)
  {
    hide IsNext;
    GenesisGenerates(p, chain);
    var ok, modifier, generated := ComputeNextStakeModifier(p, index, chain);
    assert ok;
    next := chain + [b.(modifier := modifier, generated := generated)];
    forall k | 0 <= k < |next|
      ensures IsNext(p, next[..k], next[k].modifier, next[k].generated)
    {
      if k < |chain| {
        assert next[..k] == chain[..k] && next[k] == chain[k];
      } else {
        assert next[..k] == chain;
      }
    }
  }

  /** The first block generates, so every built chain has a last generation. */
  lemma GenesisGenerates(p: Params, chain: seq<Block>)
    requires p.Valid() && Built(p, chain)
    ensures chain == [] || (chain[0].generated && chain[0].modifier == 0 && LastGenerated(chain).Some?)
  {
    if chain != [] {
      assert IsNext(p, chain[..0], chain[0].modifier, chain[0].generated);
    }
  }

  lemma LastGeneratedOfPrefix(chain: seq<Block>, k: nat)
    requires k < |chain|
    ensures LastGenerated(chain[..k + 1]) == if chain[k].generated then Some(k) else LastGenerated(chain[..k])
  {
    assert chain[..k + 1][..k] == chain[..k];
  }

  /** Every block carries the modifier of its nearest generating ancestor or itself. */
  lemma ModifierIsNearest(p: Params, chain: seq<Block>, k: nat)
    requires p.Valid() && Built(p, chain) && k < |chain|
    ensures var g := LastGenerated(chain[..k + 1]);
      g.Some? && g.value <= k && chain[k].modifier == chain[g.value].modifier
  {
    LastGeneratedOfPrefix(chain, k);
    assert IsNext(p, chain[..k], chain[k].modifier, chain[k].generated);
  }

  /** A generating block's parent lies in a later interval than the generation before it; this
      needs nothing of the block times. */
  lemma GeneratingParentIsLater(p: Params, chain: seq<Block>, i: nat, j: nat)
    requires p.Valid() && Built(p, chain) && i < j < |chain|
    requires chain[i].generated && chain[j].generated
    requires forall k | i < k < j :: !chain[k].generated
    ensures chain[i].time / p.interval < chain[j - 1].time / p.interval
  {
    hide IsNext;
    var before := chain[..j];
    assert IsNext(p, before, chain[j].modifier, chain[j].generated);
    GenerationWasDue(p, before, chain[j].modifier);
    assert before[i].generated;
  }

  lemma GenerationWasDue(p: Params, before: seq<Block>, modifier: nat)
    requires p.Valid() && before != [] && IsNext(p, before, modifier, true)
    ensures LastGenerated(before).Some? && Due(p, before)
  {
    hide IsSelection, Due;
  }

  ghost predicate TimesDoNotDecrease(chain: seq<Block>) {
    forall i, j | 0 <= i <= j < |chain| :: chain[i].time <= chain[j].time
  }

  /** Under non-decreasing times, no two generating blocks share a modifier interval. */
  lemma IntervalsAreDistinct(p: Params, chain: seq<Block>, i: nat, j: nat)
    requires p.Valid() && Built(p, chain) && i < j < |chain|
    requires chain[i].generated && chain[j].generated && TimesDoNotDecrease(chain)
    ensures chain[i].time / p.interval < chain[j].time / p.interval
    decreases j
  {
    var g := LastGenerated(chain[..j]).value;
    assert chain[..j][i].generated;
    assert LastGenerated(chain[..j]).Some? && i <= g < j && chain[g].generated;
    forall k | g < k < j
      ensures !chain[k].generated
    {
      assert !chain[..j][k].generated;
    }
    GeneratingParentIsLater(p, chain, g, j);
    DivisionIsMonotone(chain[j - 1].time, chain[j].time, p.interval);
    if i < g {
      IntervalsAreDistinct(p, chain, i, g);
    }
  }

  // ----- The modifier of a kernel -----

  /** Block j is the first after the coin's block `from` to generate a modifier at least a
      selection interval later. */
  ghost predicate FirstLateGeneration(p: Params, chain: seq<Block>, from: nat, j: nat)
    requires from < |chain|
  {
    && from < j < |chain| && LateGeneration(p, chain, from, j)
    && forall k | from < k < j :: !LateGeneration(p, chain, from, k)
  }

  predicate LateGeneration(p: Params, chain: seq<Block>, from: nat, k: nat)
    requires from < |chain| && k < |chain|
  {
    chain[k].generated && chain[k].time >= chain[from].time + Sections(p, 64)
  }

  /** `GetKernelStakeModifier` for a coin in block `from` of the main chain. */
  method GetKernelStakeModifier(p: Params, chain: seq<Block>, from: nat)
    returns (r: Option<nat>, height: nat, time: nat)
    requires p.Valid() && from < |chain|
    ensures Sections(p, 64) > 0 ==>
      && (r.Some? ==> FirstLateGeneration(p, chain, from, height)
                      && r.value == chain[height].modifier && time == chain[height].time)
      && (r.None? <==> forall k | from < k < |chain| :: !LateGeneration(p, chain, from, k))
    ensures Sections(p, 64) == 0 ==> r == Some(chain[from].modifier) && height == from
  {
    var interval := GetStakeModifierSelectionInterval(p);
    height, time := from, chain[from].time;
    var i := from;
    while time < chain[from].time + interval
      invariant from <= i < |chain| && from <= height <= i
      invariant time == chain[height].time
      invariant forall k | from < k < i :: !LateGeneration(p, chain, from, k)
      invariant time < chain[from].time + interval ==> from == i || !LateGeneration(p, chain, from, i)
      invariant time >= chain[from].time + interval ==> i == height && (interval > 0 ==> from < i && chain[i].generated)
      invariant interval == 0 ==> i == from
      decreases |chain| - i, chain[from].time + interval - time
    {
      if i + 1 == |chain| {
        return None, height, time;
      }
      i := i + 1;
      if chain[i].generated {
        height, time := i, chain[i].time;
      }
    }
    return Some(chain[i].modifier), height, time;
  }

  /** The selection interval is positive unless 63 intervals overflow 32 bits. */
  lemma SelectionIntervalIsPositive(p: Params)
    requires p.Valid() && p.interval * 63 < TWO32
    ensures Sections(p, 64) >= p.interval
  {
    hide Sections;
    assert Section(p, 63) == p.interval;
    LastSection(p);
  }

  lemma LastSection(p: Params)
    ensures Sections(p, 64) == Sections(p, 63) + Section(p, 63)
  {
  }
}
