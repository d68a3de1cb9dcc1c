/** The stake modifier of `src/kernel.cpp`: which 64 blocks give its bits, and when it changes.

    A chain is the sequence of block index entries from the genesis block on, so the last entry is
    the tip, `pprev` is the entry before and `pnext` the entry after. */
module Kernel {
  import opened Options
  import opened Arithmetic

  const TWO32 := 0x1_0000_0000
  const MODIFIER_INTERVAL_RATIO := 3

  type Bit = n: nat | n < 2

  /** A CBlockIndex. `modifier` and `generated` are what `SetStakeModifier` stored. */
  datatype Block = Block(
    hash: nat,
    time: nat,
    entropyBit: Bit,
    proofOfStake: bool,
    hashProof: nat,
    modifier: nat,
    generated: bool)

  /** The interval `nModifierInterval`, and the double SHA-256 of a proof hash and a modifier. */
  datatype Params = Params(interval: nat, selectionHash: (nat, nat) -> nat)
  {
    predicate Valid() { 0 < interval < TWO32 }
  }

  // ----- The selection interval -----

  /** `GetStakeModifierSelectionIntervalSection`, in 32-bit unsigned arithmetic. */
  function Section(p: Params, n: nat): (r: nat)
    requires n < 64
  {
    p.interval * 63 % TWO32 / (63 + (63 - n) * (MODIFIER_INTERVAL_RATIO - 1))
  }

  /** The sections grow. */
  lemma SectionsGrow(p: Params, n: nat)
    requires n < 63
    ensures Section(p, n) <= Section(p, n + 1)
  {
    SmallerDivisor(p.interval * 63 % TWO32, 63 + (63 - n) * 2, 63 + (62 - n) * 2);
  }

  /** They grow from a third of the modifier interval to the whole of it, as long as 63 intervals fit
      32 bits. */
  lemma SectionEnds(p: Params)
    requires p.interval * 63 < TWO32
    ensures Section(p, 0) == p.interval / 3 && Section(p, 63) == p.interval
  {
    var q, r := p.interval / 3, p.interval % 3;
    assert p.interval == 3 * q + r;
    DivModUnique(p.interval * 63, 189, q, 63 * r);
    DivModUnique(p.interval * 63, 63, p.interval, 0);
  }

  lemma SmallerDivisor(a: nat, d: nat, e: nat)
    requires 0 < e <= d
    ensures a / d <= a / e
  {
    var q, q' := a / d, a / e;
    assert a == d * q + a % d && a == e * q' + a % e;
    assert d * q == e * q + (d - e) * q;
    AtLeastOnce(e, q - q');
    assert e * (q - q') == e * q - e * q';
  }

  /** The first n sections. */
  function Sections(p: Params, n: nat): (r: nat)
    requires n <= 64
  {
    if n == 0 then 0 else Sections(p, n - 1) + Section(p, n - 1)
  }

  /** `GetStakeModifierSelectionInterval`. */
  method GetStakeModifierSelectionInterval(p: Params) returns (r: nat)
    ensures r == Sections(p, 64)
  {
    r := 0;
    for n := 0 to 64
      invariant r == Sections(p, n)
    {
      r := r + Section(p, n);
    }
  }

  /** The start of the modifier interval that holds a time. */
  function IntervalStart(p: Params, time: nat): (r: nat)
    requires p.Valid()
  {
    time / p.interval * p.interval
  }

  /** Where selection starts for a parent of this time; it may lie before time zero. */
  function SelectionStart(p: Params, time: nat): (r: int)
    requires p.Valid()
  {
    IntervalStart(p, time) - Sections(p, 64)
  }

  /** The latest time of the candidates of round n. */
  function Stop(p: Params, time: nat, n: nat): (r: int)
    requires p.Valid() && n < 64
  {
    SelectionStart(p, time) + Sections(p, n + 1)
  }

  // ----- Candidates -----

  /** An entry of `vSortedByTimestamp`: a time and a block hash. */
  type Entry = (nat, nat)

  function EntryOf(b: Block): (r: Entry) { (b.time, b.hash) }

  /** The order of the pairs that are sorted. */
  predicate Before(a: Entry, b: Entry) {
    a.0 < b.0 || (a.0 == b.0 && a.1 < b.1)
  }

  predicate Sorted(s: seq<Entry>) {
    forall i, j | 0 <= i < j < |s| :: Before(s[i], s[j])
  }

  predicate DistinctEntries(s: seq<Entry>) {
    forall i, j | 0 <= i < j < |s| :: s[i] != s[j]
  }

  predicate Distinct(s: seq<Block>) {
    forall i, j | 0 <= i < j < |s| :: s[i].hash != s[j].hash
  }

  function Insert(s: seq<Entry>, b: Entry): (r: seq<Entry>) {
    if s == [] || b.0 < s[0].0 || (b.0 == s[0].0 && b.1 < s[0].1) then [b] + s else [s[0]] + Insert(s[1..], b)
  }

  /** `std::sort` on the pairs. */
  function Sort(s: seq<Entry>): (r: seq<Entry>) {
    if s == [] then [] else Insert(Sort(s[..|s| - 1]), s[|s| - 1])
  }

  lemma {:induction false} InsertKeeps(s: seq<Entry>, b: Entry)
    requires Sorted(s) && b !in s
    ensures Sorted(Insert(s, b)) && |Insert(s, b)| == |s| + 1
    ensures forall c :: c in Insert(s, b) <==> c in s || c == b
  {
    if s != [] && !Before(b, s[0]) {
      InsertKeeps(s[1..], b);
      var t := Insert(s[1..], b);
      assert s == [s[0]] + s[1..];
      assert Before(s[0], b);
      forall j | 0 <= j < |t|
        ensures Before(s[0], t[j])
      {
        assert t[j] in t;
      }
    } else {
      var t := Insert(s, b);
      forall i, j | 0 <= i < j < |t|
        ensures Before(t[i], t[j])
      {
        if i == 0 && j > 1 { assert Before(s[0], s[j - 1]); }
      }
    }
  }

  /** Sorting distinct entries keeps them all, in order. */
  lemma {:induction false} SortKeeps(s: seq<Entry>)
    requires DistinctEntries(s)
    ensures Sorted(Sort(s)) && |Sort(s)| == |s|
    ensures forall c :: c in Sort(s) <==> c in s
  {
    if s != [] {
      var init, last := s[..|s| - 1], s[|s| - 1];
      SortKeeps(init);
      assert s == init + [last];
      InsertKeeps(Sort(init), last);
    }
  }

  // ----- Selecting one block -----

  /** The selection hash, divided by 2^32 for a proof-of-stake block. */
  function SelectionHash(p: Params, b: Block, prev: nat): (r: nat) {
    var h := p.selectionHash(b.hashProof, prev);
    if b.proofOfStake then h / TWO32 else h
  }

  /** `b` is the block to select: the least selection hash among the unselected blocks up to the
      stop, the first of them in order on a tie; or, if there are none, the first unselected block. */
  ghost predicate IsPick(p: Params, s: seq<Block>, selected: set<nat>, stop: int, prev: nat, b: Block) {
    && b in s && b.hash !in selected
    && (forall c | c in s && c.hash !in selected ::
         if c.time <= stop then
           && b.time <= stop
           && SelectionHash(p, b, prev) <= SelectionHash(p, c, prev)
           && (SelectionHash(p, b, prev) == SelectionHash(p, c, prev) ==> b == c || Before(EntryOf(b), EntryOf(c)))
         else b.time <= stop || b == c || Before(EntryOf(b), EntryOf(c)))
  }

  /** `SelectBlockFromCandidates`: None where the source reports an error or that nothing was left
      to select. */
  method SelectBlockFromCandidates(p: Params, index: map<nat, Block>, s: seq<Entry>, ghost blocks: seq<Block>,
                                   selected: map<nat, Block>, stop: int, prev: nat)
    returns (r: Option<Block>)
    requires |s| == |blocks| && forall i | 0 <= i < |s| :: s[i] == EntryOf(blocks[i])
    requires Sorted(s)
    requires forall i | 0 <= i < |s| && s[i].1 in index :: index[s[i].1] == blocks[i]
    ensures r.Some? ==> IsPick(p, blocks, selected.Keys, stop, prev, r.value)
    ensures r.None? ==> (exists i :: 0 <= i < |s| && s[i].1 !in index) || (forall c | c in blocks :: c.hash in selected)
  {
    var hashBest := 0;
    r := None;
    var i := 0;
    while i < |s|
      invariant 0 <= i <= |s|
      invariant r.None? ==> forall j | 0 <= j < i :: blocks[j].hash in selected
      invariant r.Some? ==> hashBest == SelectionHash(p, r.value, prev)
      invariant r.Some? ==> IsPick(p, blocks[..i], selected.Keys, stop, prev, r.value)
    {
      if s[i].1 !in index {
        return None;
      }
      var b := index[s[i].1];
      if r.Some? && b.time > stop {
        StopsHere(p, s, blocks, i, selected.Keys, stop, prev, r.value);
        return;
      }
      ghost var before := blocks[..i];
      assert blocks[..i + 1] == before + [b];
      if b.hash !in selected {
        var hashSelection := p.selectionHash(b.hashProof, prev);
        if b.proofOfStake {
          hashSelection := hashSelection / TWO32;
        }
        if r.Some? && hashSelection < hashBest {
          hashBest := hashSelection;
          r := Some(b);
        } else if r.None? {
          hashBest := hashSelection;
          r := Some(b);
        }
      }
      i := i + 1;
    }
    assert blocks[..i] == blocks;
  }

  lemma IndexAfter(s: seq<Block>, i: nat, c: Block) returns (j: nat)
    requires i <= |s| && c in s && c !in s[..i]
    ensures i <= j < |s| && s[j] == c
  {
    assert s == s[..i] + s[i..];
    var k :| 0 <= k < |s[i..]| && s[i..][k] == c;
    j := i + k;
  }

  /** From the first block after the stop on, nothing can change the choice. */
  lemma StopsHere(p: Params, s: seq<Entry>, blocks: seq<Block>, i: nat, selected: set<nat>, stop: int, prev: nat, b: Block)
    requires |s| == |blocks| && forall j | 0 <= j < |s| :: s[j] == EntryOf(blocks[j])
    requires Sorted(s) && i < |s| && blocks[i].time > stop
    requires IsPick(p, blocks[..i], selected, stop, prev, b)
    ensures IsPick(p, blocks, selected, stop, prev, b)
  {
    assert b in blocks[..i];
    var k :| 0 <= k < i && blocks[k] == b;
    forall c | c in blocks && c.hash !in selected && c !in blocks[..i]
      ensures c.time > stop && Before(EntryOf(b), EntryOf(c))
    {
      var j := IndexAfter(blocks, i, c);
      assert j == i || Before(s[i], s[j]);
      assert Before(s[k], s[j]);
    }
  }

  /** At most one block can be selected. */
  lemma PickIsUnique(p: Params, s: seq<Block>, selected: set<nat>, stop: int, prev: nat, a: Block, b: Block)
    requires IsPick(p, s, selected, stop, prev, a) && IsPick(p, s, selected, stop, prev, b)
    ensures a == b
  {
  }

  /** Proof-of-stake blocks are favoured: a proof-of-work block is selected over one only if its
      hash is below the other's by a factor of 2^32. */
  lemma StakeIsFavoured(p: Params, s: seq<Block>, selected: set<nat>, stop: int, prev: nat, b: Block, c: Block)
    requires IsPick(p, s, selected, stop, prev, b) && !b.proofOfStake
    requires c in s && c.hash !in selected && c.proofOfStake && c.time <= stop
    ensures p.selectionHash(b.hashProof, prev) <= p.selectionHash(c.hashProof, prev) / TWO32
    ensures p.selectionHash(b.hashProof, prev) * TWO32 <= p.selectionHash(c.hashProof, prev)
  {
  }

  /** And a proof-of-stake block over a proof-of-work block as soon as its hash, 32 bits shorter, is
      not above the other's. */
  lemma StakeOverWork(p: Params, s: seq<Block>, selected: set<nat>, stop: int, prev: nat, b: Block, c: Block)
    requires IsPick(p, s, selected, stop, prev, b) && b.proofOfStake
    requires c in s && c.hash !in selected && !c.proofOfStake && c.time <= stop
    ensures p.selectionHash(b.hashProof, prev) / TWO32 <= p.selectionHash(c.hashProof, prev)
  {
  }

  /** Between blocks of one kind the hashes decide: all of them for proof of work, without their
      last 32 bits for proof of stake. */
  lemma HashesDecide(p: Params, s: seq<Block>, selected: set<nat>, stop: int, prev: nat, b: Block, c: Block)
    requires IsPick(p, s, selected, stop, prev, b)
    requires c in s && c.hash !in selected && c.proofOfStake == b.proofOfStake && c.time <= stop
    ensures !b.proofOfStake ==> p.selectionHash(b.hashProof, prev) <= p.selectionHash(c.hashProof, prev)
    ensures b.proofOfStake ==>
      p.selectionHash(b.hashProof, prev) < p.selectionHash(c.hashProof, prev) / TWO32 * TWO32 + TWO32
  {
    var h, g := p.selectionHash(b.hashProof, prev), p.selectionHash(c.hashProof, prev);
    assert h < h / TWO32 * TWO32 + TWO32;
  }

  // ----- The bits of a modifier -----

  /** The integer with these bits, the first least significant. */
  function Value(bits: seq<Bit>): (r: nat) {
    if bits == [] then 0 else bits[0] + 2 * Value(bits[1..])
  }

  function BitAt(x: nat, i: nat): (r: nat) {
    if i == 0 then x % 2 else BitAt(x / 2, i - 1)
  }

  /** Bit i of a modifier is its i-th bit, and there are no more. */
  lemma {:induction false} BitsOfValue(bits: seq<Bit>, i: nat)
    ensures BitAt(Value(bits), i) == if i < |bits| then bits[i] else 0
    decreases i
  {
    if bits == [] {
      BitsOfZero(i);
    } else if i > 0 {
      BitsOfValue(bits[1..], i - 1);
      assert Value(bits) / 2 == Value(bits[1..]);
    }
  }

  lemma {:induction false} BitsOfZero(i: nat)
    ensures BitAt(0, i) == 0
  {
    if i > 0 {
      BitsOfZero(i - 1);
    }
  }

  /** Setting the next bit of a word, whose upper bits are still zero. */
  lemma {:induction false} SetNextBit(bits: seq<Bit>, b: Bit)
    ensures Value(bits + [b]) == Value(bits) + b * Pow2(|bits|)
    ensures Value(bits) < Pow2(|bits|)
  {
    if bits == [] {
      assert [b][1..] == [];
    } else {
      SetNextBit(bits[1..], b);
      assert (bits + [b])[1..] == bits[1..] + [b];
      assert 2 * (b * Pow2(|bits| - 1)) == b * Pow2(|bits|);
    }
  }

  // ----- The next modifier -----

  /** The index of the nearest block that generated a modifier, from the tip back. */
  function LastGenerated(chain: seq<Block>): (r: Option<nat>)
    ensures r.Some? ==> r.value < |chain| && chain[r.value].generated
    ensures r.Some? ==> forall i | r.value < i < |chain| :: !chain[i].generated
    ensures r.None? ==> forall i | 0 <= i < |chain| :: !chain[i].generated
  {
    if chain == [] then None
    else if chain[|chain| - 1].generated then Some(|chain| - 1)
    else LastGenerated(chain[..|chain| - 1])
  }

  /** `GetLastStakeModifier`, from the entry at the end of the chain. */
  method GetLastStakeModifier(chain: seq<Block>) returns (r: Option<(nat, nat)>)
    requires chain != []
    ensures r == match LastGenerated(chain)
                 case Some(i) => Some((chain[i].modifier, chain[i].time))
                 case None => None
  {
    var i := |chain| - 1;
    while i > 0 && !chain[i].generated
      invariant 0 <= i < |chain|
      invariant LastGenerated(chain) == LastGenerated(chain[..i + 1])
    {
      assert chain[..i + 1][..i] == chain[..i];
      i := i - 1;
    }
    assert chain[..1][..0] == [];
    if !chain[i].generated {
      return None;
    }
    return Some((chain[i].modifier, chain[i].time));
  }

  /** The parent lies in a later modifier interval than the last generation. */
  predicate Due(p: Params, chain: seq<Block>)
    requires p.Valid() && chain != [] && LastGenerated(chain).Some?
  {
    chain[LastGenerated(chain).value].time / p.interval < chain[|chain| - 1].time / p.interval
  }

  /** The candidates: back from the tip while blocks are not older than the start. */
  function Candidates(chain: seq<Block>, start: int): (r: seq<Block>) {
    chain[FirstCandidate(chain, |chain|, start)..]
  }

  /** The first block of the longest run before index n without a block older than the start. */
  function FirstCandidate(chain: seq<Block>, n: nat, start: int): (r: nat)
    requires n <= |chain|
    ensures r <= n && (forall i | r <= i < n :: chain[i].time >= start)
    ensures r > 0 ==> chain[r - 1].time < start
  {
    if n == 0 || chain[n - 1].time < start then n else FirstCandidate(chain, n - 1, start)
  }

  function Hashes(s: seq<Block>): (r: set<nat>) {
    set b | b in s :: b.hash
  }

  /** The selection for the block after `chain`: one pick for each round. */
  ghost predicate IsSelection(p: Params, chain: seq<Block>, picks: seq<Block>)
    requires p.Valid() && chain != [] && LastGenerated(chain).Some?
  {
    var time := chain[|chain| - 1].time;
    var c := Candidates(chain, SelectionStart(p, time));
    && |picks| == (if |c| < 64 then |c| else 64)
    && Picked(p, c, time, chain[LastGenerated(chain).value].modifier, picks)
  }

  ghost predicate Picked(p: Params, c: seq<Block>, time: nat, prev: nat, picks: seq<Block>)
    requires p.Valid()
  {
    && |picks| <= 64
    && forall i | 0 <= i < |picks| :: IsPick(p, c, Hashes(picks[..i]), Stop(p, time, i), prev, picks[i])
  }

  function EntropyBits(picks: seq<Block>): (bits: seq<Bit>)
    ensures |bits| == |picks|
  {
    seq(|picks|, i requires 0 <= i < |picks| => picks[i].entropyBit)
  }

  /** What `ComputeNextStakeModifier` must yield for the block after `chain`. */
  ghost predicate IsNext(p: Params, chain: seq<Block>, modifier: nat, generated: bool)
    requires p.Valid()
  {
    if chain == [] then modifier == 0 && generated
    else
      && LastGenerated(chain).Some?
      && generated == Due(p, chain)
      && if generated then exists picks :: IsSelection(p, chain, picks) && modifier == Value(EntropyBits(picks))
         else modifier == chain[LastGenerated(chain).value].modifier
  }

  /** Every block of the chain is in the block index under its hash. */
  predicate Indexed(index: map<nat, Block>, chain: seq<Block>) {
    forall b | b in chain :: b.hash in index && index[b.hash] == b
  }

  /** `ComputeNextStakeModifier`. It fails only if no block of the chain generated a modifier:
      among indexed candidates with distinct hashes every round finds a block. */
  method ComputeNextStakeModifier(p: Params, index: map<nat, Block>, chain: seq<Block>)
    returns (ok: bool, modifier: nat, generated: bool)
    requires p.Valid() && Indexed(index, chain) && Distinct(chain)
    ensures ok == (chain == [] || LastGenerated(chain).Some?)
    ensures ok ==> IsNext(p, chain, modifier, generated)
  {
    modifier, generated, ok := 0, false, true;
    if chain == [] {
      generated := true;
      return;
    }
    var last := GetLastStakeModifier(chain);
    if last.None? {
      ok := false;
      return;
    }
    modifier := last.value.0;
    var time := chain[|chain| - 1].time;
    if last.value.1 / p.interval >= time / p.interval {
      return;
    }
    var interval := GetStakeModifierSelectionInterval(p);
    var start := time / p.interval * p.interval - interval;
    var c := CollectCandidates(chain, start);
    var prev := modifier;
    ghost var picks;
    modifier, picks := SelectRounds(p, index, c, time, start, prev);
    generated := true;
  }

  /** The walk back from the tip. */
  method CollectCandidates(chain: seq<Block>, start: int) returns (c: seq<Block>)
    ensures c == Candidates(chain, start)
  {
    c := [];
    var i := |chain|;
    while i > 0 && chain[i - 1].time >= start
      invariant 0 <= i <= |chain|
      invariant FirstCandidate(chain, |chain|, start) == FirstCandidate(chain, i, start)
      invariant c == chain[i..]
    {
      c := [chain[i - 1]] + c;
      i := i - 1;
    }
  }

  /** The selection rounds. */
  method SelectRounds(p: Params, index: map<nat, Block>, c: seq<Block>, time: nat, start: int, prev: nat)
    returns (modifier: nat, ghost picks: seq<Block>)
    requires p.Valid() && Indexed(index, c) && Distinct(c) && start == SelectionStart(p, time)
    ensures |picks| == (if |c| < 64 then |c| else 64) && Picked(p, c, time, prev, picks)
    ensures modifier == Value(EntropyBits(picks))
  {
    hide Picked, Value, EntropyBits, AreSorted, Sort;
    var entries := seq(|c|, i requires 0 <= i < |c| => EntryOf(c[i]));
    var s := Sort(entries);
    ghost var blocks := SortedBlocks(index, c, entries);
    modifier, picks := RunRounds(p, index, c, s, blocks, time, start, prev);
  }

  method RunRounds(p: Params, index: map<nat, Block>, ghost c: seq<Block>, s: seq<Entry>, ghost blocks: seq<Block>,
                   time: nat, start: int, prev: nat)
    returns (modifier: nat, ghost picks: seq<Block>)
    requires p.Valid() && Distinct(c) && AreSorted(index, c, s, blocks) && |s| == |c|
    requires start == SelectionStart(p, time)
    ensures |picks| == (if |c| < 64 then |c| else 64) && Picked(p, c, time, prev, picks)
    ensures modifier == Value(EntropyBits(picks))
  {
    var selected: map<nat, Block> := map[];
    var stop := start;
    hide Picked, Value, EntropyBits, AreSorted, Section, Sort, Hashes, Distinct, Indexed, IsPick, Pow2;
    NoPicks(p, c, time, prev);
    modifier, picks := 0, [];
    var rounds := if |s| < 64 then |s| else 64;
    for n := 0 to rounds
      invariant |picks| == n && Picked(p, c, time, prev, picks)
      invariant modifier == Value(EntropyBits(picks))
      invariant selected.Keys == Hashes(picks)
      invariant stop == start + Sections(p, n)
    {
      stop := stop + Section(p, n);
      FewHashes(picks);
      var b := SelectRound(p, index, c, s, blocks, selected, stop, prev);
      NextBit(picks, b);
      modifier := modifier + b.entropyBit * Pow2(n);
      selected := selected[b.hash := b];
      PickedOneMore(p, c, time, prev, picks, b);
      picks := picks + [b];
    }
  }

  lemma {:induction false} FewHashes(picks: seq<Block>)
    ensures |Hashes(picks)| <= |picks|
  {
    if picks != [] {
      var init, last := picks[..|picks| - 1], picks[|picks| - 1];
      FewHashes(init);
      assert picks == init + [last];
      assert Hashes(picks) == Hashes(init) + {last.hash};
    }
  }

  lemma NoPicks(p: Params, c: seq<Block>, time: nat, prev: nat)
    requires p.Valid()
    ensures Picked(p, c, time, prev, []) && Value(EntropyBits([])) == 0 && Hashes([]) == {}
  {
  }

  lemma NextBit(picks: seq<Block>, b: Block)
    ensures Value(EntropyBits(picks + [b])) == Value(EntropyBits(picks)) + b.entropyBit * Pow2(|picks|)
  {
    hide Value, Pow2;
    SetNextBit(EntropyBits(picks), b.entropyBit);
    assert EntropyBits(picks + [b]) == EntropyBits(picks) + [b.entropyBit];
  }

  /** One round: while fewer blocks are selected than there are candidates, there is a pick. */
  method SelectRound(p: Params, index: map<nat, Block>, ghost c: seq<Block>, s: seq<Entry>, ghost blocks: seq<Block>,
                     selected: map<nat, Block>, stop: int, prev: nat)
    returns (b: Block)
    requires AreSorted(index, c, s, blocks) && Distinct(c) && |selected.Keys| < |c|
    ensures IsPick(p, c, selected.Keys, stop, prev, b)
  {
    var r := SelectBlockFromCandidates(p, index, s, blocks, selected, stop, prev);
    if r.None? {
      AllSelected(c, selected.Keys);
      assert false;
    }
    b := r.value;
    SamePick(p, blocks, c, selected.Keys, stop, prev, b);
  }

  /** `s` are the entries, and `blocks` the index entries, of the candidates in order. */
  ghost predicate AreSorted(index: map<nat, Block>, c: seq<Block>, s: seq<Entry>, blocks: seq<Block>) {
    && Sorted(s) && |blocks| == |s| == |c|
    && (forall i | 0 <= i < |s| :: s[i] == EntryOf(blocks[i]) && s[i].1 in index && index[s[i].1] == blocks[i])
    && (forall x :: x in blocks <==> x in c)
  }

  lemma PickedOneMore(p: Params, c: seq<Block>, time: nat, prev: nat, picks: seq<Block>, b: Block)
    requires p.Valid() && Picked(p, c, time, prev, picks) && |picks| < 64
    requires IsPick(p, c, Hashes(picks), Stop(p, time, |picks|), prev, b)
    ensures Picked(p, c, time, prev, picks + [b])
    ensures Hashes(picks + [b]) == Hashes(picks) + {b.hash}
  {
    var all := picks + [b];
    forall i | 0 <= i < |all|
      ensures IsPick(p, c, Hashes(all[..i]), Stop(p, time, i), prev, all[i])
    {
      assert all[..i] == picks[..i];
      assert picks[..|picks|] == picks;
    }
  }

  /** The order of the candidates does not matter for a pick. */
  lemma SamePick(p: Params, s: seq<Block>, t: seq<Block>, selected: set<nat>, stop: int, prev: nat, b: Block)
    requires IsPick(p, s, selected, stop, prev, b) && forall x :: x in s <==> x in t
    ensures IsPick(p, t, selected, stop, prev, b)
  {
  }

  /** Fewer selected hashes than candidates leave a candidate. */
  lemma AllSelected(c: seq<Block>, selected: set<nat>)
    requires Distinct(c) && forall b | b in c :: b.hash in selected
    ensures |c| <= |selected|
  {
    if c != [] {
      var last, init := c[|c| - 1], c[..|c| - 1];
      forall b | b in init
        ensures b.hash in selected - {last.hash}
      {
        var i :| 0 <= i < |init| && init[i] == b;
        assert c[i].hash != c[|c| - 1].hash;
      }
      AllSelected(init, selected - {last.hash});
    }
  }

  /** The blocks behind the sorted entries. */
  ghost method SortedBlocks(index: map<nat, Block>, c: seq<Block>, entries: seq<Entry>) returns (blocks: seq<Block>)
    requires Indexed(index, c) && Distinct(c)
    requires |entries| == |c| && forall i | 0 <= i < |c| :: entries[i] == EntryOf(c[i])
    ensures AreSorted(index, c, Sort(entries), blocks) && |Sort(entries)| == |c|
  {
    SortKeeps(entries);
    var s := Sort(entries);
    forall i | 0 <= i < |s|
      ensures s[i].1 in index && EntryOf(index[s[i].1]) == s[i] && index[s[i].1] in c
    {
      assert s[i] in entries;
      var k :| 0 <= k < |entries| && entries[k] == s[i];
      assert c[k] in c;
    }
    blocks := seq(|s|, i requires 0 <= i < |s| => index[s[i].1]);
    forall x | x in c
      ensures x in blocks
    {
      var k :| 0 <= k < |c| && c[k] == x;
      assert entries[k] in s;
      var i :| 0 <= i < |s| && s[i] == entries[k];
      assert blocks[i] == x;
    }
  }
}
