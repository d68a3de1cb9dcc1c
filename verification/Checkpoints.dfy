/** The synchronized checkpoint of `src/checkpoints.cpp`: a walk over the block tree. Signature,
    disk and reorganisation results are inputs of the operations. */
module Checkpoints {
  import opened Options

  type Hash = nat

  // ----- The block tree -----

  /** A CBlockIndex in `mapBlockIndex`; `pprev` is a hash. */
  datatype Node = Node(height: nat, time: nat, pprev: Option<Hash>)

  type Tree = map<Hash, Node>

  /** Every parent is in the tree, one block lower; a block without a parent has height zero. */
  predicate WellFormed(t: Tree) {
    forall h | h in t ::
      match t[h].pprev
      case Some(p) => p in t && t[h].height == t[p].height + 1
      case None => t[h].height == 0
  }

  /** The block at a height on the way from `a` to the root, or `a` if it is not higher. */
  function At(t: Tree, a: Hash, height: nat): (b: Hash)
    requires WellFormed(t) && a in t
    ensures b in t && t[b].height <= t[a].height && t[b].height <= height
    decreases t[a].height
  {
    if t[a].height > height then At(t, t[a].pprev.value, height) else a
  }

  /** `b` is `a` or an ancestor of `a`. */
  predicate Descends(t: Tree, a: Hash, b: Hash)
    requires WellFormed(t)
  {
    a in t && b in t && t[b].height <= t[a].height && At(t, a, t[b].height) == b
  }

  predicate StrictlyDescends(t: Tree, a: Hash, b: Hash)
    requires WellFormed(t)
  {
    Descends(t, a, b) && a != b
  }

  lemma {:induction false} AtInTwoSteps(t: Tree, a: Hash, high: nat, low: nat)
    requires WellFormed(t) && a in t && low <= high
    ensures At(t, At(t, a, high), low) == At(t, a, low)
    decreases t[a].height
  {
    if t[a].height > high {
      AtInTwoSteps(t, t[a].pprev.value, high, low);
    }
  }

  lemma DescendsIsTransitive(t: Tree, a: Hash, b: Hash, c: Hash)
    requires WellFormed(t) && Descends(t, a, b) && Descends(t, b, c)
    ensures Descends(t, a, c)
  {
    AtInTwoSteps(t, a, t[b].height, t[c].height);
  }

  /** Two ancestors of one block are related. */
  lemma AncestorsAreOrdered(t: Tree, a: Hash, b: Hash, c: Hash)
    requires WellFormed(t) && Descends(t, a, b) && Descends(t, a, c) && t[c].height <= t[b].height
    ensures Descends(t, b, c)
  {
    AtInTwoSteps(t, a, t[b].height, t[c].height);
  }

  /** The tree only grows, by blocks above existing ones or new roots. */
  predicate Grows(t: Tree, u: Tree) {
    forall h | h in t :: h in u && u[h] == t[h]
  }

  lemma {:induction false} AtInGrown(t: Tree, u: Tree, a: Hash, height: nat)
    requires WellFormed(t) && WellFormed(u) && Grows(t, u) && a in t
    ensures At(u, a, height) == At(t, a, height)
    decreases t[a].height
  {
    if t[a].height > height {
      AtInGrown(t, u, t[a].pprev.value, height);
    }
  }

  lemma DescendsInGrown(t: Tree, u: Tree, a: Hash, b: Hash)
    requires WellFormed(t) && WellFormed(u) && Grows(t, u) && Descends(t, a, b)
    ensures Descends(u, a, b)
  {
    AtInGrown(t, u, a, t[b].height);
  }

  // ----- The state -----

  /** `hashSyncCheckpoint`, `hashPendingCheckpoint` (0 when there is none), `hashInvalidCheckpoint`
      and the two messages. */
  datatype State = State(
    tree: Tree,
    sync: Hash,
    pending: Hash,
    invalid: Hash,
    message: Option<Hash>,
    pendingMessage: Option<Hash>)
  {
    /** "sync-checkpoint should always be accepted block" */
    predicate Valid() {
      WellFormed(tree) && sync in tree
    }
  }

  /** What the disk and the reorganisation answer while a checkpoint is adopted. */
  datatype Answers = Answers(inMainChain: bool, readOk: bool, setBestOk: bool, writeOk: bool)

  /** `ValidateSyncCheckpoint`: the verdict. */
  predicate Accepts(s: State, h: Hash)
    requires s.Valid()
  {
    h in s.tree && s.tree[h].height > s.tree[s.sync].height && At(s.tree, h, s.tree[s.sync].height) == s.sync
  }

  /** `ValidateSyncCheckpoint`: whether the checkpoint is recorded as invalid. */
  predicate Conflicts(s: State, h: Hash)
    requires s.Valid()
  {
    h in s.tree &&
    if s.tree[h].height <= s.tree[s.sync].height then At(s.tree, s.sync, s.tree[h].height) != h
    else At(s.tree, h, s.tree[s.sync].height) != s.sync
  }

  function Validated(s: State, h: Hash): (r: State)
    requires s.Valid()
  {
    if Conflicts(s, h) then s.(invalid := h) else s
  }

  /** A checkpoint is accepted exactly when it strictly descends from the current one, and recorded
      as invalid exactly when neither descends from the other. */
  lemma AcceptsIffDescends(s: State, h: Hash)
    requires s.Valid() && h in s.tree
    ensures Accepts(s, h) <==> StrictlyDescends(s.tree, h, s.sync)
    ensures Conflicts(s, h) <==> !Descends(s.tree, h, s.sync) && !Descends(s.tree, s.sync, h)
  {
    if s.tree[h].height == s.tree[s.sync].height {
      assert At(s.tree, h, s.tree[s.sync].height) == h;
    }
  }

  /** Both callers switch to the checkpoint's chain and write it to the database before adopting it. */
  function Adopted(s: State, h: Hash, a: Answers): (r: (bool, State)) {
    if !a.inMainChain && !a.readOk then (false, s)
    else if !a.inMainChain && !a.setBestOk then (false, s.(invalid := h))
    else if !a.writeOk then (false, s)
    else (true, s.(sync := h))
  }

  /** `ProcessSyncCheckpoint` for a message naming block h. */
  function Processed(s: State, h: Hash, signed: bool, a: Answers): (r: (bool, State))
    requires s.Valid()
  {
    if !signed then (false, s)
    else if h !in s.tree then (false, s.(pending := h, pendingMessage := Some(h)))
    else if !Accepts(s, h) then (false, Validated(s, h))
    else
      var r := Adopted(s, h, a);
      if !r.0 then r else (true, r.1.(message := Some(h), pending := 0, pendingMessage := None))
  }

  /** `AcceptPendingSyncCheckpoint`. */
  function PendingAccepted(s: State, a: Answers): (r: (bool, State))
    requires s.Valid()
  {
    if s.pending == 0 || s.pending !in s.tree then (false, s)
    else if !Accepts(s, s.pending) then (false, Validated(s, s.pending).(pending := 0, pendingMessage := None))
    else
      var r := Adopted(s, s.pending, a);
      if !r.0 then r else (true, r.1.(pending := 0, message := s.pendingMessage, pendingMessage := None))
  }

  // ----- The code -----

  class SyncCheckpoint {
    var mapBlockIndex: Tree
    var hashSyncCheckpoint: Hash
    var hashPendingCheckpoint: Hash
    var hashInvalidCheckpoint: Hash
    var checkpointMessage: Option<Hash>
    var checkpointMessagePending: Option<Hash>

    function St(): (r: State)
      reads this
    {
      State(mapBlockIndex, hashSyncCheckpoint, hashPendingCheckpoint, hashInvalidCheckpoint,
            checkpointMessage, checkpointMessagePending)
    }

    constructor (genesis: Hash, time: nat)
      ensures St().Valid() && hashSyncCheckpoint == genesis
    {
      mapBlockIndex := map[genesis := Node(0, time, None)];
      hashSyncCheckpoint, hashPendingCheckpoint, hashInvalidCheckpoint := genesis, 0, 0;
      checkpointMessage, checkpointMessagePending := None, None;
    }

    /** The walk back along `pprev`. In a well-formed tree no parent is missing, so the source's
        "block index structure failure" (None here) never comes up. */
    method TraceBack(from: Hash, height: nat) returns (r: Option<Hash>)
      requires St().Valid() && from in mapBlockIndex
      ensures r == Some(At(mapBlockIndex, from, height))
    {
      var pindex := from;
      while mapBlockIndex[pindex].height > height
        invariant pindex in mapBlockIndex
        invariant At(mapBlockIndex, from, height) == At(mapBlockIndex, pindex, height)
        decreases mapBlockIndex[pindex].height
      {
        if mapBlockIndex[pindex].pprev.None? {
          return None;
        }
        pindex := mapBlockIndex[pindex].pprev.value;
      }
      return Some(pindex);
    }

    /** `ValidateSyncCheckpoint`. */
    method Validate(h: Hash) returns (ok: bool)
      requires St().Valid()
      modifies this`hashInvalidCheckpoint
      ensures ok == Accepts(old(St()), h) && St() == Validated(old(St()), h)
    {
      if h !in mapBlockIndex {
        return false;
      }
      var sync := hashSyncCheckpoint;
      if mapBlockIndex[h].height <= mapBlockIndex[sync].height {
        var p := TraceBack(sync, mapBlockIndex[h].height);
        if p.None? {
          return false;
        }
        if p.value != h {
          hashInvalidCheckpoint := h;
        }
        return false;
      }
      var p := TraceBack(h, mapBlockIndex[sync].height);
      if p.None? {
        return false;
      }
      if p.value != sync {
        hashInvalidCheckpoint := h;
        return false;
      }
      return true;
    }

    /** The common part of adopting a validated checkpoint. */
    method Adopt(h: Hash, a: Answers) returns (ok: bool)
      modifies this`hashInvalidCheckpoint, this`hashSyncCheckpoint
      ensures (ok, St()) == Adopted(old(St()), h, a)
    {
      if !a.inMainChain {
        if !a.readOk {
          return false;
        }
        if !a.setBestOk {
          hashInvalidCheckpoint := h;
          return false;
        }
      }
      if !a.writeOk {
        return false;
      }
      hashSyncCheckpoint := h;
      return true;
    }

    /** `CSyncCheckpoint::ProcessSyncCheckpoint`. */
    method ProcessSyncCheckpoint(h: Hash, signed: bool, a: Answers) returns (ok: bool)
      requires St().Valid()
      modifies this
      ensures (ok, St()) == Processed(old(St()), h, signed, a)
    {
      if !signed {
        return false;
      }
      if h !in mapBlockIndex {
        hashPendingCheckpoint := h;
        checkpointMessagePending := Some(h);
        return false;
      }
      ok := Validate(h);
      if !ok {
        return;
      }
      ok := Adopt(h, a);
      if !ok {
        return;
      }
      checkpointMessage := Some(h);
      hashPendingCheckpoint := 0;
      checkpointMessagePending := None;
    }

    /** `AcceptPendingSyncCheckpoint`. */
    method AcceptPendingSyncCheckpoint(a: Answers) returns (ok: bool)
      requires St().Valid()
      modifies this
      ensures (ok, St()) == PendingAccepted(old(St()), a)
    {
      if hashPendingCheckpoint == 0 || hashPendingCheckpoint !in mapBlockIndex {
        return false;
      }
      ok := Validate(hashPendingCheckpoint);
      if !ok {
        hashPendingCheckpoint := 0;
        checkpointMessagePending := None;
        return;
      }
      ok := Adopt(hashPendingCheckpoint, a);
      if !ok {
        return;
      }
      hashPendingCheckpoint := 0;
      checkpointMessage := checkpointMessagePending;
      checkpointMessagePending := None;
    }

    /** `AutoSelectSyncCheckpoint`: back from the best block to the first that is both old and deep
        enough, or to the root. */
    method AutoSelectSyncCheckpoint(best: Hash, span: nat, spacing: nat) returns (r: Hash)
      requires St().Valid() && best in mapBlockIndex
      ensures r == AutoSelected(mapBlockIndex, best, best, span, spacing)
    {
      r := best;
      while mapBlockIndex[r].pprev.Some?
        && (mapBlockIndex[r].time + span * spacing > mapBlockIndex[best].time
            || mapBlockIndex[r].height + span > mapBlockIndex[best].height)
        invariant r in mapBlockIndex
        invariant AutoSelected(mapBlockIndex, best, best, span, spacing) == AutoSelected(mapBlockIndex, r, best, span, spacing)
        decreases mapBlockIndex[r].height
      {
        r := mapBlockIndex[r].pprev.value;
      }
    }

    /** `CheckSync` for a block h to be attached to `prev`. */
    method CheckSync(h: Hash, prev: Hash, testnet: bool, catchingUp: bool, best: Hash, span: nat, spacing: nat)
      returns (ok: bool)
      requires St().Valid() && prev in mapBlockIndex && best in mapBlockIndex
      ensures ok == Passes(St(), h, prev, testnet, catchingUp, best, span, spacing)
    {
      if testnet {
        return true;
      }
      var height := mapBlockIndex[prev].height + 1;
      if catchingUp {
        var auto := AutoSelectSyncCheckpoint(best, span, spacing);
        return height > mapBlockIndex[auto].height;
      }
      var syncHeight := mapBlockIndex[hashSyncCheckpoint].height;
      if height > syncHeight {
        var p := TraceBack(prev, syncHeight);
        if p.None? {
          return false;
        }
        if mapBlockIndex[p.value].height < syncHeight || p.value != hashSyncCheckpoint {
          return false;
        }
      }
      if height == syncHeight && h != hashSyncCheckpoint {
        return false;
      }
      if height < syncHeight && h !in mapBlockIndex {
        return false;
      }
      return true;
    }

    /** A new block enters the index above its parent. */
    method AddBlock(h: Hash, time: nat, prev: Hash)
      requires St().Valid() && h !in mapBlockIndex && prev in mapBlockIndex
      modifies this`mapBlockIndex
      ensures St() == old(St()).(tree := Added(old(mapBlockIndex), h, time, prev)) && St().Valid()
    {
      mapBlockIndex := Added(mapBlockIndex, h, time, prev);
    }
  }

  function Added(t: Tree, h: Hash, time: nat, prev: Hash): (r: Tree)
    requires prev in t
  {
    t[h := Node(t[prev].height + 1, time, Some(prev))]
  }

  predicate TooRecent(t: Tree, r: Hash, best: Hash, span: nat, spacing: nat)
    requires r in t && best in t
  {
    t[r].time + span * spacing > t[best].time || t[r].height + span > t[best].height
  }

  function AutoSelected(t: Tree, r: Hash, best: Hash, span: nat, spacing: nat): (a: Hash)
    requires WellFormed(t) && r in t && best in t
    ensures a in t && Descends(t, r, a)
    ensures t[a].pprev.Some? ==> !TooRecent(t, a, best, span, spacing)
    decreases t[r].height
  {
    if t[r].pprev.Some? && TooRecent(t, r, best, span, spacing) then
      AutoSelected(t, t[r].pprev.value, best, span, spacing)
    else r
  }

  /** What `CheckSync` lets through. */
  predicate Passes(s: State, h: Hash, prev: Hash, testnet: bool, catchingUp: bool, best: Hash, span: nat, spacing: nat)
    requires s.Valid() && prev in s.tree && best in s.tree
  {
    var height := s.tree[prev].height + 1;
    var syncHeight := s.tree[s.sync].height;
    testnet ||
    if catchingUp then height > s.tree[AutoSelected(s.tree, best, best, span, spacing)].height
    else if height > syncHeight then Descends(s.tree, prev, s.sync)
    else if height == syncHeight then h == s.sync
    else h in s.tree
  }

  // ----- Runs -----

  datatype Op =
    | AddBlock(h: Hash, time: nat, prev: Hash)
    | Process(h: Hash, signed: bool, a: Answers)
    | AcceptPending(a: Answers)

  function Step(s: State, op: Op): (r: State)
    requires s.Valid()
  {
    match op
    case AddBlock(h, time, prev) =>
      if h !in s.tree && prev in s.tree then s.(tree := Added(s.tree, h, time, prev)) else s
    case Process(h, signed, a) => Processed(s, h, signed, a).1
    case AcceptPending(a) => PendingAccepted(s, a).1
  }

  lemma AddedKeeps(t: Tree, h: Hash, time: nat, prev: Hash)
    requires WellFormed(t) && h !in t && prev in t
    ensures WellFormed(Added(t, h, time, prev)) && Grows(t, Added(t, h, time, prev))
  {
  }

  /** What both checkpoint operations do to the tree and the checkpoint. */
  predicate Moves(s: State, u: State)
    requires s.Valid()
  {
    u.tree == s.tree && (u.sync == s.sync || (u.sync in s.tree && Accepts(s, u.sync)))
  }

  lemma ProcessedMoves(s: State, h: Hash, signed: bool, a: Answers)
    requires s.Valid()
    ensures Moves(s, Processed(s, h, signed, a).1)
  {
    hide WellFormed, Accepts, Conflicts;
  }

  lemma PendingMoves(s: State, a: Answers)
    requires s.Valid()
    ensures Moves(s, PendingAccepted(s, a).1)
  {
    hide WellFormed, Accepts, Conflicts;
  }

  /** Every step keeps the state valid, grows the tree, and moves the checkpoint only to a strict
      descendant. */
  predicate Ascends(s: State, u: State)
    requires s.Valid()
  {
    u.Valid() && Grows(s.tree, u.tree) && (u.sync != s.sync ==> StrictlyDescends(u.tree, u.sync, s.sync))
  }

  lemma MovesAscend(s: State, u: State)
    requires s.Valid() && Moves(s, u)
    ensures Ascends(s, u)
  {
    hide WellFormed, Accepts;
    if u.sync != s.sync {
      AcceptsIffDescends(s, u.sync);
    }
  }

  lemma StepAscends(s: State, op: Op)
    requires s.Valid()
    ensures Ascends(s, Step(s, op))
  {
    hide WellFormed, Moves, Processed, PendingAccepted, Added, Grows;
    match op
    case AddBlock(h, time, prev) =>
      SameTreeGrows(s.tree);
      if h !in s.tree && prev in s.tree {
        AddedKeeps(s.tree, h, time, prev);
        StaysIn(s.tree, Added(s.tree, h, time, prev), s.sync);
      }
    case Process(h, signed, a) =>
      ProcessedMoves(s, h, signed, a);
      MovesAscend(s, Processed(s, h, signed, a).1);
    case AcceptPending(a) =>
      PendingMoves(s, a);
      MovesAscend(s, PendingAccepted(s, a).1);
  }

  lemma SameTreeGrows(t: Tree)
    ensures Grows(t, t)
  {
  }

  lemma StaysIn(t: Tree, u: Tree, h: Hash)
    requires Grows(t, u) && h in t
    ensures h in u
  {
  }

  ghost predicate Follows(s: State, u: State) {
    s.Valid() && exists op :: u == Step(s, op)
  }

  /** The states of a run. */
  ghost predicate IsRun(run: seq<State>) {
    run != [] && run[0].Valid() && forall i | 0 < i < |run| :: Follows(run[i - 1], run[i])
  }

  lemma RunIsValid(run: seq<State>, i: nat)
    requires IsRun(run) && i < |run|
    ensures run[i].Valid()
  {
    hide WellFormed, Step;
    if i > 0 {
      RunStep(run, i - 1);
    }
  }

  lemma RunStep(run: seq<State>, j: nat)
    requires IsRun(run) && j + 1 < |run|
    ensures run[j].Valid() && Ascends(run[j], run[j + 1])
  {
    hide WellFormed, Follows;
    var k := j + 1;
    FollowsAscends(run[k - 1], run[k]);
  }

  lemma FollowsAscends(s: State, u: State)
    requires Follows(s, u)
    ensures s.Valid() && Ascends(s, u)
  {
    hide WellFormed, Step, Ascends;
    var op :| u == Step(s, op);
    StepAscends(s, op);
  }

  lemma GrowsIsTransitive(t: Tree, u: Tree, v: Tree)
    requires Grows(t, u) && Grows(u, v)
    ensures Grows(t, v)
  {
  }

  /** Over any run, every later checkpoint descends from every earlier one. */
  lemma {:induction false} CheckpointsAscend(run: seq<State>, i: nat, j: nat)
    requires IsRun(run) && i <= j < |run|
    ensures run[i].Valid() && run[j].Valid() && Grows(run[i].tree, run[j].tree)
    ensures Descends(run[j].tree, run[j].sync, run[i].sync)
    decreases j
  {
    hide WellFormed, IsRun, Grows;
    RunIsValid(run, i);
    RunIsValid(run, j);
    if i == j {
      SameTreeGrows(run[i].tree);
    } else {
      var k := j - 1;
      CheckpointsAscend(run, i, k);
      RunStep(run, k);
      GrowsIsTransitive(run[i].tree, run[k].tree, run[j].tree);
      DescendsInGrown(run[k].tree, run[j].tree, run[k].sync, run[i].sync);
      if run[j].sync != run[k].sync {
        DescendsIsTransitive(run[j].tree, run[j].sync, run[k].sync, run[i].sync);
      }
    }
  }

  /** On the synced main network, a block that `CheckSync` lets through above the checkpoint has a
      parent that descends from every checkpoint the run ever had. */
  lemma PassedBlocksDescend(run: seq<State>, i: nat, j: nat, h: Hash, prev: Hash, best: Hash, span: nat, spacing: nat)
    requires IsRun(run) && i <= j < |run|
    requires run[j].Valid() && prev in run[j].tree && best in run[j].tree
    requires Passes(run[j], h, prev, false, false, best, span, spacing)
    requires run[j].tree[prev].height + 1 > run[j].tree[run[j].sync].height
    ensures Descends(run[j].tree, prev, run[i].sync)
  {
    CheckpointsAscend(run, i, j);
    DescendsIsTransitive(run[j].tree, prev, run[j].sync, run[i].sync);
  }
}
