/** `SelectTried`: the partial shuffle that looks for an entry to evict from a full tried bucket. */
module TriedShuffle {
  import opened NetTypes
  import opened AddrTables

  function SwapAt(v: seq<int>, i: nat, j: nat): (w: seq<int>)
    requires i < |v| && j < |v|
    ensures |w| == |v|
  {
    v[i := v[j]][j := v[i]]
  }

  predicate AllIn(info: map<int, AddrInfo>, v: seq<int>) {
    forall k :: 0 <= k < |v| ==> v[k] in info
  }

  /** The shuffled bucket, the slot the chosen entry ended in, and the position returned for it. */
  datatype Inspection = Inspection(bucket: seq<int>, slot: int, pos: int)

  ghost predicate DrawsOk(v: seq<int>, draws: seq<nat>) {
    |draws| <= |v| && forall k :: 0 <= k < |draws| ==> k <= draws[k] < |v|
  }

  /** n rounds of shuffling with the random positions `draws`. */
  ghost function Inspect(info: map<int, AddrInfo>, v: seq<int>, draws: seq<nat>, n: nat): (r: Inspection)
    requires DrawsOk(v, draws) && n <= |draws| && AllIn(info, v)
    ensures |r.bucket| == |v| && AllIn(info, r.bucket)
    ensures n == 0 ==> r == Inspection(v, -1, -1)
    ensures n > 0 ==> 0 <= r.slot < n && r.pos == draws[r.slot]
  {
    if n == 0 then Inspection(v, -1, -1)
    else
      var r := Inspect(info, v, draws, n - 1);
      var w := SwapAt(r.bucket, n - 1, draws[n - 1]);
      if n == 1 || info[w[n - 1]].nLastSuccess < info[w[r.slot]].nLastSuccess
      then Inspection(w, n - 1, draws[n - 1])
      else Inspection(w, r.slot, r.pos)
  }

  lemma {:induction false} InspectPrefix(info: map<int, AddrInfo>, v: seq<int>, d: seq<nat>, d': seq<nat>, n: nat)
    requires DrawsOk(v, d) && DrawsOk(v, d') && d <= d' && n <= |d| && AllIn(info, v)
    ensures Inspect(info, v, d, n) == Inspect(info, v, d', n)
  {
    if n > 0 {
      InspectPrefix(info, v, d, d', n - 1);
      assert d[n - 1] == d'[n - 1];
      hide AllIn, DrawsOk;
    }
  }

  /** One round of the shuffle. */
  lemma InspectStep(info: map<int, AddrInfo>, v: seq<int>, draws: seq<nat>, d: nat)
    requires DrawsOk(v, draws) && AllIn(info, v) && |draws| <= d < |v|
    ensures var n := |draws|;
      var r := Inspect(info, v, draws, n);
      var w := SwapAt(r.bucket, n, d);
      && DrawsOk(v, draws + [d])
      && AllIn(info, w) && r.slot < n && (n > 0 ==> 0 <= r.slot)
      && Inspect(info, v, draws + [d], n + 1) ==
           if n == 0 || info[w[n]].nLastSuccess < info[w[r.slot]].nLastSuccess
           then Inspection(w, n, d) else Inspection(w, r.slot, r.pos)
  {
    InspectPrefix(info, v, draws, draws + [d], |draws|);
  }

  /** The two entries change places, and no other moves. */
  lemma SwapAtIs(v: seq<int>, i: nat, j: nat, k: nat)
    requires i < |v| && j < |v| && k < |v|
    ensures SwapAt(v, i, j)[k] == if k == i then v[j] else if k == j then v[i] else v[k]
  {
  }

  /** The entry looked at in round n is the one the draw names, and it goes to slot n - 1. */
  lemma DrawnIsInspected(info: map<int, AddrInfo>, v: seq<int>, draws: seq<nat>, n: nat)
    requires DrawsOk(v, draws) && 0 < n <= |draws| && AllIn(info, v)
    ensures Inspect(info, v, draws, n).bucket[n - 1] == Inspect(info, v, draws, n - 1).bucket[draws[n - 1]]
  {
  }

  lemma SwapAtPermutes(v: seq<int>, i: nat, j: nat)
    requires i < |v| && j < |v|
    ensures Permuted(v, SwapAt(v, i, j))
  {
  }

  lemma {:induction false} InspectPermutes(info: map<int, AddrInfo>, v: seq<int>, draws: seq<nat>, n: nat)
    requires DrawsOk(v, draws) && n <= |draws| && AllIn(info, v)
    ensures Permuted(v, Inspect(info, v, draws, n).bucket)
  {
    if n > 0 {
      InspectPermutes(info, v, draws, n - 1);
      SwapAtPermutes(Inspect(info, v, draws, n - 1).bucket, n - 1, draws[n - 1]);
    }
  }

  /** Slot `slot` is the first of the n inspected slots with the least recent success. */
  predicate OldestInspected(info: map<int, AddrInfo>, r: Inspection, n: nat)
    requires n <= |r.bucket| && AllIn(info, r.bucket) && 0 <= r.slot < n
  {
    && (forall k :: 0 <= k < n ==> info[r.bucket[r.slot]].nLastSuccess <= info[r.bucket[k]].nLastSuccess)
    && (forall k :: 0 <= k < r.slot ==> info[r.bucket[r.slot]].nLastSuccess < info[r.bucket[k]].nLastSuccess)
  }

  /** The inspected entries end up in the first n slots, and the chosen one, the first of them
      with the least recent success, is in slot `slot`. */
  lemma {:induction false} InspectFindsOldest(info: map<int, AddrInfo>, v: seq<int>, draws: seq<nat>, n: nat)
    requires DrawsOk(v, draws) && 0 < n <= |draws| && AllIn(info, v)
    ensures OldestInspected(info, Inspect(info, v, draws, n), n)
  {
    var r := Inspect(info, v, draws, n);
    if n > 1 {
      var r' := Inspect(info, v, draws, n - 1);
      InspectFindsOldest(info, v, draws, n - 1);
      assert forall k :: 0 <= k < n - 1 ==> r.bucket[k] == r'.bucket[k];
    }
  }

  /** The returned position holds the entry that was chosen exactly when the random draw for it
      was its own slot: the swap moves the chosen entry to `slot`, but the position recorded is
      the one it came from. */
  lemma SelectedPosHoldsOldest(info: map<int, AddrInfo>, v: seq<int>, draws: seq<nat>, n: nat)
    requires DrawsOk(v, draws) && 0 < n <= |draws| && Distinct(v) && AllIn(info, v)
    ensures var r := Inspect(info, v, draws, n);
      r.bucket[r.pos] == r.bucket[r.slot] <==> draws[r.slot] == r.slot
  {
    InspectPermutes(info, v, draws, n);
    SamePermutation(v, Inspect(info, v, draws, n).bucket);
  }

  /** The position returned for a bucket is that of the chosen entry. */
  ghost predicate PosHoldsChosen(info: map<int, AddrInfo>, v: seq<int>, draws: seq<nat>, n: nat)
    requires DrawsOk(v, draws) && 0 < n <= |draws| && AllIn(info, v)
  {
    var r := Inspect(info, v, draws, n);
    r.bucket[r.pos] == r.bucket[r.slot]
  }

  /** For every bucket of at least five entries, and so for a full one, there are draws for which
      the position returned is never that of the chosen entry, whatever the entries are. */
  lemma SelectTriedMayMissOldest(info: map<int, AddrInfo>, v: seq<int>)
    requires |v| >= 5 && Distinct(v) && AllIn(info, v)
    ensures DrawsOk(v, [1, 2, 3, 4]) && !PosHoldsChosen(info, v, [1, 2, 3, 4], TRIED_ENTRIES_INSPECT_ON_EVICT)
  {
    hide Inspect;
    var draws: seq<nat> := [1, 2, 3, 4];
    SelectedPosHoldsOldest(info, v, draws, 4);
    assert forall k | 0 <= k < 4 :: draws[k] == k + 1;
  }

  /** The shuffle does not depend on the entries. */
  lemma {:induction false} SameShuffle(info: map<int, AddrInfo>, info': map<int, AddrInfo>, v: seq<int>, draws: seq<nat>, n: nat)
    requires DrawsOk(v, draws) && n <= |draws| && AllIn(info, v) && AllIn(info', v)
    ensures Inspect(info, v, draws, n).bucket == Inspect(info', v, draws, n).bucket
  {
    if n > 0 {
      SameShuffle(info, info', v, draws, n - 1);
    }
  }

  /** An entry with this last success. */
  function Sample(nLastSuccess: int): (i: AddrInfo) {
    AddrInfo(Service(NetAddr([]), 0), {}, 0, NetAddr([]), nLastSuccess, 0, 0, 0, false, -1)
  }

  /** The draws for which the position is right whatever the entries are: exactly those that move
      nothing. */
  lemma PosHoldsChosenIff(v: seq<int>, draws: seq<nat>, n: nat)
    requires DrawsOk(v, draws) && 0 < n <= |draws| && Distinct(v)
    ensures (forall info | AllIn(info, v) :: PosHoldsChosen(info, v, draws, n))
        <==> forall k | 0 <= k < n :: draws[k] == k
  {
    forall info | AllIn(info, v) && forall k | 0 <= k < n :: draws[k] == k
      ensures PosHoldsChosen(info, v, draws, n)
    {
      SelectedPosHoldsOldest(info, v, draws, n);
    }
    forall k | 0 <= k < n && draws[k] != k
      ensures exists info :: AllIn(info, v) && !PosHoldsChosen(info, v, draws, n)
    {
      var info := SpoiledAt(v, draws, n, k);
      assert AllIn(info, v) && !PosHoldsChosen(info, v, draws, n);
    }
  }

  /** If draw k moves something, entries that make the entry of slot k the chosen one spoil the
      position. */
  lemma SpoiledAt(v: seq<int>, draws: seq<nat>, n: nat, k: nat) returns (info: map<int, AddrInfo>)
    requires DrawsOk(v, draws) && k < n <= |draws| && Distinct(v) && draws[k] != k
    ensures AllIn(info, v) && !PosHoldsChosen(info, v, draws, n)
  {
    var plain := map id | id in v :: Sample(1);
    var b := Inspect(plain, v, draws, n).bucket;
    info := map id | id in v :: Sample(if id == b[k] then 0 else 1);
    SameShuffle(plain, info, v, draws, n);
    InspectPermutes(info, v, draws, n);
    SamePermutation(v, b);
    InspectFindsOldest(info, v, draws, n);
    hide Inspect;
    var r := Inspect(info, v, draws, n);
    assert info[r.bucket[r.slot]].nLastSuccess <= info[r.bucket[k]].nLastSuccess == 0;
    assert b[r.slot] == b[k];
    SelectedPosHoldsOldest(info, v, draws, n);
  }
}
