/** `CAddrMan`: the stochastic address manager of `src/addrman.cpp`. Each method updates the
    redundant tables field by field; its contract states the table transition it performs. */
module AddrMan {
  import opened NetTypes
  import opened AddrTables
  import opened TriedShuffle
  import opened AddrSpec
  import opened Ascending

  /** A further reference is one chance in this many: each reference held doubles it. */
  function Odds(nRefCount: int): (n: nat)
    ensures n > 0
    decreases nRefCount
  {
    if nRefCount <= 0 then 1 else 2 * Odds(nRefCount - 1)
  }

  /** `GetRandInt`: any value below `nMax`, and 0 for an empty range. */
  method GetRandInt(nMax: nat) returns (r: nat)
    ensures r < nMax || (nMax == 0 && r == 0)
  {
    if nMax == 0 {
      r := 0;
    } else {
      r :| r < nMax;
    }
  }

  /** Dropping another entry leaves the pending entry where it is. */
  lemma DroppedOthers(net: Net, key: seq<Byte>, t: Tables, victim: int, b: nat, id: int)
    requires ConsistentBut(net, key, t, id) && id in t.mapInfo && !t.mapInfo[id].fInTried
    requires b < NEW_BUCKET_COUNT && victim in t.vvNew[b] && id !in t.vvNew[b]
    ensures var t' := Dropped(t, victim, b);
      && id in t'.mapInfo && !t'.mapInfo[id].fInTried && id !in t'.vvNew[b]
      && |t'.vvNew[b]| == |t.vvNew[b]| - 1
      && |t'.vvNew| == |t.vvNew|
  {
    if t.mapInfo[victim].nRefCount == 1 {
      var t1 := t.(mapAddr := t.mapAddr - {t.mapInfo[victim].addr.net}, nNew := t.nNew - 1, vvNew := t.vvNew[b := t.vvNew[b] - {victim}]);
      hide RandomOk, IndexOk, TriedOk, Swapped;
      UnlistedOk(t1, victim);
      assert id in t.mapInfo - {victim};
    }
  }

  lemma CreatedNowhere(net: Net, key: seq<Byte>, t: Tables, b: nat)
    requires Consistent(net, key, t) && b < NEW_BUCKET_COUNT
    ensures t.nIdCount !in t.vvNew[b]
  {
    assert t.nIdCount !in t.mapInfo;
    assert forall x :: x in t.vvNew[b] ==> x in t.mapInfo;
  }

  class CAddrMan {
    const net: Net
    var nKey: seq<Byte>
    var nIdCount: int
    var mapInfo: map<int, AddrInfo>
    var mapAddr: map<NetAddr, int>
    var vRandom: seq<int>
    var nTried: int
    var vvTried: seq<seq<int>>
    var nNew: int
    var vvNew: seq<set<int>>

    ghost function T(): (r: Tables)
      reads this
    {
      Tables(nIdCount, mapInfo, mapAddr, vRandom, nTried, vvTried, nNew, vvNew)
    }

    ghost predicate Valid()
      reads this
    {
      Consistent(net, nKey, T())
    }

    constructor (net: Net, key: seq<Byte>)
      ensures Valid() && TimesOk(mapInfo)
      ensures this.net == net && nKey == key && mapInfo == map[]
    {
      this.net := net;
      nKey := key;
      nIdCount, nTried, nNew := 0, 0, 0;
      mapInfo, mapAddr, vRandom := map[], map[], [];
      vvTried := seq(TRIED_BUCKET_COUNT, _ => []);
      vvNew := seq(NEW_BUCKET_COUNT, _ => {});
      new;
      assert TriedIds(mapInfo) == {} && NewIds(mapInfo) == {};
    }

    method Find(addr: NetAddr) returns (found: bool, nId: int)
      ensures found <==> addr in mapAddr && mapAddr[addr] in mapInfo
      ensures found ==> nId == mapAddr[addr]
    {
      found, nId := false, NONE;
      if addr in mapAddr {
        nId := mapAddr[addr];
        found := nId in mapInfo;
      }
    }

    method SwapRandom(nRndPos1: nat, nRndPos2: nat)
      requires nRndPos1 == nRndPos2 ||
               (nRndPos1 < |vRandom| && nRndPos2 < |vRandom| && vRandom[nRndPos1] in mapInfo && vRandom[nRndPos2] in mapInfo)
      modifies this`mapInfo, this`vRandom
      ensures nRndPos1 == nRndPos2 ==> T() == old(T())
      ensures nRndPos1 != nRndPos2 ==> T() == Swapped(old(T()), nRndPos1, nRndPos2)
    {
      if nRndPos1 == nRndPos2 {
        return;
      }
      var nId1 := vRandom[nRndPos1];
      var nId2 := vRandom[nRndPos2];
      mapInfo := mapInfo[nId1 := mapInfo[nId1].(nRandomPos := nRndPos2)];
      mapInfo := mapInfo[nId2 := mapInfo[nId2].(nRandomPos := nRndPos1)];
      vRandom := vRandom[nRndPos1 := nId2];
      vRandom := vRandom[nRndPos2 := nId1];
    }

    /** `--nRefCount`, deletion of an entry nobody refers to any more, and removal from the bucket. */
    method Release(nId: int, nUBucket: nat)
      requires nUBucket < |vvNew| && nId in mapInfo && RandomOk(mapInfo, vRandom)
      modifies this
      ensures nKey == old(nKey) && T() == Dropped(old(T()), nId, nUBucket)
    {
      var info := mapInfo[nId];
      info := info.(nRefCount := info.nRefCount - 1);
      if info.nRefCount == 0 {
        SwapRandom(info.nRandomPos, |vRandom| - 1);
        vRandom := vRandom[..|vRandom| - 1];
        mapAddr := mapAddr - {info.addr.net};
        mapInfo := mapInfo - {nId};
        nNew := nNew - 1;
      } else {
        mapInfo := mapInfo[nId := info];
      }
      vvNew := vvNew[nUBucket := vvNew[nUBucket] - {nId}];
    }

    /** The scan for a deletable item: the index of the first terrible entry, or |q|. */
    method FirstTerrible(q: seq<int>, now: int) returns (i: nat)
      requires forall j :: 0 <= j < |q| ==> q[j] in mapInfo
      ensures i <= |q| && (i < |q| ==> IsTerrible(mapInfo[q[i]], now))
      ensures forall j :: 0 <= j < i ==> !IsTerrible(mapInfo[q[j]], now)
    {
      i := 0;
      while i < |q|
        invariant i <= |q| && forall j :: 0 <= j < i ==> !IsTerrible(mapInfo[q[j]], now)
      {
        var terrible := MayBeDeleted(mapInfo[q[i]], now);
        if terrible {
          return;
        }
        i := i + 1;
      }
    }

    /** The scan for the oldest of the picked entries. */
    method OldestOf(q: seq<int>, n: seq<int>) returns (nOldest: int)
      requires forall j :: 0 <= j < |q| ==> q[j] in mapInfo && q[j] != NONE
      requires exists k :: k in n && 0 <= k < |q|
      ensures OldestPick(mapInfo, q, n, nOldest)
    {
      nOldest := NONE;
      ghost var at := 0;
      for nI := 0 to |q|
        invariant nOldest == NONE ==> forall j :: 0 <= j < nI ==> j !in n
        invariant nOldest != NONE ==>
          0 <= at < nI && at in n && nOldest == q[at] && OldestAt(mapInfo, q, n, at, nI)
      {
        if nI in n {
          if nOldest == NONE || mapInfo[q[nI]].nTime < mapInfo[nOldest].nTime {
            nOldest, at := q[nI], nI;
          }
        }
      }
    }

    method ShrinkNew(nUBucket: nat, now: int, ghost pending: int) returns (r: int, ghost picks: seq<int>, ghost victim: int)
      requires ConsistentBut(net, nKey, T(), pending)
      requires nUBucket < NEW_BUCKET_COUNT && vvNew[nUBucket] != {} && pending !in vvNew[nUBucket]
      modifies this
      ensures ConsistentBut(net, nKey, T(), pending) && nKey == old(nKey)
      ensures old(ShrinkChoice(mapInfo, vvNew[nUBucket], now, picks, victim))
      ensures T() == Dropped(old(T()), victim, nUBucket)
      ensures r == 0 <==> exists id :: id in old(vvNew[nUBucket]) && old(IsTerrible(mapInfo[id], now))
    {
      var q := InOrder(vvNew[nUBucket]);
      assert forall j :: 0 <= j < |q| ==> q[j] in vvNew[nUBucket];
      var i := FirstTerrible(q, now);
      picks := [];
      var nGone;
      if i < |q| {
        nGone, r := q[i], 0;
      } else {
        EmptyOrInhabited(vvNew[nUBucket]);
        assert q != [];
        var n0 := GetRandInt(|q|);
        var n1 := GetRandInt(|q|);
        var n2 := GetRandInt(|q|);
        var n3 := GetRandInt(|q|);
        var n := [n0, n1, n2, n3];
        assert n[0] in n;
        nGone := OldestOf(q, n);
        picks, r := n, 1;
      }
      victim := nGone;
      ShrinkChoiceOk(mapInfo, vvNew[nUBucket], now, q, i, picks, victim);
      hide IndexOk, NewOk, TriedOk;
      DropKeeps(net, nKey, T(), victim, nUBucket, pending);
      Release(nGone, nUBucket);
    }

    /** Shuffle the first few elements of the bucket and return a position to evict. */
    method SelectTried(nKBucket: nat) returns (nOldestPos: int, ghost draws: seq<nat>)
      requires nKBucket < |vvTried| && AllIn(mapInfo, vvTried[nKBucket])
      modifies this`vvTried
      ensures DrawsOk(old(vvTried[nKBucket]), draws)
      ensures |draws| == Min(|old(vvTried[nKBucket])|, TRIED_ENTRIES_INSPECT_ON_EVICT)
      ensures var r := Inspect(mapInfo, old(vvTried[nKBucket]), draws, |draws|);
        vvTried == old(vvTried)[nKBucket := r.bucket] && nOldestPos == r.pos
    {
      var vTried;
      vTried, nOldestPos, draws := ShuffleSome(vvTried[nKBucket]);
      vvTried := vvTried[nKBucket := vTried];
    }

    method ShuffleSome(v: seq<int>) returns (vTried: seq<int>, nOldestPos: int, ghost draws: seq<nat>)
      requires AllIn(mapInfo, v)
      ensures DrawsOk(v, draws) && |draws| == Min(|v|, TRIED_ENTRIES_INSPECT_ON_EVICT)
      ensures var r := Inspect(mapInfo, v, draws, |draws|); vTried == r.bucket && nOldestPos == r.pos
    {
      assert DrawsOk(v, []);
      hide Inspect, DrawsOk;
      vTried := v;
      var nOldest := NONE;
      nOldestPos := -1;
      draws := [];
      var i := 0;
      while i < TRIED_ENTRIES_INSPECT_ON_EVICT && i < |vTried|
        invariant 0 <= i <= TRIED_ENTRIES_INSPECT_ON_EVICT && i <= |v| == |vTried|
        invariant |draws| == i && DrawsOk(v, draws)
        invariant var r := Inspect(mapInfo, v, draws, i);
          vTried == r.bucket && nOldestPos == r.pos && (i > 0 ==> nOldest == vTried[r.slot])
        decreases |v| - i
      {
        var nPos := GetRandInt(|vTried| - i);
        nPos := nPos + i;
        InspectStep(mapInfo, v, draws, nPos);
        draws := draws + [nPos];
        vTried := vTried[i := vTried[nPos]][nPos := vTried[i]];
        var nTemp := vTried[i];
        if i == 0 || mapInfo[nTemp].nLastSuccess < mapInfo[nOldest].nLastSuccess {
          nOldest, nOldestPos := nTemp, nPos;
        }
        i := i + 1;
      }
    }

    /** Move an entry from the new tables to the tried table. */
    method MakeTried(nId: int, nOrigin: nat) returns (ghost q: seq<int>, ghost pos: nat)
      requires Valid() && nOrigin < NEW_BUCKET_COUNT && nId in vvNew[nOrigin]
      modifies this
      ensures Valid() && nKey == old(nKey)
      ensures old(nId in mapInfo && !mapInfo[nId].fInTried)
      ensures MovedToTried(net, nKey, old(T()), T(), nId, nOrigin, q, pos)
    {
      ghost var t := T();
      assert RefCountOk(mapInfo, vvNew, nId, NONE);
      assert |vvNew[nOrigin]| <= NEW_BUCKET_SIZE;
      hide IndexOk, RandomOk, NewOk;
      RemoveFromNew(nId);
      nNew := nNew - 1;
      assert mapInfo[nId].nRefCount == 0;
      var nKBucket := GetTriedBucket(net, nKey, mapInfo[nId].addr);
      if |vvTried[nKBucket]| < TRIED_BUCKET_SIZE {
        vvTried := vvTried[nKBucket := vvTried[nKBucket] + [nId]];
        nTried := nTried + 1;
        mapInfo := mapInfo[nId := mapInfo[nId].(fInTried := true)];
        q, pos := [], 0;
        assert T() == Promoted(t, nId, nKBucket);
        PromotedKeeps(net, nKey, t, nId);
      } else {
        WithdrawnRoom(t.vvNew, nId, nOrigin);
        q, pos := Evict(nId, nKBucket, nOrigin, t);
      }
    }

    /** The tried bucket is full: evict one of its entries to a new bucket and put nId in its slot. */
    method Evict(nId: int, nKBucket: nat, nOrigin: nat, ghost t: Tables) returns (ghost q: seq<int>, ghost pos: nat)
      requires Consistent(net, nKey, t) && nId in t.mapInfo && !t.mapInfo[nId].fInTried
      requires T() == t.(mapInfo := SetRefs(t.mapInfo, nId, 0), vvNew := Withdrawn(t.vvNew, nId), nNew := t.nNew - 1)
      requires nKBucket == TriedBucket(net, nKey, t.mapInfo[nId].addr)
      requires |vvTried[nKBucket]| >= TRIED_BUCKET_SIZE
      requires nOrigin < NEW_BUCKET_COUNT && |Withdrawn(t.vvNew, nId)[nOrigin]| < NEW_BUCKET_SIZE
      modifies this
      ensures Valid() && nKey == old(nKey)
      ensures MovedToTried(net, nKey, t, T(), nId, nOrigin, q, pos)
    {
      TriedFacts(net, nKey, t, nKBucket);
      hide Consistent, TriedBucket, NewBucket, Withdrawn, MovedToTried, Permuted, AllTried;
      var nPos;
      ghost var d;
      nPos, q, d := FreeSlot(nKBucket, nOrigin);
      pos := nPos;
      var info := mapInfo[nId].(fInTried := true);
      assert info == AsTried(t.mapInfo[nId]);
      mapInfo := mapInfo[nId := info];
      vvTried := vvTried[nKBucket := vvTried[nKBucket][nPos := nId]];
      assert vvTried == t.vvTried[nKBucket := q[pos := nId]];
      EvictDone(net, nKey, t, T(), nId, nOrigin, q, pos, d);
    }

    /** Choose a slot of the tried bucket and send its entry back to the new table. */
    method FreeSlot(nKBucket: nat, nOrigin: nat) returns (nPos: nat, ghost q: seq<int>, ghost d: nat)
      requires nKBucket < |vvTried| && vvTried[nKBucket] != [] && AllTried(mapInfo, vvTried[nKBucket])
      requires nOrigin < NEW_BUCKET_COUNT == |vvNew|
      modifies this`vvTried, this`mapInfo, this`vvNew, this`nNew
      ensures Permuted(old(vvTried)[nKBucket], q) && vvTried == old(vvTried)[nKBucket := q]
      ensures nPos < |q| && q[nPos] in old(mapInfo) && old(mapInfo)[q[nPos]].fInTried
      ensures var home := NewBucket(net, nKey, old(mapInfo)[q[nPos]].addr.net, old(mapInfo)[q[nPos]].source);
        d == if |old(vvNew)[home]| < NEW_BUCKET_SIZE then home else nOrigin
      ensures mapInfo == old(mapInfo)[q[nPos] := AsNew(old(mapInfo)[q[nPos]])]
      ensures vvNew == old(vvNew)[d := old(vvNew)[d] + {q[nPos]}]
      ensures nNew == old(nNew) + 1
    {
      ghost var v := vvTried[nKBucket];
      var nOldestPos, draws := SelectTried(nKBucket);
      InspectStaysTried(mapInfo, v, draws, |draws|);
      nPos, q := nOldestPos, vvTried[nKBucket];
      d := FallBack(vvTried[nKBucket][nPos], nOrigin);
    }

    /** A tried entry goes back to its home bucket in the new table, or to nOrigin if that is full. */
    method FallBack(nOld: int, nOrigin: nat) returns (ghost d: nat)
      requires nOld in mapInfo && nOrigin < NEW_BUCKET_COUNT == |vvNew|
      modifies this`mapInfo, this`vvNew, this`nNew
      ensures var home := NewBucket(net, nKey, old(mapInfo)[nOld].addr.net, old(mapInfo)[nOld].source);
        d == if |old(vvNew)[home]| < NEW_BUCKET_SIZE then home else nOrigin
      ensures mapInfo == old(mapInfo)[nOld := AsNew(old(mapInfo)[nOld])]
      ensures vvNew == old(vvNew)[d := old(vvNew)[d] + {nOld}]
      ensures nNew == old(nNew) + 1
    {
      var nUBucket := GetNewBucket(net, nKey, mapInfo[nOld].addr.net, mapInfo[nOld].source);
      mapInfo := mapInfo[nOld := mapInfo[nOld].(fInTried := false, nRefCount := 1)];
      d := nUBucket;
      if |vvNew[nUBucket]| < NEW_BUCKET_SIZE {
        vvNew := vvNew[nUBucket := vvNew[nUBucket] + {nOld}];
      } else {
        d := nOrigin;
        vvNew := vvNew[nOrigin := vvNew[nOrigin] + {nOld}];
      }
      nNew := nNew + 1;
    }

    /** Remove the entry from all new buckets, counting its references down. */
    method RemoveFromNew(nId: int)
      requires nId in mapInfo
      modifies this`vvNew, this`mapInfo
      ensures vvNew == Withdrawn(old(vvNew), nId)
      ensures mapInfo == SetRefs(old(mapInfo), nId, old(mapInfo[nId].nRefCount) - RefCount(old(vvNew), nId))
    {
      ghost var vv, info := vvNew, mapInfo;
      for c := 0 to |vvNew|
        invariant |vvNew| == |vv|
        invariant forall k :: 0 <= k < |vv| ==> vvNew[k] == if k < c then vv[k] - {nId} else vv[k]
        invariant mapInfo == SetRefs(info, nId, info[nId].nRefCount - RefCount(vv[..c], nId))
      {
        assert vv[..c + 1][..c] == vv[..c];
        if nId in vvNew[c] {
          vvNew := vvNew[c := vvNew[c] - {nId}];
          mapInfo := mapInfo[nId := mapInfo[nId].(nRefCount := mapInfo[nId].nRefCount - 1)];
        }
      }
      assert vv[..|vv|] == vv;
    }

    // ---- The operations the node performs ------------------------------------------------

    /** The circular scan for a bucket holding nId, from a random start. */
    method FindBucket(nId: int, nRnd: nat) returns (nUBucket: int)
      requires |vvNew| == NEW_BUCKET_COUNT
      ensures -1 <= nUBucket < |vvNew|
      ensures nUBucket == -1 ==> forall b :: 0 <= b < |vvNew| ==> nId !in vvNew[b]
      ensures nUBucket != -1 ==> nId in vvNew[nUBucket]
    {
      nUBucket := -1;
      for n := 0 to |vvNew|
        invariant forall k :: 0 <= k < n ==> nId !in vvNew[Wrap(k, nRnd)]
      {
        var nB := Wrap(n, nRnd);
        if nId in vvNew[nB] {
          return nB;
        }
      }
      forall b | 0 <= b < |vvNew| ensures nId !in vvNew[b] {
        assert Wrap((b - nRnd) % NEW_BUCKET_COUNT, nRnd) == b;
      }
    }

    /** Put the pending reference to nId into its bucket, making room first if the bucket is full. */
    method StoreReference(nId: int, nUBucket: nat, now: int) returns (ghost picks: seq<int>, ghost victim: int)
      requires ConsistentBut(net, nKey, T(), nId) && nId in mapInfo && !mapInfo[nId].fInTried
      requires nUBucket < NEW_BUCKET_COUNT && nId !in vvNew[nUBucket]
      modifies this
      ensures Valid() && nKey == old(nKey)
      ensures StoredInto(net, nKey, old(T()), T(), nId, nUBucket, now, picks, victim)
    {
      ghost var t := T();
      assert nId != NONE && |vvNew[nUBucket]| <= NEW_BUCKET_SIZE;
      picks, victim := [], NONE;
      if |vvNew[nUBucket]| == NEW_BUCKET_SIZE {
        var r;
        r, picks, victim := ShrinkNew(nUBucket, now, nId);
        DroppedOthers(net, nKey, t, victim, nUBucket, nId);
      }
      hide ConsistentBut, ShrinkChoice, Dropped;
      StoredKeeps(net, nKey, T(), nId, nUBucket);
      vvNew := vvNew[nUBucket := vvNew[nUBucket] + {nId}];
    }

    /** Create: a new entry for an address not seen before. */
    method Create(addr: Address, source: NetAddr) returns (nId: int)
      requires addr.service.net !in mapAddr
      modifies this
      ensures nId == old(nIdCount) && nKey == old(nKey)
      ensures T() == old(T()).(
        nIdCount := nId + 1,
        mapInfo := old(mapInfo)[nId := FreshInfo(addr, source).(nRandomPos := |old(vRandom)|)],
        mapAddr := old(mapAddr)[addr.service.net := nId],
        vRandom := old(vRandom) + [nId])
    {
      nId := nIdCount;
      nIdCount := nIdCount + 1;
      mapInfo := mapInfo[nId := AddrInfo(addr.service, addr.nServices, addr.nTime, source, 0, 0, 0, 0, false, -1)];
      mapAddr := mapAddr[addr.service.net := nId];
      mapInfo := mapInfo[nId := mapInfo[nId].(nRandomPos := |vRandom|)];
      vRandom := vRandom + [nId];
    }

    /** Add_ for an address that is not in the table yet. */
    method AddNew(addr: Address, source: NetAddr, nTimePenalty: int, now: int) returns (ghost picks: seq<int>, ghost victim: int)
      requires Valid() && addr.service.net !in mapAddr
      modifies this
      ensures Valid() && nKey == old(nKey)
      ensures StoredInto(net, nKey, Created(old(T()), Penalized(addr, source, nTimePenalty)), T(), old(nIdCount),
                         NewBucket(net, nKey, addr.service.net, source), now, picks, victim)
    {
      ghost var t := T();
      var nId := Create(addr, source);
      var info := mapInfo[nId];
      info := info.(nTime := ToUint32(Max(0, info.nTime - nTimePenalty)));
      nNew := nNew + 1;
      var nUBucket := GetNewBucket(net, nKey, info.addr.net, source);
      info := info.(nRefCount := info.nRefCount + 1);
      mapInfo := mapInfo[nId := info];
      assert T() == Created(t, Penalized(addr, source, nTimePenalty));
      CreatedKeeps(net, nKey, t, Penalized(addr, source, nTimePenalty));
      CreatedNowhere(net, nKey, t, nUBucket);
      picks, victim := StoreReference(nId, nUBucket, now);
    }

    /** Add_ for an address that is already in the table. */
    method AddKnown(nId: int, addr: Address, source: NetAddr, nTimePenalty: int, now: int)
      returns (ghost stored: bool, ghost picks: seq<int>, ghost victim: int, ghost draw: nat)
      requires Valid() && nId in mapInfo
      modifies this
      ensures Valid() && nKey == old(nKey)
      ensures var i := Refreshed(old(mapInfo)[nId], addr, nTimePenalty, now);
        var t := old(T()).(mapInfo := old(mapInfo)[nId := i]);
        var b := NewBucket(net, nKey, i.addr.net, source);
        && Consistent(net, nKey, t)
        && draw < Odds(i.nRefCount)
        && (stored <==> MayGainReference(i, addr) && draw == 0 && nId !in t.vvNew[b])
        && if stored then StoredInto(net, nKey, Counted(t, nId), T(), nId, b, now, picks, victim) else T() == t
    {
      stored, picks, victim, draw := false, [], NONE, 0;
      var fGoOn := RefreshKnown(nId, addr, nTimePenalty, now);
      if !fGoOn {
        return;
      }
      var fLucky, r := StochasticTest(mapInfo[nId].nRefCount);
      draw := r;
      if fLucky {
        stored, picks, victim := GainReference(nId, source, now);
      }
    }

    /** Update time and services of a known entry; tell whether it may gain a reference. */
    method RefreshKnown(nId: int, addr: Address, nTimePenalty: int, now: int) returns (fGoOn: bool)
      requires Valid() && nId in mapInfo
      modifies this`mapInfo
      ensures Valid()
      ensures mapInfo == old(mapInfo)[nId := Refreshed(old(mapInfo)[nId], addr, nTimePenalty, now)]
      ensures fGoOn == MayGainReference(mapInfo[nId], addr)
    {
      var info := RefreshInfo(mapInfo[nId], addr, nTimePenalty, now);
      assert RefCountOk(mapInfo, vvNew, nId, NONE);
      hide ConsistentBut, Refreshed;
      StatsKeep(net, nKey, T(), nId, info, NONE);
      mapInfo := mapInfo[nId := info];
      if addr.nTime == 0 || (info.nTime != 0 && addr.nTime <= info.nTime) {
        return false;
      }
      if info.fInTried {
        return false;
      }
      return info.nRefCount != NEW_BUCKETS_PER_ADDRESS;
    }

    static method RefreshInfo(i: AddrInfo, addr: Address, nTimePenalty: int, now: int) returns (info: AddrInfo)
      ensures info == Refreshed(i, addr, nTimePenalty, now)
      ensures info == i.(nTime := info.nTime, nServices := info.nServices)
    {
      info := i;
      var fCurrentlyOnline := now - addr.nTime < 24 * 60 * 60;
      var nUpdateInterval := if fCurrentlyOnline then 60 * 60 else 24 * 60 * 60;
      if addr.nTime != 0 && (info.nTime == 0 || info.nTime < addr.nTime - nUpdateInterval - nTimePenalty) {
        info := info.(nTime := ToUint32(Max(0, addr.nTime - nTimePenalty)));
      }
      info := info.(nServices := info.nServices + addr.nServices);
    }

    /** Previous count N: the test passes for one of the 2^N possible draws. */
    static method StochasticTest(nRefCount: int) returns (fLucky: bool, draw: nat)
      ensures draw < Odds(nRefCount) && fLucky == (draw == 0)
    {
      var nFactor := 1;
      var n := 0;
      while n < nRefCount
        invariant n <= nRefCount || n == 0
        invariant nFactor == Odds(n)
      {
        nFactor := nFactor * 2;
        n := n + 1;
      }
      assert Odds(n) == Odds(nRefCount);
      draw := 0;
      if nFactor > 1 {
        draw := GetRandInt(nFactor);
      }
      fLucky := draw == 0;
    }

    /** One more reference for a known entry, unless its bucket for this source already has it. */
    method GainReference(nId: int, source: NetAddr, now: int) returns (ghost stored: bool, ghost picks: seq<int>, ghost victim: int)
      requires Valid() && nId in mapInfo && !mapInfo[nId].fInTried && mapInfo[nId].nRefCount < NEW_BUCKETS_PER_ADDRESS
      modifies this
      ensures Valid() && nKey == old(nKey)
      ensures var b := NewBucket(net, nKey, old(mapInfo)[nId].addr.net, source);
        && |old(vvNew)| == NEW_BUCKET_COUNT && stored == (nId !in old(vvNew)[b])
        && if stored then StoredInto(net, nKey, Counted(old(T()), nId), T(), nId, b, now, picks, victim) else T() == old(T())
    {
      stored, picks, victim := false, [], NONE;
      assert |vvNew| == NEW_BUCKET_COUNT;
      hide ConsistentBut, StoredInto;
      var nUBucket := GetNewBucket(net, nKey, mapInfo[nId].addr.net, source);
      if nId !in vvNew[nUBucket] {
        CountedKeeps(net, nKey, T(), nId);
        mapInfo := mapInfo[nId := mapInfo[nId].(nRefCount := mapInfo[nId].nRefCount + 1)];
        stored := true;
        picks, victim := StoreReference(nId, nUBucket, now);
      }
    }

    /** Add_: a peer announced an address. */
    method Add(addr: Address, source: NetAddr, nTimePenalty: int, now: int)
      returns (fNew: bool, ghost stored: bool, ghost picks: seq<int>, ghost victim: int)
      requires Valid()
      modifies this
      ensures Valid() && nKey == old(nKey)
      ensures fNew <==> net.routable(addr.service.net) && addr.service.net !in old(mapAddr)
      ensures Announced(net, nKey, old(T()), T(), addr, source, nTimePenalty, now, stored, picks, victim)
    {
      fNew, stored, picks, victim := false, false, [], NONE;
      if !net.routable(addr.service.net) {
        return;
      }
      var found, nId := Find(addr.service.net);
      if found {
        ghost var draw;
        stored, picks, victim, draw := AddKnown(nId, addr, source, nTimePenalty, now);
      } else {
        fNew := true;
        picks, victim := AddNew(addr, source, nTimePenalty, now);
      }
    }

    /** Good_: a successful connection moves the entry to the tried table, always. */
    method Good(addr: Service, nTime: int) returns (ghost nOrigin: nat, ghost q: seq<int>, ghost pos: nat)
      requires Valid()
      modifies this
      ensures Valid() && nKey == old(nKey)
      ensures Promotes(net, nKey, old(T()), T(), addr, nTime, nOrigin, q, pos)
    {
      nOrigin, q, pos := 0, [], 0;
      var found, nId := Find(addr.net);
      if !found {
        return;
      }
      if mapInfo[nId].addr != addr {
        return;
      }
      var info := mapInfo[nId].(nLastSuccess := nTime, nLastTry := nTime, nTime := ToUint32(nTime), nAttempts := 0);
      StatsKeep(net, nKey, T(), nId, info, NONE);
      mapInfo := mapInfo[nId := info];
      if mapInfo[nId].fInTried {
        return;
      }
      HeldSomewhere(mapInfo, vvNew, nId);
      var nRnd := GetRandInt(|vvNew|);
      var nUBucket := FindBucket(nId, nRnd);
      nOrigin := nUBucket;
      q, pos := MakeTried(nId, nUBucket);
    }

    /** Attempt_: note a connection attempt. */
    method Attempt(addr: Service, nTime: int)
      requires Valid()
      modifies this`mapInfo
      ensures Valid()
      ensures T() == Attempted(old(T()), addr, nTime)
    {
      var found, nId := Find(addr.net);
      if !found {
        return;
      }
      var info := mapInfo[nId];
      if info.addr != addr {
        return;
      }
      info := info.(nLastTry := nTime, nAttempts := info.nAttempts + 1);
      StatsKeep(net, nKey, T(), nId, info, NONE);
      mapInfo := mapInfo[nId := info];
    }

    /** Connected_: refresh the time of a connected peer, at most every 20 minutes. */
    method Connected(addr: Service, nTime: int)
      requires Valid()
      modifies this`mapInfo
      ensures Valid()
      ensures T() == Contacted(old(T()), addr, nTime)
    {
      var found, nId := Find(addr.net);
      if !found {
        return;
      }
      var info := mapInfo[nId];
      if info.addr != addr {
        return;
      }
      var nUpdateInterval := 20 * 60;
      if nTime - info.nTime > nUpdateInterval {
        info := info.(nTime := ToUint32(nTime));
        StatsKeep(net, nKey, T(), nId, info, NONE);
        mapInfo := mapInfo[nId := info];
      }
    }

    /** GetAddr_: a random selection of distinct entries from a shuffled vRandom. */
    method GetAddr() returns (vAddr: seq<AddrInfo>)
      requires Valid()
      modifies this`mapInfo, this`vRandom
      ensures Valid()
      ensures |vAddr| == Min(GETADDR_MAX_PCT * |vRandom| / 100, GETADDR_MAX)
      ensures Permuted(old(vRandom), vRandom) && SameButPos(old(mapInfo), mapInfo)
      ensures Reshuffled(old(T()), T())
      ensures AllHanded(vAddr, vRandom, mapInfo)
    {
      var nNodes := GETADDR_MAX_PCT * |vRandom| / 100;
      if nNodes > GETADDR_MAX {
        nNodes := GETADDR_MAX;
      }
      vAddr := [];
      assert Permuted(vRandom, vRandom) && SameButPos(mapInfo, mapInfo) && AllHanded(vAddr, vRandom, mapInfo);
      hide Consistent, Permuted, SameButPos, AllHanded, Swapped;
      for n := 0 to nNodes
        invariant Valid() && |vRandom| == |old(vRandom)|
        invariant Permuted(old(vRandom), vRandom) && SameButPos(old(mapInfo), mapInfo)
        invariant |vAddr| == n && AllHanded(vAddr, vRandom, mapInfo)
      {
        var info := TakeOne(n, vAddr, old(vRandom), old(mapInfo));
        vAddr := vAddr + [info];
      }
    }

    /** Swap a random later element of vRandom to position n and copy its entry. */
    method TakeOne(n: nat, ghost vAddr: seq<AddrInfo>, ghost random0: seq<int>, ghost info0: map<int, AddrInfo>)
      returns (info: AddrInfo)
      requires Valid() && |vAddr| == n < |vRandom| && AllHanded(vAddr, vRandom, mapInfo)
      requires Permuted(random0, vRandom) && SameButPos(info0, mapInfo)
      modifies this`mapInfo, this`vRandom
      ensures Valid() && |vRandom| == old(|vRandom|) && AllHanded(vAddr + [info], vRandom, mapInfo)
      ensures Permuted(random0, vRandom) && SameButPos(info0, mapInfo)
    {
      hide Consistent, Permuted, SameButPos, AllHanded, Swapped;
      var nRndPos := GetRandInt(|vRandom| - n);
      nRndPos := nRndPos + n;
      HandOut(net, nKey, T(), n, nRndPos, vAddr, random0, info0);
      SwapRandom(n, nRndPos);
      info := mapInfo[vRandom[n]];
    }
  }

  /** The k-th bucket of a circular scan that starts at bucket nRnd. */
  function Wrap(k: int, nRnd: nat): (b: nat)
    ensures b < NEW_BUCKET_COUNT
  {
    (k + nRnd) % NEW_BUCKET_COUNT
  }

  /** One round of GetAddr_'s shuffle. */
  lemma HandOut(net: Net, key: seq<Byte>, t: Tables, n: nat, p: nat, vAddr: seq<AddrInfo>, random0: seq<int>, info0: map<int, AddrInfo>)
    requires Consistent(net, key, t) && |vAddr| == n <= p < |t.vRandom|
    requires AllHanded(vAddr, t.vRandom, t.mapInfo)
    requires Permuted(random0, t.vRandom) && SameButPos(info0, t.mapInfo)
    ensures t.vRandom[n] in t.mapInfo && t.vRandom[p] in t.mapInfo
    ensures var t' := Swapped(t, n, p);
      && Consistent(net, key, t') && |t'.vRandom| == |t.vRandom| && t'.vRandom[n] in t'.mapInfo
      && Permuted(random0, t'.vRandom) && SameButPos(info0, t'.mapInfo)
      && AllHanded(vAddr + [t'.mapInfo[t'.vRandom[n]]], t'.vRandom, t'.mapInfo)
    ensures n == p ==> Swapped(t, n, p) == t
  {
    hide IndexOk, NewOk, TriedOk, RandomOk, SameButPos, Permuted, Swapped, Handed;
    ListedIn(t, n);
    ListedIn(t, p);
    SwapKeeps(net, key, t, n, p, NONE);
    SwapRandomOk(t, n, p);
    SwapPermutes(t, n, p);
    var t' := Swapped(t, n, p);
    ListedIn(t', n);
    SameTransitive(random0, t.vRandom, t'.vRandom, info0, t.mapInfo, t'.mapInfo);
    forall k | 0 <= k < n ensures Handed(vAddr[k], t'.vRandom[k], t'.mapInfo) {
      SwapElsewhere(t, n, p, k);
      HandedStays(vAddr[k], t.vRandom[k], t.mapInfo, t'.mapInfo);
    }
    HandedSelf(t'.vRandom[n], t'.mapInfo);
    SwapSame(t, n);
  }

  lemma SwapSame(t: Tables, n: nat)
    requires n < |t.vRandom| && t.vRandom[n] in t.mapInfo
    ensures Swapped(t, n, n) == t
  {
  }

  lemma ListedIn(t: Tables, k: nat)
    requires RandomOk(t.mapInfo, t.vRandom) && k < |t.vRandom|
    ensures t.vRandom[k] in t.mapInfo
  {
  }

  lemma HandedSelf(id: int, info: map<int, AddrInfo>)
    requires id in info
    ensures Handed(info[id], id, info)
  {
  }

  lemma HandedStays(a: AddrInfo, id: int, info: map<int, AddrInfo>, info': map<int, AddrInfo>)
    requires Handed(a, id, info) && SameButPos(info, info')
    ensures Handed(a, id, info')
  {
  }

  lemma SameTransitive(r0: seq<int>, r1: seq<int>, r2: seq<int>, i0: map<int, AddrInfo>, i1: map<int, AddrInfo>, i2: map<int, AddrInfo>)
    requires Permuted(r0, r1) && Permuted(r1, r2) && SameButPos(i0, i1) && SameButPos(i1, i2)
    ensures Permuted(r0, r2) && SameButPos(i0, i2)
  {
  }

  lemma SwapElsewhere(t: Tables, p: nat, q: nat, k: nat)
    requires RandomOk(t.mapInfo, t.vRandom) && p < |t.vRandom| && q < |t.vRandom|
    requires k < |t.vRandom| && k < p && k < q
    ensures Swapped(t, p, q).vRandom[k] == t.vRandom[k]
  {
  }

  /** The bucket an entry came from has room once the entry has left it. */
  lemma WithdrawnRoom(vv: seq<set<int>>, id: int, origin: nat)
    requires origin < |vv| && id in vv[origin] && |vv[origin]| <= NEW_BUCKET_SIZE
    ensures |Withdrawn(vv, id)[origin]| < NEW_BUCKET_SIZE
  {
  }

  /** An untried entry is in some new bucket. */
  lemma HeldSomewhere(info: map<int, AddrInfo>, vv: seq<set<int>>, id: int)
    requires NewOk(info, vv, NONE) && NONE !in info && id in info && !info[id].fInTried
    ensures |vv| == NEW_BUCKET_COUNT && exists b :: 0 <= b < |vv| && id in vv[b]
  {
    assert RefCountOk(info, vv, id, NONE);
    RefCountZero(vv, id);
  }

  lemma TriedFacts(net: Net, key: seq<Byte>, t: Tables, b: nat)
    requires Consistent(net, key, t) && b < TRIED_BUCKET_COUNT
    ensures |t.vvTried| == TRIED_BUCKET_COUNT && |t.vvNew| == NEW_BUCKET_COUNT
    ensures AllTried(t.mapInfo, t.vvTried[b])
  {
    forall id | id in t.vvTried[b] ensures id in t.mapInfo && t.mapInfo[id].fInTried {
    }
  }

  /** The field updates of an eviction amount to an exchange. */
  lemma EvictDone(net: Net, key: seq<Byte>, t: Tables, t': Tables, id: int, origin: nat, q: seq<int>, pos: nat, d: nat)
    requires Consistent(net, key, t) && id in t.mapInfo && !t.mapInfo[id].fInTried && origin < NEW_BUCKET_COUNT
    requires |t.vvTried[TriedBucket(net, key, t.mapInfo[id].addr)]| >= TRIED_BUCKET_SIZE
    requires Permuted(t.vvTried[TriedBucket(net, key, t.mapInfo[id].addr)], q)
    requires pos < |q| && q[pos] in t.mapInfo && q[pos] != id
    requires |Withdrawn(t.vvNew, id)[origin]| < NEW_BUCKET_SIZE
    requires var home := NewBucket(net, key, t.mapInfo[q[pos]].addr.net, t.mapInfo[q[pos]].source);
      d == if |Withdrawn(t.vvNew, id)[home]| < NEW_BUCKET_SIZE then home else origin
    requires t'.mapInfo == SetRefs(t.mapInfo, id, 0)[q[pos] := AsNew(t.mapInfo[q[pos]])][id := AsTried(t.mapInfo[id])]
    requires t' == t.(mapInfo := t'.mapInfo,
                      vvNew := Withdrawn(t.vvNew, id)[d := Withdrawn(t.vvNew, id)[d] + {q[pos]}],
                      vvTried := t.vvTried[TriedBucket(net, key, t.mapInfo[id].addr) := q[pos := id]])
    ensures Consistent(net, key, t') && MovedToTried(net, key, t, t', id, origin, q, pos)
  {
    assert t'.mapInfo == t.mapInfo[q[pos] := AsNew(t.mapInfo[q[pos]])][id := AsTried(t.mapInfo[id])];
    assert |t.vvNew| == NEW_BUCKET_COUNT;
    hide Consistent;
    ExchangedKeeps(net, key, t, id, q, pos, d);
  }

  lemma InspectStaysTried(info: map<int, AddrInfo>, v: seq<int>, draws: seq<nat>, n: nat)
    requires DrawsOk(v, draws) && n <= |draws| && AllTried(info, v)
    ensures Permuted(v, Inspect(info, v, draws, n).bucket)
    ensures AllTried(info, Inspect(info, v, draws, n).bucket)
  {
    InspectPermutes(info, v, draws, n);
    var w := Inspect(info, v, draws, n).bucket;
    SamePermutation(v, w);
    forall x | x in w ensures x in info && info[x].fInTried {
      assert x in v;
    }
  }

  lemma ShrinkChoiceOk(info: map<int, AddrInfo>, bucket: set<int>, now: int, q: seq<int>, i: nat, picks: seq<int>, victim: int)
    requires forall id :: id in bucket ==> id in info
    requires q == InOrder(bucket) && i <= |q|
    requires forall j :: 0 <= j < i ==> !IsTerrible(info[q[j]], now)
    requires if i < |q| then victim == q[i] && IsTerrible(info[q[i]], now) else |picks| == 4 && OldestPick(info, q, picks, victim)
    ensures ShrinkChoice(info, bucket, now, picks, victim)
    ensures i < |q| <==> exists id :: id in bucket && IsTerrible(info[id], now)
  {
    forall id | id in bucket && IsTerrible(info[id], now) ensures i < |q| && victim <= id {
      assert id in q;
    }
    assert victim in q;
    if i < |q| { assert q[i] in bucket; }
  }
}
