/** Theorems about every sequence of address-manager operations, from the empty tables on. */
module AddrRuns {
  import opened Arithmetic
  import opened NetTypes
  import opened AddrTables
  import opened AddrSpec
  import opened AddrMan

  /** One call, with the outcomes of its random draws. */
  datatype Op =
    | AddOp(a: Address, source: NetAddr, nTimePenalty: int, now: int, stored: bool, picks: seq<int>, victim: int)
    | GoodOp(addr: Service, nTime: int, nOrigin: nat, q: seq<int>, pos: nat)
    | AttemptOp(addr: Service, nTime: int)
    | ConnectedOp(addr: Service, nTime: int)
    | GetAddrOp

  ghost predicate Step(net: Net, key: seq<Byte>, t: Tables, op: Op, t': Tables)
    requires Consistent(net, key, t)
  {
    match op
    case AddOp(a, source, nTimePenalty, now, stored, picks, victim) =>
      Announced(net, key, t, t', a, source, nTimePenalty, now, stored, picks, victim)
    case GoodOp(addr, nTime, nOrigin, q, pos) => Promotes(net, key, t, t', addr, nTime, nOrigin, q, pos)
    case AttemptOp(addr, nTime) => t' == Attempted(t, addr, nTime)
    case ConnectedOp(addr, nTime) => t' == Contacted(t, addr, nTime)
    case GetAddrOp => Reshuffled(t, t')
  }

  // ---- Every operation keeps the tables consistent ---------------------------------------

  lemma StoredIntoKeeps(net: Net, key: seq<Byte>, t: Tables, t': Tables, id: int, b: nat, now: int, picks: seq<int>, victim: int)
    requires StoredInto(net, key, t, t', id, b, now, picks, victim)
    requires id in t.mapInfo && !t.mapInfo[id].fInTried
    ensures Consistent(net, key, t')
  {
    assert |t.vvNew[b]| <= NEW_BUCKET_SIZE;
    if |t.vvNew[b]| == NEW_BUCKET_SIZE {
      DropKeeps(net, key, t, victim, b, id);
      DroppedOthers(net, key, t, victim, b, id);
      hide ConsistentBut, Dropped;
      StoredKeeps(net, key, Dropped(t, victim, b), id, b);
    } else {
      StoredKeeps(net, key, t, id, b);
    }
  }

  lemma AnnouncedKeeps(net: Net, key: seq<Byte>, t: Tables, op: Op, t': Tables)
    requires Consistent(net, key, t) && op.AddOp? && Step(net, key, t, op, t')
    ensures Consistent(net, key, t')
  {
    var addr := op.a.service.net;
    var b := NewBucket(net, key, addr, op.source);
    if net.routable(addr) {
      if addr !in t.mapAddr {
        StoredIntoKeeps(net, key, Created(t, Penalized(op.a, op.source, op.nTimePenalty)), t', t.nIdCount, b, op.now, op.picks, op.victim);
      } else {
        var id := t.mapAddr[addr];
        var i := Refreshed(t.mapInfo[id], op.a, op.nTimePenalty, op.now);
        StatsKeep(net, key, t, id, i, NONE);
        if op.stored {
          StoredIntoKeeps(net, key, Counted(t.(mapInfo := t.mapInfo[id := i]), id), t', id, b, op.now, op.picks, op.victim);
        }
      }
    }
  }

  lemma MovedKeeps(net: Net, key: seq<Byte>, t: Tables, t': Tables, id: int, origin: nat, q: seq<int>, pos: nat)
    requires Consistent(net, key, t) && id in t.mapInfo && !t.mapInfo[id].fInTried
    requires origin < NEW_BUCKET_COUNT && id in t.vvNew[origin]
    requires MovedToTried(net, key, t, t', id, origin, q, pos)
    ensures Consistent(net, key, t')
  {
    var b := TriedBucket(net, key, t.mapInfo[id].addr);
    if |t.vvTried[b]| < TRIED_BUCKET_SIZE {
      PromotedKeeps(net, key, t, id);
    } else {
      WithdrawnRoom(t.vvNew, id, origin);
      var i := t.mapInfo[q[pos]];
      var home := NewBucket(net, key, i.addr.net, i.source);
      ExchangedKeeps(net, key, t, id, q, pos, if |Withdrawn(t.vvNew, id)[home]| < NEW_BUCKET_SIZE then home else origin);
    }
  }

  lemma ReshuffledKeeps(net: Net, key: seq<Byte>, t: Tables, t': Tables)
    requires Consistent(net, key, t) && Reshuffled(t, t')
    ensures Consistent(net, key, t')
  {
    ShapeKeeps(net, key, t, t'.mapInfo, NONE);
  }

  lemma StepKeeps(net: Net, key: seq<Byte>, t: Tables, op: Op, t': Tables)
    requires Consistent(net, key, t) && Step(net, key, t, op, t')
    ensures Consistent(net, key, t')
  {
    match op
    case AddOp(_, _, _, _, _, _, _) =>
      AnnouncedKeeps(net, key, t, op, t');
    case GoodOp(addr, nTime, nOrigin, q, pos) =>
      if Knows(t, addr) {
        var id := t.mapAddr[addr.net];
        StatsKeep(net, key, t, id, AfterSuccess(t.mapInfo[id], nTime), NONE);
        if !t.mapInfo[id].fInTried {
          MovedKeeps(net, key, Marked(t, id, nTime), t', id, nOrigin, q, pos);
        }
      }
    case AttemptOp(addr, nTime) =>
      if Knows(t, addr) { StatsKeep(net, key, t, t.mapAddr[addr.net], t'.mapInfo[t.mapAddr[addr.net]], NONE); }
    case ConnectedOp(addr, nTime) =>
      if Knows(t, addr) && t' != t { StatsKeep(net, key, t, t.mapAddr[addr.net], t'.mapInfo[t.mapAddr[addr.net]], NONE); }
    case GetAddrOp =>
      ReshuffledKeeps(net, key, t, t');
  }

  /** A new manager holds nothing. */
  ghost predicate IsEmpty(t: Tables) {
    && t.nIdCount == t.nTried == t.nNew == 0
    && t.mapInfo == map[] && t.mapAddr == map[] && t.vRandom == []
    && |t.vvTried| == TRIED_BUCKET_COUNT && (forall b :: 0 <= b < |t.vvTried| ==> t.vvTried[b] == [])
    && |t.vvNew| == NEW_BUCKET_COUNT && (forall b :: 0 <= b < |t.vvNew| ==> t.vvNew[b] == {})
  }

  /** A sequence of calls on a new manager and the tables between them. */
  ghost predicate Run(net: Net, key: seq<Byte>, ts: seq<Tables>, ops: seq<Op>) {
    && |ts| == |ops| + 1
    && IsEmpty(ts[0])
    && forall i :: 0 <= i < |ops| ==> StepFrom(net, key, ts[i], ops[i], ts[i + 1])
  }

  ghost predicate StepFrom(net: Net, key: seq<Byte>, t: Tables, op: Op, t': Tables) {
    Consistent(net, key, t) ==> Step(net, key, t, op, t')
  }

  lemma {:induction false} RunStaysConsistent(net: Net, key: seq<Byte>, ts: seq<Tables>, ops: seq<Op>, n: nat)
    requires Run(net, key, ts, ops) && n <= |ops|
    ensures Consistent(net, key, ts[n])
  {
    if n == 0 {
      assert TriedIds(ts[0].mapInfo) == {} && NewIds(ts[0].mapInfo) == {};
    } else {
      RunStaysConsistent(net, key, ts, ops, n - 1);
      assert StepFrom(net, key, ts[n - 1], ops[n - 1], ts[n]);
      StepKeeps(net, key, ts[n - 1], ops[n - 1], ts[n]);
    }
  }

  // ---- The clock-dependent part of the self-check ----------------------------------------

  /** The times a caller may pass without breaking the self-check. */
  ghost predicate ClockOk(t: Tables, op: Op) {
    match op
    case GoodOp(addr, nTime, _, _, _) => !Knows(t, addr) || 0 < nTime
    case AttemptOp(addr, nTime) => !Knows(t, addr) || 0 <= nTime
    case _ => true
  }

  /** No entry of info' has times or a tried flag it did not have in info. */
  ghost predicate SameTimes(info: map<int, AddrInfo>, info': map<int, AddrInfo>) {
    forall id :: id in info' ==>
      && id in info
      && info'[id].nLastTry == info[id].nLastTry && info'[id].nLastSuccess == info[id].nLastSuccess
      && info'[id].fInTried == info[id].fInTried
  }

  lemma DroppedTimes(t: Tables, id: int, b: nat)
    requires id in t.mapInfo && b < |t.vvNew| && RandomOk(t.mapInfo, t.vRandom)
    ensures SameTimes(t.mapInfo, Dropped(t, id, b).mapInfo)
  {
    if t.mapInfo[id].nRefCount == 1 {
      var t1 := t.(mapAddr := t.mapAddr - {t.mapInfo[id].addr.net}, nNew := t.nNew - 1, vvNew := t.vvNew[b := t.vvNew[b] - {id}]);
      hide RandomOk, Swapped;
      UnlistedOk(t1, id);
      var info' := Dropped(t, id, b).mapInfo;
      forall x | x in info' ensures x in t.mapInfo - {id} {
      }
    }
  }

  lemma StoredIntoTimes(net: Net, key: seq<Byte>, t: Tables, t': Tables, id: int, b: nat, now: int, picks: seq<int>, victim: int)
    requires StoredInto(net, key, t, t', id, b, now, picks, victim)
    ensures SameTimes(t.mapInfo, t'.mapInfo)
  {
    if |t.vvNew[b]| == NEW_BUCKET_SIZE {
      DroppedTimes(t, victim, b);
    }
  }

  lemma AnnouncedTimes(net: Net, key: seq<Byte>, t: Tables, op: Op, t': Tables)
    requires Consistent(net, key, t) && op.AddOp? && Step(net, key, t, op, t') && TimesOk(t.mapInfo)
    ensures TimesOk(t'.mapInfo)
  {
    var addr := op.a.service.net;
    var b := NewBucket(net, key, addr, op.source);
    if net.routable(addr) {
      if addr !in t.mapAddr {
        var t1 := Created(t, Penalized(op.a, op.source, op.nTimePenalty));
        StoredIntoTimes(net, key, t1, t', t.nIdCount, b, op.now, op.picks, op.victim);
        assert TimesOk(t1.mapInfo);
      } else if op.stored {
        var id := t.mapAddr[addr];
        var t1 := Counted(t.(mapInfo := t.mapInfo[id := Refreshed(t.mapInfo[id], op.a, op.nTimePenalty, op.now)]), id);
        StoredIntoTimes(net, key, t1, t', id, b, op.now, op.picks, op.victim);
        assert TimesOk(t1.mapInfo);
      }
    }
  }

  /** Moving an entry to the tried table changes no times; only the moved entry becomes tried. */
  lemma MovedTimes(net: Net, key: seq<Byte>, t: Tables, t': Tables, id: int, origin: nat, q: seq<int>, pos: nat)
    requires Consistent(net, key, t) && id in t.mapInfo && !t.mapInfo[id].fInTried && origin < NEW_BUCKET_COUNT
    requires MovedToTried(net, key, t, t', id, origin, q, pos)
    ensures id in t'.mapInfo && t'.mapInfo[id].fInTried
    ensures forall x :: x in t'.mapInfo <==> x in t.mapInfo
    ensures forall x :: x in t.mapInfo ==>
      && t'.mapInfo[x].nLastTry == t.mapInfo[x].nLastTry && t'.mapInfo[x].nLastSuccess == t.mapInfo[x].nLastSuccess
      && (x != id && t'.mapInfo[x].fInTried ==> t.mapInfo[x].fInTried)
  {
    hide ConsistentBut, Permuted, Withdrawn;
  }

  /** The self-check's demands on times survive an operation exactly when the caller's clock
      value is acceptable: a matching Good_ needs a positive time, a matching Attempt_ a
      non-negative one. */
  lemma TimesSurviveIff(net: Net, key: seq<Byte>, t: Tables, op: Op, t': Tables)
    requires Consistent(net, key, t) && Step(net, key, t, op, t') && TimesOk(t.mapInfo)
    ensures TimesOk(t'.mapInfo) <==> ClockOk(t, op)
  {
    match op
    case AddOp(_, _, _, _, _, _, _) =>
      AnnouncedTimes(net, key, t, op, t');
    case GoodOp(addr, nTime, _, _, _) =>
      GoodTimes(net, key, t, op, t');
    case AttemptOp(addr, nTime) =>
      if Knows(t, addr) {
        var id := t.mapAddr[addr.net];
        assert EntryTimesOk(t'.mapInfo[id]) <==> 0 <= nTime;
      }
    case ConnectedOp(addr, nTime) =>
    case GetAddrOp =>
      assert forall id :: id in t'.mapInfo ==> EntryTimesOk(t'.mapInfo[id]) == EntryTimesOk(t.mapInfo[id]);
  }

  lemma GoodTimes(net: Net, key: seq<Byte>, t: Tables, op: Op, t': Tables)
    requires Consistent(net, key, t) && op.GoodOp? && Step(net, key, t, op, t') && TimesOk(t.mapInfo)
    ensures TimesOk(t'.mapInfo) <==> !Knows(t, op.addr) || 0 < op.nTime
  {
    if Knows(t, op.addr) {
      var id := t.mapAddr[op.addr.net];
      var t1 := Marked(t, id, op.nTime);
      if !t.mapInfo[id].fInTried {
        MovedTimes(net, key, t1, t', id, op.nOrigin, op.q, op.pos);
      }
      hide Consistent, MovedToTried, TimesOk;
      assert t'.mapInfo[id].nLastSuccess == t'.mapInfo[id].nLastTry == op.nTime;
      assert EntryTimesOk(t'.mapInfo[id]) <==> 0 < op.nTime;
      forall x | x in t'.mapInfo && x != id ensures EntryTimesOk(t'.mapInfo[x]) {
        TimesAt(t.mapInfo, x);
      }
      AllTimes(t'.mapInfo, id);
    }
  }

  lemma TimesAt(info: map<int, AddrInfo>, id: int)
    requires TimesOk(info) && id in info
    ensures EntryTimesOk(info[id])
  {
  }

  lemma AllTimes(info: map<int, AddrInfo>, id: int)
    requires id in info && forall x :: x in info && x != id ==> EntryTimesOk(info[x])
    ensures TimesOk(info) <==> EntryTimesOk(info[id])
  {
  }

  lemma {:induction false} RunTimes(net: Net, key: seq<Byte>, ts: seq<Tables>, ops: seq<Op>, n: nat)
    requires Run(net, key, ts, ops) && n <= |ops|
    requires forall i :: 0 <= i < n ==> ClockOk(ts[i], ops[i])
    ensures TimesOk(ts[n].mapInfo)
  {
    if n > 0 {
      RunTimes(net, key, ts, ops, n - 1);
      RunStaysConsistent(net, key, ts, ops, n - 1);
      assert StepFrom(net, key, ts[n - 1], ops[n - 1], ts[n]);
      TimesSurviveIff(net, key, ts[n - 1], ops[n - 1], ts[n]);
    }
  }

  // ---- What is never lost ----------------------------------------------------------------

  /** An address can only disappear through Add_, when a full bucket held its last reference. */
  lemma OnlyFullBucketsForget(net: Net, key: seq<Byte>, t: Tables, op: Op, t': Tables, a: NetAddr)
    requires Consistent(net, key, t) && Step(net, key, t, op, t') && a in t.mapAddr && a !in t'.mapAddr
    ensures op.AddOp? && t.mapAddr[a] == op.victim
    ensures var i := t.mapInfo[op.victim];
      !i.fInTried && i.nRefCount == 1 &&
      var b := NewBucket(net, key, op.a.service.net, op.source);
      op.victim in t.vvNew[b] && |t.vvNew[b]| == NEW_BUCKET_SIZE
  {
    if op.AddOp? {
      var addr := op.a.service.net;
      var b := NewBucket(net, key, addr, op.source);
      if addr !in t.mapAddr {
        var t1 := Created(t, Penalized(op.a, op.source, op.nTimePenalty));
        CreatedNowhere(net, key, t, b);
        StoredIntoForgets(net, key, t1, t', t.nIdCount, b, op.now, op.picks, op.victim, a);
      } else {
        var id := t.mapAddr[addr];
        var t1 := Counted(t.(mapInfo := t.mapInfo[id := Refreshed(t.mapInfo[id], op.a, op.nTimePenalty, op.now)]), id);
        StoredIntoForgets(net, key, t1, t', id, b, op.now, op.picks, op.victim, a);
      }
    } else {
      OthersForgetNothing(net, key, t, op, t');
    }
  }

  lemma StoredIntoForgets(net: Net, key: seq<Byte>, t: Tables, t': Tables, id: int, b: nat, now: int, picks: seq<int>, victim: int, a: NetAddr)
    requires StoredInto(net, key, t, t', id, b, now, picks, victim)
    requires a in t.mapAddr && a !in t'.mapAddr
    ensures t.mapAddr[a] == victim && victim in t.mapInfo && !t.mapInfo[victim].fInTried && t.mapInfo[victim].nRefCount == 1
    ensures victim in t.vvNew[b] && |t.vvNew[b]| == NEW_BUCKET_SIZE && victim != id
  {
    if t.mapInfo[victim].nRefCount == 1 {
      DroppedFields(t, victim, b);
    }
  }

  lemma OthersForgetNothing(net: Net, key: seq<Byte>, t: Tables, op: Op, t': Tables)
    requires Consistent(net, key, t) && Step(net, key, t, op, t') && !op.AddOp?
    ensures t'.mapAddr == t.mapAddr
  {
    hide ConsistentBut, SameButPos, RandomOk;
  }

  /** The tried table never shrinks: every bucket keeps its size or grows by one. */
  lemma TriedNeverShrinks(net: Net, key: seq<Byte>, t: Tables, op: Op, t': Tables)
    requires Consistent(net, key, t) && Step(net, key, t, op, t')
    ensures t.nTried <= t'.nTried <= t.nTried + 1
    ensures |t'.vvTried| == |t.vvTried|
    ensures forall b :: 0 <= b < |t.vvTried| ==> |t.vvTried[b]| <= |t'.vvTried[b]| <= |t.vvTried[b]| + 1
    ensures !op.GoodOp? ==> t'.vvTried == t.vvTried
  {
    if op.GoodOp? {
      PromotesGrows(net, key, t, op, t');
    } else {
      OthersKeepTried(net, key, t, op, t');
    }
  }

  lemma PromotesGrows(net: Net, key: seq<Byte>, t: Tables, op: Op, t': Tables)
    requires Consistent(net, key, t) && Step(net, key, t, op, t') && op.GoodOp?
    ensures t.nTried <= t'.nTried <= t.nTried + 1 && |t'.vvTried| == |t.vvTried|
    ensures forall b :: 0 <= b < |t.vvTried| ==> |t.vvTried[b]| <= |t'.vvTried[b]| <= |t.vvTried[b]| + 1
  {
    if Knows(t, op.addr) && t'.nTried == t.nTried && !t.mapInfo[t.mapAddr[op.addr.net]].fInTried {
      SamePermutation(t.vvTried[TriedBucket(net, key, op.addr)], op.q);
    }
  }

  lemma OthersKeepTried(net: Net, key: seq<Byte>, t: Tables, op: Op, t': Tables)
    requires Consistent(net, key, t) && Step(net, key, t, op, t') && !op.GoodOp?
    ensures t'.vvTried == t.vvTried && t'.nTried == t.nTried
  {
    assert forall a :: a in t.mapAddr ==> t.mapAddr[a] in t.mapInfo;
    hide ConsistentBut, SameButPos, RandomOk, StoredInto;
    if op.AddOp? && net.routable(op.a.service.net) {
      var addr := op.a.service.net;
      var b := NewBucket(net, key, addr, op.source);
      if addr !in t.mapAddr {
        StoredIntoKeepsTried(net, key, Created(t, Penalized(op.a, op.source, op.nTimePenalty)), t', t.nIdCount, b, op.now, op.picks, op.victim);
      } else if op.stored {
        var id := t.mapAddr[addr];
        var t1 := Counted(t.(mapInfo := t.mapInfo[id := Refreshed(t.mapInfo[id], op.a, op.nTimePenalty, op.now)]), id);
        StoredIntoKeepsTried(net, key, t1, t', id, b, op.now, op.picks, op.victim);
      }
    }
  }

  lemma StoredIntoKeepsTried(net: Net, key: seq<Byte>, t: Tables, t': Tables, id: int, b: nat, now: int, picks: seq<int>, victim: int)
    requires StoredInto(net, key, t, t', id, b, now, picks, victim)
    ensures t'.vvTried == t.vvTried && t'.nTried == t.nTried
  {
    if |t.vvNew[b]| == NEW_BUCKET_SIZE && t.mapInfo[victim].nRefCount == 1 {
      DroppedFields(t, victim, b);
    }
  }

  /** A matching Good_ always ends with the entry in the tried table, in the bucket of its
      address; no address is lost, and at most one other entry falls back to the new table. */
  lemma GoodAlwaysPromotes(net: Net, key: seq<Byte>, t: Tables, op: Op, t': Tables)
    requires Consistent(net, key, t) && op.GoodOp? && Step(net, key, t, op, t') && Knows(t, op.addr)
    ensures var id := t.mapAddr[op.addr.net];
      && t'.mapAddr == t.mapAddr
      && t'.mapInfo[id].fInTried && id in t'.vvTried[TriedBucket(net, key, op.addr)]
      && |TriedIds(t.mapInfo) - TriedIds(t'.mapInfo)| <= 1
    ensures t.nTried + t.nNew == t'.nTried + t'.nNew
  {
    StepKeeps(net, key, t, op, t');
    hide ConsistentBut;
    var id := t.mapAddr[op.addr.net];
    if t.mapInfo[id].fInTried {
      SameFlags(t.mapInfo, t'.mapInfo);
      assert TriedIds(t.mapInfo) - TriedIds(t'.mapInfo) == {};
    } else {
      var t1 := Marked(t, id, op.nTime);
      MovedDemotesOne(net, key, t1, t', id, op.nOrigin, op.q, op.pos);
      SameFlags(t.mapInfo, t1.mapInfo);
    }
    TriedAt(net, key, t', id);
  }

  lemma TriedAt(net: Net, key: seq<Byte>, t: Tables, id: int)
    requires Consistent(net, key, t) && id in t.mapInfo && t.mapInfo[id].fInTried
    ensures |t.vvTried| == TRIED_BUCKET_COUNT && id in t.vvTried[TriedBucket(net, key, t.mapInfo[id].addr)]
  {
  }

  lemma MovedDemotesOne(net: Net, key: seq<Byte>, t: Tables, t': Tables, id: int, origin: nat, q: seq<int>, pos: nat)
    requires Consistent(net, key, t) && id in t.mapInfo && !t.mapInfo[id].fInTried && origin < NEW_BUCKET_COUNT
    requires MovedToTried(net, key, t, t', id, origin, q, pos)
    ensures t'.mapAddr == t.mapAddr && t'.nTried + t'.nNew == t.nTried + t.nNew
    ensures id in t'.mapInfo && t'.mapInfo[id].fInTried && t'.mapInfo[id].addr == t.mapInfo[id].addr
    ensures |TriedIds(t.mapInfo) - TriedIds(t'.mapInfo)| <= 1
  {
    assert |t.vvTried| == TRIED_BUCKET_COUNT;
    hide ConsistentBut, Permuted, Withdrawn, TriedBucket, NewBucket, AsNew, AsTried;
    if |t.vvTried[TriedBucket(net, key, t.mapInfo[id].addr)]| < TRIED_BUCKET_SIZE {
      PromotedDemotesNone(t.mapInfo, id);
    } else {
      ExchangedDemotesOne(t.mapInfo, id, q[pos]);
    }
  }

  lemma PromotedDemotesNone(info: map<int, AddrInfo>, id: int)
    requires id in info
    ensures var info' := info[id := AsTried(info[id])];
      |TriedIds(info) - TriedIds(info')| <= 1 && info'[id].fInTried && info'[id].addr == info[id].addr
  {
    assert TriedIds(info) - TriedIds(info[id := AsTried(info[id])]) == {};
  }

  lemma ExchangedDemotesOne(info: map<int, AddrInfo>, id: int, e: int)
    requires id in info && e in info
    ensures var info' := info[e := AsNew(info[e])][id := AsTried(info[id])];
      |TriedIds(info) - TriedIds(info')| <= 1 && info'[id].fInTried && info'[id].addr == info[id].addr
  {
    var info' := info[e := AsNew(info[e])][id := AsTried(info[id])];
    var out := TriedIds(info) - TriedIds(info');
    assert out <= {e};
    SubsetCard(out, {e});
  }
}
