/** What the operations of the address manager do to the entries themselves: who is affected, which
    fields change and how. */
module AddrLaws {
  import opened NetTypes
  import opened AddrTables
  import opened AddrSpec
  import opened AddrRuns

  /** Everything about an entry but its reference count, its tried flag and its place in vRandom. */
  predicate SameStats(i: AddrInfo, i': AddrInfo) {
    && i'.addr == i.addr && i'.nServices == i.nServices && i'.nTime == i.nTime && i'.source == i.source
    && i'.nLastSuccess == i.nLastSuccess && i'.nLastTry == i.nLastTry && i'.nAttempts == i.nAttempts
  }

  // ----- Entries that an operation is not about -----

  /** All entries of t' but those of `ids` are entries of t with the same statistics. */
  ghost predicate OthersKept(t: Tables, t': Tables, ids: set<int>) {
    forall x :: x in t'.mapInfo && x !in ids ==> x in t.mapInfo && SameStats(t.mapInfo[x], t'.mapInfo[x])
  }

  lemma OthersTrans(t: Tables, t1: Tables, t2: Tables, ids: set<int>)
    requires OthersKept(t, t1, ids) && OthersKept(t1, t2, {})
    ensures OthersKept(t, t2, ids)
  {
  }

  lemma DroppedStats(t: Tables, victim: int, b: nat)
    requires victim in t.mapInfo && b < |t.vvNew| && RandomOk(t.mapInfo, t.vRandom)
    ensures OthersKept(t, Dropped(t, victim, b), {})
    ensures forall x :: x in t.mapInfo && x != victim ==> x in Dropped(t, victim, b).mapInfo
    ensures forall x | x in t.mapInfo && x != victim ::
      var i' := Dropped(t, victim, b).mapInfo[x];
      i'.nRefCount == t.mapInfo[x].nRefCount && i'.fInTried == t.mapInfo[x].fInTried
    ensures forall a | a in t.mapAddr && a != t.mapInfo[victim].addr.net ::
      a in Dropped(t, victim, b).mapAddr && Dropped(t, victim, b).mapAddr[a] == t.mapAddr[a]
  {
    var i, n := t.mapInfo[victim], |t.vRandom| - 1;
    if i.nRefCount == 1 {
      var t1 := t.(vvNew := t.vvNew[b := t.vvNew[b] - {victim}], mapAddr := t.mapAddr - {i.addr.net}, nNew := t.nNew - 1);
      SwappedStats(t1, i.nRandomPos, n);
      hide SameStats, Swapped;
    }
  }

  lemma SwappedStats(t: Tables, p: nat, q: nat)
    requires p < |t.vRandom| && q < |t.vRandom|
    requires t.vRandom[p] in t.mapInfo && t.vRandom[q] in t.mapInfo
    ensures var s := Swapped(t, p, q);
      && s.mapAddr == t.mapAddr && (forall x :: x in s.mapInfo <==> x in t.mapInfo)
      && (forall x :: x in t.mapInfo ==> SameStats(t.mapInfo[x], s.mapInfo[x])
                                          && s.mapInfo[x].nRefCount == t.mapInfo[x].nRefCount
                                          && s.mapInfo[x].fInTried == t.mapInfo[x].fInTried)
  {
  }

  /** Storing a reference to id, also when a full bucket loses an entry for it. */
  lemma StoredStats(net: Net, key: seq<Byte>, t: Tables, t': Tables, id: int, b: nat, now: int, picks: seq<int>, victim: int)
    requires StoredInto(net, key, t, t', id, b, now, picks, victim) && id in t.mapInfo
    ensures OthersKept(t, t', {})
    ensures id in t'.mapInfo && SameStats(t.mapInfo[id], t'.mapInfo[id])
    ensures t'.mapInfo[id].nRefCount == t.mapInfo[id].nRefCount && t'.mapInfo[id].fInTried == t.mapInfo[id].fInTried
    ensures t.mapInfo[id].addr.net in t'.mapAddr && t'.mapAddr[t.mapInfo[id].addr.net] == id
  {
    if |t.vvNew[b]| == NEW_BUCKET_SIZE {
      VictimIsOther(net, key, t, id, b, victim);
      hide ConsistentBut, ShrinkChoice, Dropped, Stored, SameStats, OthersKept, RandomOk;
      StoredForVictim(t, id, b, victim);
    } else {
      IndexedAs(net, key, t, id);
      hide ConsistentBut;
    }
  }

  lemma StoredForVictim(t: Tables, id: int, b: nat, victim: int)
    requires victim in t.mapInfo && id in t.mapInfo && victim != id && b < |t.vvNew| && RandomOk(t.mapInfo, t.vRandom)
    requires t.mapInfo[victim].addr.net != t.mapInfo[id].addr.net
    requires t.mapInfo[id].addr.net in t.mapAddr && t.mapAddr[t.mapInfo[id].addr.net] == id
    ensures |Dropped(t, victim, b).vvNew| == |t.vvNew|
    ensures var t' := Stored(Dropped(t, victim, b), id, b);
      && OthersKept(t, t', {}) && id in t'.mapInfo && SameStats(t.mapInfo[id], t'.mapInfo[id])
      && t'.mapInfo[id].nRefCount == t.mapInfo[id].nRefCount && t'.mapInfo[id].fInTried == t.mapInfo[id].fInTried
      && t.mapInfo[id].addr.net in t'.mapAddr && t'.mapAddr[t.mapInfo[id].addr.net] == id
  {
    DroppedRows(t, victim, b);
    hide Dropped, SameStats, RandomOk;
    DroppedStats(t, victim, b);
  }

  lemma DroppedRows(t: Tables, victim: int, b: nat)
    requires victim in t.mapInfo && b < |t.vvNew| && RandomOk(t.mapInfo, t.vRandom)
    ensures |Dropped(t, victim, b).vvNew| == |t.vvNew|
  {
  }

  lemma VictimIsOther(net: Net, key: seq<Byte>, t: Tables, id: int, b: nat, victim: int)
    requires ConsistentBut(net, key, t, id) && id in t.mapInfo && b < NEW_BUCKET_COUNT
    requires id !in t.vvNew[b] && victim in t.vvNew[b]
    ensures victim in t.mapInfo && victim != id && RandomOk(t.mapInfo, t.vRandom) && |t.vvNew| == NEW_BUCKET_COUNT
    ensures t.mapInfo[victim].addr.net != t.mapInfo[id].addr.net
    ensures t.mapInfo[id].addr.net in t.mapAddr && t.mapAddr[t.mapInfo[id].addr.net] == id
  {
    hide RandomOk, TriedOk, CountsOk;
  }

  lemma IndexedAs(net: Net, key: seq<Byte>, t: Tables, id: int)
    requires ConsistentBut(net, key, t, id) && id in t.mapInfo
    ensures t.mapInfo[id].addr.net in t.mapAddr && t.mapAddr[t.mapInfo[id].addr.net] == id
  {
    hide RandomOk, TriedOk, NewOk, CountsOk;
  }

  /** Whom an operation is about. */
  function Subject(t: Tables, op: Op): (ids: set<int>) {
    match op
    case AddOp(a, _, _, _, _, _, _) => {if a.service.net in t.mapAddr then t.mapAddr[a.service.net] else t.nIdCount}
    case GoodOp(addr, _, _, _, _) => if Knows(t, addr) then {t.mapAddr[addr.net]} else {}
    case AttemptOp(addr, _) => if Knows(t, addr) then {t.mapAddr[addr.net]} else {}
    case ConnectedOp(addr, _) => if Knows(t, addr) then {t.mapAddr[addr.net]} else {}
    case GetAddrOp => {}
  }

  /** No operation touches the statistics of an entry that it is not about, whether the entry stays
      where it is, is moved in vRandom, or falls back from the tried table. */
  lemma StepKeepsOthers(net: Net, key: seq<Byte>, t: Tables, op: Op, t': Tables)
    requires Consistent(net, key, t) && Step(net, key, t, op, t')
    ensures OthersKept(t, t', Subject(t, op))
  {
    hide ConsistentBut, Announced, Promotes, OthersKept;
    match op
    case AddOp(a, source, nTimePenalty, now, stored, picks, victim) =>
      AddKeepsOthers(net, key, t, op, t');
    case GoodOp(addr, nTime, nOrigin, q, pos) =>
      GoodKeepsOthers(net, key, t, op, t');
    case _ =>
      RestKeepsOthers(net, key, t, op, t');
  }

  lemma GoodKeepsOthers(net: Net, key: seq<Byte>, t: Tables, op: Op, t': Tables)
    requires op.GoodOp? && Consistent(net, key, t) && Step(net, key, t, op, t')
    ensures OthersKept(t, t', Subject(t, op))
  {
  }

  lemma RestKeepsOthers(net: Net, key: seq<Byte>, t: Tables, op: Op, t': Tables)
    requires !op.AddOp? && !op.GoodOp? && Consistent(net, key, t) && Step(net, key, t, op, t')
    ensures OthersKept(t, t', Subject(t, op))
  {
  }

  lemma AddKeepsOthers(net: Net, key: seq<Byte>, t: Tables, op: Op, t': Tables)
    requires op.AddOp? && Consistent(net, key, t) && Step(net, key, t, op, t')
    ensures OthersKept(t, t', Subject(t, op))
  {
    var AddOp(a, source, nTimePenalty, now, stored, picks, victim) := op;
    hide ConsistentBut, StoredInto, OthersKept, Penalized, Refreshed;
    var b := NewBucket(net, key, a.service.net, source);
    SelfKept(t);
    if net.routable(a.service.net) {
      if a.service.net !in t.mapAddr {
        var t1 := Created(t, Penalized(a, source, nTimePenalty));
        CreatedOthers(t, Penalized(a, source, nTimePenalty));
        StoredStats(net, key, t1, t', t.nIdCount, b, now, picks, victim);
        OthersTrans(t, t1, t', {t.nIdCount});
      } else {
        var id := t.mapAddr[a.service.net];
        var i := Refreshed(t.mapInfo[id], a, nTimePenalty, now);
        var t1 := t.(mapInfo := t.mapInfo[id := i]);
        ChangedOthers(t, id, i);
        if stored {
          ChangedOthers(t, id, i.(nRefCount := i.nRefCount + 1));
          StoredStats(net, key, Counted(t1, id), t', id, b, now, picks, victim);
          assert Counted(t1, id) == t.(mapInfo := t.mapInfo[id := i.(nRefCount := i.nRefCount + 1)]);
          OthersTrans(t, Counted(t1, id), t', {id});
        }
      }
    }
  }

  lemma SelfKept(t: Tables)
    ensures forall ids :: OthersKept(t, t, ids)
  {
  }

  lemma CreatedOthers(t: Tables, i: AddrInfo)
    ensures OthersKept(t, Created(t, i), {t.nIdCount})
  {
  }

  lemma ChangedOthers(t: Tables, id: int, i: AddrInfo)
    ensures OthersKept(t, t.(mapInfo := t.mapInfo[id := i]), {id})
  {
  }

  // ----- Add_ -----

  /** A routable address that was not there is known afterwards, with its port, and its entry has
      the announced services, the source, the announced time less the penalty, and no history. It
      does not matter whether its bucket was full. */
  lemma AddedEntry(net: Net, key: seq<Byte>, t: Tables, t': Tables, addr: Address, source: NetAddr,
                   nTimePenalty: nat, now: int, stored: bool, picks: seq<int>, victim: int)
    requires Consistent(net, key, t) && net.routable(addr.service.net) && addr.service.net !in t.mapAddr
    requires Announced(net, key, t, t', addr, source, nTimePenalty, now, stored, picks, victim)
    ensures Knows(t', addr.service)
    ensures var i := t'.mapInfo[t'.mapAddr[addr.service.net]];
      && i.addr == addr.service && i.nServices == addr.nServices && i.source == source
      && i.nTime == (if nTimePenalty <= addr.nTime then addr.nTime - nTimePenalty else 0)
      && i.nLastSuccess == 0 && i.nLastTry == 0 && i.nAttempts == 0
      && !i.fInTried && i.nRefCount == 1
  {
    hide ConsistentBut;
    var t1 := Created(t, Penalized(addr, source, nTimePenalty));
    StoredStats(net, key, t1, t', t.nIdCount, NewBucket(net, key, addr.service.net, source), now, picks, victim);
  }

  /** Announcing a known address: its services only grow, its time never goes back and is then the
      announced one less the penalty, and it has no further effect on its statistics. */
  lemma RefreshedEntry(i: AddrInfo, addr: Address, nTimePenalty: nat, now: int)
    ensures var r := Refreshed(i, addr, nTimePenalty, now);
      && (forall s :: s in r.nServices <==> s in i.nServices || s in addr.nServices)
      && (r.nTime == i.nTime || (i.nTime < r.nTime == addr.nTime - nTimePenalty) || (i.nTime == 0 == r.nTime))
      && r.addr == i.addr && r.source == i.source && r.nLastSuccess == i.nLastSuccess
      && r.nLastTry == i.nLastTry && r.nAttempts == i.nAttempts
  {
  }

  /** An hour is fresh news about a node that is online, a day about any other; older news does
      not move the time. */
  lemma RefreshedWhen(i: AddrInfo, addr: Address, nTimePenalty: nat, now: int)
    requires addr.nTime != 0 && i.nTime != 0
    ensures var r := Refreshed(i, addr, nTimePenalty, now);
      r.nTime != i.nTime <==>
        addr.nTime - nTimePenalty > i.nTime + (if addr.nTime > now - 24 * 60 * 60 then 60 * 60 else 24 * 60 * 60)
  {
  }

  /** The entry of a known address after Add_. */
  lemma AnnouncedAgain(net: Net, key: seq<Byte>, t: Tables, t': Tables, addr: Address, source: NetAddr,
                       nTimePenalty: int, now: int, stored: bool, picks: seq<int>, victim: int)
    requires Consistent(net, key, t) && net.routable(addr.service.net) && addr.service.net in t.mapAddr
    requires Announced(net, key, t, t', addr, source, nTimePenalty, now, stored, picks, victim)
    ensures var id := t.mapAddr[addr.service.net];
      id in t.mapInfo && id in t'.mapInfo
      && SameStats(Refreshed(t.mapInfo[id], addr, nTimePenalty, now), t'.mapInfo[id])
  {
    var id := t.mapAddr[addr.service.net];
    var b := NewBucket(net, key, addr.service.net, source);
    var t1 := t.(mapInfo := t.mapInfo[id := Refreshed(t.mapInfo[id], addr, nTimePenalty, now)]);
    hide ConsistentBut;
    if stored {
      StoredStats(net, key, Counted(t1, id), t', id, b, now, picks, victim);
    }
  }

  // ----- Good_, Attempt_, Connected_ -----

  /** After Good_ for a known service the entry is tried, with its attempts reset and the given time as
      last success, last try and time; its services and source stay. */
  lemma GoodEntry(net: Net, key: seq<Byte>, t: Tables, t': Tables, addr: Service, nTime: int,
                  nOrigin: nat, q: seq<int>, pos: nat)
    requires Consistent(net, key, t) && Knows(t, addr)
    requires Promotes(net, key, t, t', addr, nTime, nOrigin, q, pos)
    ensures var id := t.mapAddr[addr.net];
      && id in t'.mapInfo
      && var i, i' := t.mapInfo[id], t'.mapInfo[id];
      && i'.fInTried && i'.nAttempts == 0 && i'.nLastSuccess == i'.nLastTry == nTime
      && (0 <= nTime < 0x1_0000_0000 ==> i'.nTime == nTime)
      && i'.addr == addr && i'.nServices == i.nServices && i'.source == i.source
  {
  }

  /** Attempt_ raises the attempts by one, sets the last try, and changes nothing else. */
  lemma AttemptEntry(t: Tables, addr: Service, nTime: int)
    requires Knows(t, addr)
    ensures var id, t' := t.mapAddr[addr.net], Attempted(t, addr, nTime);
      && t' == t.(mapInfo := t'.mapInfo) && t'.mapInfo.Keys == t.mapInfo.Keys
      && (forall x :: x in t.mapInfo && x != id ==> t'.mapInfo[x] == t.mapInfo[x])
      && var i, i' := t.mapInfo[id], t'.mapInfo[id];
      && i'.nAttempts == i.nAttempts + 1 && i'.nLastTry == nTime
      && i' == i.(nAttempts := i'.nAttempts, nLastTry := i'.nLastTry)
  {
  }

  /** Connected_ only moves the time, and only when it lies more than 20 minutes back. */
  lemma ConnectedEntry(t: Tables, addr: Service, nTime: int)
    requires Knows(t, addr) && 0 <= nTime < 0x1_0000_0000
    ensures var id, t' := t.mapAddr[addr.net], Contacted(t, addr, nTime);
      && t' == t.(mapInfo := t'.mapInfo) && t'.mapInfo.Keys == t.mapInfo.Keys
      && (forall x :: x in t.mapInfo && x != id ==> t'.mapInfo[x] == t.mapInfo[x])
      && var i, i' := t.mapInfo[id], t'.mapInfo[id];
      && i' == i.(nTime := i'.nTime)
      && i'.nTime == if i.nTime + 1200 < nTime then nTime else i.nTime
  {
  }

  // ----- Which entries may be deleted -----

  /** An entry is terrible exactly if it was not tried in the last minute and its time is more than
      ten minutes ahead, missing or more than 30 days old, or it never succeeded in three attempts,
      or not for a week in ten attempts. */
  lemma TerribleIff(i: AddrInfo, now: int)
    ensures IsTerrible(i, now) <==>
      && (i.nLastTry == 0 || i.nLastTry < now - 60)
      && (|| i.nTime > now + 600 || i.nTime == 0 || i.nTime < now - 2592000
          || (i.nLastSuccess == 0 && i.nAttempts >= 3)
          || (i.nLastSuccess < now - 604800 && i.nAttempts >= 10))
  {
  }

  /** While a bucket holds an entry that may be deleted, no entry tried in the last minute leaves it. */
  lemma RecentTryIsSafe(info: map<int, AddrInfo>, bucket: set<int>, now: int, picks: seq<int>, victim: int)
    requires forall id :: id in bucket ==> id in info
    requires ShrinkChoice(info, bucket, now, picks, victim)
    requires info[victim].nLastTry != 0 && info[victim].nLastTry >= now - 60
    ensures forall id :: id in bucket ==> !IsTerrible(info[id], now)
  {
    TerribleIff(info[victim], now);
  }

  // ----- Keys -----

  /** The bytes that are hashed tell services with addresses of one length apart. */
  lemma KeysAreDistinct(a: Service, b: Service)
    requires |a.net.ip| == |b.net.ip| && a.Key() == b.Key()
    ensures a == b
  {
    var n := |a.net.ip|;
    assert a.Key()[..n] == a.net.ip && b.Key()[..n] == b.net.ip;
    assert a.Key()[n..] == [a.port / 256, a.port % 256];
    assert b.Key()[n..] == [b.port / 256, b.port % 256];
    assert a.Key()[n] == b.Key()[n] && a.Key()[n + 1] == b.Key()[n + 1];
  }
}
