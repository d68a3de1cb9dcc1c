/** What the operations of the address manager do to its tables. Random draws are arguments, so
    each relation describes every outcome the random source allows. */
module AddrSpec {
  import opened NetTypes
  import opened AddrTables
  import opened Ascending

  /** The entry ShrinkNew picks among the positions `picks` of the ordered bucket `q`: the first
      of those with the smallest nTime. */
  ghost predicate OldestPick(info: map<int, AddrInfo>, q: seq<int>, picks: seq<int>, victim: int)
    requires forall i :: 0 <= i < |q| ==> q[i] in info
  {
    exists k :: 0 <= k < |q| && k in picks && victim == q[k] && OldestAt(info, q, picks, k, |q|)
  }

  /** Among the picked positions below n, position k is the first with the smallest nTime. */
  ghost predicate OldestAt(info: map<int, AddrInfo>, q: seq<int>, picks: seq<int>, k: nat, n: nat)
    requires k < |q| && n <= |q| && forall i :: 0 <= i < |q| ==> q[i] in info
  {
    && (forall j :: 0 <= j < n && j in picks ==> info[q[k]].nTime <= info[q[j]].nTime)
    && (forall j :: 0 <= j < n && j < k && j in picks ==> info[q[k]].nTime < info[q[j]].nTime)
  }

  /** Which entry leaves a full bucket: the first terrible one, otherwise the oldest of four
      random picks. */
  ghost predicate ShrinkChoice(info: map<int, AddrInfo>, bucket: set<int>, now: int, picks: seq<int>, victim: int)
    requires forall id :: id in bucket ==> id in info
  {
    && victim in bucket
    && if exists id :: id in bucket && IsTerrible(info[id], now)
       then IsTerrible(info[victim], now) &&
            forall id :: id in bucket && IsTerrible(info[id], now) ==> victim <= id
       else |picks| == 4 && OldestPick(info, InOrder(bucket), picks, victim)
  }

  /** How MakeTried moves id out of the new table. */
  ghost predicate MovedToTried(net: Net, key: seq<Byte>, t: Tables, t': Tables, id: int, origin: nat, q: seq<int>, pos: nat)
    requires Consistent(net, key, t) && id in t.mapInfo && !t.mapInfo[id].fInTried && origin < NEW_BUCKET_COUNT
  {
    var b := TriedBucket(net, key, t.mapInfo[id].addr);
    if |t.vvTried[b]| < TRIED_BUCKET_SIZE then t' == Promoted(t, id, b)
    else
      && Permuted(t.vvTried[b], q)
      && pos < |q| && q[pos] in t.mapInfo
      && var old_ := t.mapInfo[q[pos]];
         var home := NewBucket(net, key, old_.addr.net, old_.source);
         var d := if |Withdrawn(t.vvNew, id)[home]| < NEW_BUCKET_SIZE then home else origin;
         t' == Exchanged(t, id, b, q, pos, d)
  }

  // ---- Add_ ------------------------------------------------------------------------------

  /** The record of a new address, its time reduced by the penalty. */
  function Penalized(addr: Address, source: NetAddr, nTimePenalty: int): (r: AddrInfo) {
    FreshInfo(addr, source).(nTime := ToUint32(Max(0, addr.nTime - nTimePenalty)))
  }

  /** The record of a known address after it was announced again. */
  function Refreshed(i: AddrInfo, addr: Address, nTimePenalty: int, now: int): (r: AddrInfo) {
    var interval := if now - addr.nTime < 86400 then 3600 else 86400;
    var stale := addr.nTime != 0 && (i.nTime == 0 || i.nTime < addr.nTime - interval - nTimePenalty);
    i.(nTime := if stale then ToUint32(Max(0, addr.nTime - nTimePenalty)) else i.nTime,
       nServices := i.nServices + addr.nServices)
  }

  /** Only fresher news about an untried entry below the reference limit can add a reference. */
  predicate MayGainReference(i: AddrInfo, addr: Address) {
    addr.nTime != 0 && (i.nTime == 0 || i.nTime < addr.nTime) && !i.fInTried && i.nRefCount < NEW_BUCKETS_PER_ADDRESS
  }

  /** t' holds the pending reference to id in bucket b; exactly a full bucket loses an entry for it. */
  ghost predicate StoredInto(net: Net, key: seq<Byte>, t: Tables, t': Tables, id: int, b: nat, now: int, picks: seq<int>, victim: int)
  {
    && ConsistentBut(net, key, t, id) && b < NEW_BUCKET_COUNT && id !in t.vvNew[b]
    && if |t.vvNew[b]| == NEW_BUCKET_SIZE
       then ShrinkChoice(t.mapInfo, t.vvNew[b], now, picks, victim) && t' == Stored(Dropped(t, victim, b), id, b)
       else t' == Stored(t, id, b)
  }

  /** What Add_ does to the tables. */
  ghost predicate Announced(net: Net, key: seq<Byte>, t: Tables, t': Tables, addr: Address, source: NetAddr,
                            nTimePenalty: int, now: int, stored: bool, picks: seq<int>, victim: int)
    requires Consistent(net, key, t)
  {
    var b := NewBucket(net, key, addr.service.net, source);
    if !net.routable(addr.service.net) then t' == t
    else if addr.service.net !in t.mapAddr then
      StoredInto(net, key, Created(t, Penalized(addr, source, nTimePenalty)), t', t.nIdCount, b, now, picks, victim)
    else
      var id := t.mapAddr[addr.service.net];
      var i := Refreshed(t.mapInfo[id], addr, nTimePenalty, now);
      var t1 := t.(mapInfo := t.mapInfo[id := i]);
      if stored then
        MayGainReference(i, addr) && id !in t1.vvNew[b] && StoredInto(net, key, Counted(t1, id), t', id, b, now, picks, victim)
      else t' == t1
  }

  // ---- Good_, Attempt_, Connected_, GetAddr_ -----------------------------------------------

  /** The table has an entry for exactly this address and port. */
  predicate Knows(t: Tables, addr: Service) {
    && addr.net in t.mapAddr
    && t.mapAddr[addr.net] in t.mapInfo
    && t.mapInfo[t.mapAddr[addr.net]].addr == addr
  }

  /** What a peer is told about an entry: all but its position in vRandom. */
  ghost predicate Handed(a: AddrInfo, id: int, info: map<int, AddrInfo>) {
    id in info && a == info[id].(nRandomPos := a.nRandomPos)
  }

  function AfterSuccess(i: AddrInfo, nTime: int): (r: AddrInfo) {
    i.(nLastSuccess := nTime, nLastTry := nTime, nTime := ToUint32(nTime), nAttempts := 0)
  }

  /** The tables after Good_ updated the statistics of id. */
  function Marked(t: Tables, id: int, nTime: int): (r: Tables)
    requires id in t.mapInfo
  {
    t.(mapInfo := t.mapInfo[id := AfterSuccess(t.mapInfo[id], nTime)])
  }

  /** Good_: nothing for an unknown service, new statistics for a tried entry, and for any other
      entry the move to the tried table, which always happens. */
  ghost predicate Promotes(net: Net, key: seq<Byte>, t: Tables, t': Tables, addr: Service, nTime: int,
                           nOrigin: nat, q: seq<int>, pos: nat)
  {
    if !Knows(t, addr) then t' == t
    else
      var id := t.mapAddr[addr.net];
      var t1 := Marked(t, id, nTime);
      if t.mapInfo[id].fInTried then t' == t1
      else
        && Consistent(net, key, t1) && nOrigin < NEW_BUCKET_COUNT && id in t.vvNew[nOrigin]
        && MovedToTried(net, key, t1, t', id, nOrigin, q, pos)
  }

  /** Attempt_ */
  function Attempted(t: Tables, addr: Service, nTime: int): (r: Tables) {
    if !Knows(t, addr) then t else
      var id := t.mapAddr[addr.net];
      var i := t.mapInfo[id];
      t.(mapInfo := t.mapInfo[id := i.(nLastTry := nTime, nAttempts := i.nAttempts + 1)])
  }

  /** Connected_ */
  function Contacted(t: Tables, addr: Service, nTime: int): (r: Tables) {
    if !Knows(t, addr) then t else
      var id := t.mapAddr[addr.net];
      var i := t.mapInfo[id];
      if nTime - i.nTime > 20 * 60 then t.(mapInfo := t.mapInfo[id := i.(nTime := ToUint32(nTime))]) else t
  }

  /** The n-th entry handed out is the one at position n of vRandom. */
  ghost predicate AllHanded(vAddr: seq<AddrInfo>, random: seq<int>, info: map<int, AddrInfo>) {
    |vAddr| <= |random| && forall n :: 0 <= n < |vAddr| ==> Handed(vAddr[n], random[n], info)
  }

  /** GetAddr_: only positions in vRandom change. */
  ghost predicate Reshuffled(t: Tables, t': Tables) {
    && t' == t.(mapInfo := t'.mapInfo, vRandom := t'.vRandom)
    && Permuted(t.vRandom, t'.vRandom)
    && SameButPos(t.mapInfo, t'.mapInfo)
    && RandomOk(t'.mapInfo, t'.vRandom)
  }

  ghost predicate AllTried(info: map<int, AddrInfo>, v: seq<int>) {
    forall k :: 0 <= k < |v| ==> v[k] in info && info[v[k]].fInTried
  }
}
