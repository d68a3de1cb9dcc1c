/** The serializer of `CAddrMan`: the dump drops most tables and renumbers ids; reading it back
    rebuilds them. */
module AddrDisk {
  import opened NetTypes
  import opened Ascending
  import opened AddrTables
  import opened AddrMan

  /** What is written, in order; the stream's encoding is not modelled. */
  datatype Dump = Dump(
    nKey: seq<Byte>,
    news: seq<AddrInfo>,
    trieds: seq<AddrInfo>,
    buckets: seq<seq<int>>)

  /** The fields of an entry that survive on disk. */
  function OnDisk(i: AddrInfo): (r: AddrInfo) {
    i.(nLastTry := 0, nRefCount := 0, fInTried := false, nRandomPos := -1)
  }

  /** The fields that a dump carries: address with port, time and services, source, last success and
      attempts. The last try is lost. */
  predicate Survives(i': AddrInfo, i: AddrInfo) {
    && i'.addr == i.addr && i'.nServices == i.nServices && i'.nTime == i.nTime
    && i'.source == i.source && i'.nLastSuccess == i.nLastSuccess && i'.nAttempts == i.nAttempts
    && i'.nLastTry == 0
  }

  // ---- Writing ---------------------------------------------------------------------------

  /** The ids with references, in the order of q. */
  function NewOf(info: map<int, AddrInfo>, q: seq<int>): (r: seq<int>)
    requires forall k :: 0 <= k < |q| ==> q[k] in info
    ensures forall k :: 0 <= k < |r| ==> r[k] in info
  {
    if q == [] then [] else
      var n := |q| - 1;
      NewOf(info, q[..n]) + if info[q[n]].nRefCount != 0 then [q[n]] else []
  }

  /** The tried ids, in the order of q. */
  function TriedOf(info: map<int, AddrInfo>, q: seq<int>): (r: seq<int>)
    requires forall k :: 0 <= k < |q| ==> q[k] in info
    ensures forall k :: 0 <= k < |r| ==> r[k] in info
  {
    if q == [] then [] else
      var n := |q| - 1;
      TriedOf(info, q[..n]) + if info[q[n]].fInTried then [q[n]] else []
  }

  function Records(info: map<int, AddrInfo>, q: seq<int>): (r: seq<AddrInfo>)
    requires forall k :: 0 <= k < |q| ==> q[k] in info
    ensures |r| == |q| && forall k :: 0 <= k < |q| ==> r[k] == OnDisk(info[q[k]])
  {
    seq(|q|, k requires 0 <= k < |q| => OnDisk(info[q[k]]))
  }

  /** Where id stands in q. */
  function PosIn(q: seq<int>, id: int): (p: nat)
    requires id in q
    ensures p < |q| && q[p] == id
  {
    if q[|q| - 1] == id then |q| - 1 else PosIn(q[..|q| - 1], id)
  }

  function Positions(q: seq<int>, ids: seq<int>): (r: seq<int>)
    requires forall k :: 0 <= k < |ids| ==> ids[k] in q
    ensures |r| == |ids| && forall k :: 0 <= k < |ids| ==> r[k] == PosIn(q, ids[k])
  {
    seq(|ids|, k requires 0 <= k < |ids| => PosIn(q, ids[k]))
  }

  /** The bucket rows: for each bucket the new numbers of its ids, in iteration order. */
  ghost function RowsOf(q: seq<int>, vv: seq<set<int>>): (r: seq<seq<int>>)
    requires forall b, id :: 0 <= b < |vv| && id in vv[b] ==> id in q
    ensures |r| == |vv| && forall b :: 0 <= b < |vv| ==> r[b] == Row(q, vv[b])
  {
    seq(|vv|, b requires 0 <= b < |vv| => Row(q, vv[b]))
  }

  ghost function Row(q: seq<int>, s: set<int>): (r: seq<int>)
    requires forall id :: id in s ==> id in q
  {
    assert forall k :: 0 <= k < |InOrder(s)| ==> InOrder(s)[k] in s;
    Positions(q, InOrder(s))
  }

  ghost function AllIds(info: map<int, AddrInfo>): (q: seq<int>)
    ensures forall k :: 0 <= k < |q| ==> q[k] in info
    ensures forall id :: id in info ==> id in q
    ensures Distinct(q)
  {
    var q := InOrder(info.Keys);
    assert forall k :: 0 <= k < |q| ==> q[k] in info.Keys;
    q
  }

  lemma {:induction false} NewOfHas(info: map<int, AddrInfo>, q: seq<int>)
    requires forall k :: 0 <= k < |q| ==> q[k] in info
    ensures forall id :: id in NewOf(info, q) <==> id in q && info[id].nRefCount != 0
    ensures Distinct(q) ==> Distinct(NewOf(info, q))
  {
    if q != [] {
      var n := |q| - 1;
      NewOfHas(info, q[..n]);
      assert q == q[..n] + [q[n]];
      if Distinct(q) { assert q[n] !in q[..n]; }
    }
  }

  lemma {:induction false} TriedOfHas(info: map<int, AddrInfo>, q: seq<int>)
    requires forall k :: 0 <= k < |q| ==> q[k] in info
    ensures forall id :: id in TriedOf(info, q) <==> id in q && info[id].fInTried
    ensures Distinct(q) ==> Distinct(TriedOf(info, q))
  {
    if q != [] {
      var n := |q| - 1;
      TriedOfHas(info, q[..n]);
      assert q == q[..n] + [q[n]];
      if Distinct(q) { assert q[n] !in q[..n]; }
    }
  }

  ghost predicate Lists(info: map<int, AddrInfo>, N: seq<int>, R: seq<int>) {
    && Distinct(N) && Distinct(R)
    && (forall id :: id in N <==> id in info && !info[id].fInTried)
    && (forall id :: id in R <==> id in info && info[id].fInTried)
  }

  ghost function NewIdList(info: map<int, AddrInfo>): (r: seq<int>)
    ensures forall k :: 0 <= k < |r| ==> r[k] in info
  {
    NewOf(info, AllIds(info))
  }

  ghost function TriedIdList(info: map<int, AddrInfo>): (r: seq<int>)
    ensures forall k :: 0 <= k < |r| ==> r[k] in info
  {
    TriedOf(info, AllIds(info))
  }

  lemma ListsOf(net: Net, key: seq<Byte>, t: Tables)
    requires Consistent(net, key, t)
    ensures Lists(t.mapInfo, NewIdList(t.mapInfo), TriedIdList(t.mapInfo))
    ensures |NewIdList(t.mapInfo)| == t.nNew && |TriedIdList(t.mapInfo)| == t.nTried
    ensures forall b, id :: 0 <= b < |t.vvNew| && id in t.vvNew[b] ==> id in NewIdList(t.mapInfo)
  {
    hide IndexOk, RandomOk, NewOk, TriedOk, AllIds, NewOf, TriedOf;
    var q := AllIds(t.mapInfo);
    RefsTellNew(t.mapInfo, t.vvNew);
    NewOfHas(t.mapInfo, q);
    TriedOfHas(t.mapInfo, q);
    ListCard(NewIdList(t.mapInfo), NewIds(t.mapInfo));
    ListCard(TriedIdList(t.mapInfo), TriedIds(t.mapInfo));
  }

  lemma RefsTellNew(info: map<int, AddrInfo>, vv: seq<set<int>>)
    requires NewOk(info, vv, NONE) && NONE !in info
    ensures forall id :: id in info ==> (info[id].nRefCount != 0 <==> !info[id].fInTried)
    ensures forall b, id :: 0 <= b < |vv| && id in vv[b] ==> id in info && !info[id].fInTried
  {
    forall id | id in info ensures info[id].nRefCount != 0 <==> !info[id].fInTried {
      assert RefCountOk(info, vv, id, NONE);
    }
  }

  lemma {:induction false} ListCard(q: seq<int>, s: set<int>)
    requires Distinct(q) && forall x :: x in q <==> x in s
    ensures |q| == |s|
  {
    if q == [] {
      assert forall x :: x in s ==> x in q;
      assert s == {};
    } else {
      var n := |q| - 1;
      assert q == q[..n] + [q[n]];
      assert q[n] in q && q[n] !in q[..n];
      ListCard(q[..n], s - {q[n]});
    }
  }

  /** Every id in a new bucket has a number in the dump. */
  ghost predicate HeldListed(info: map<int, AddrInfo>, vv: seq<set<int>>) {
    forall b, id :: 0 <= b < |vv| && id in vv[b] ==> id in NewIdList(info)
  }

  /** The dump of the tables. */
  ghost function DumpOf(key: seq<Byte>, t: Tables): (r: Dump)
    requires HeldListed(t.mapInfo, t.vvNew)
  {
    var N, R := NewIdList(t.mapInfo), TriedIdList(t.mapInfo);
    Dump(key, Records(t.mapInfo, N), Records(t.mapInfo, R), RowsOf(N, t.vvNew))
  }

  lemma {:induction false} NewOfPrefix(info: map<int, AddrInfo>, q: seq<int>, k: nat)
    requires k <= |q| && forall j :: 0 <= j < |q| ==> q[j] in info
    ensures NewOf(info, q[..k]) <= NewOf(info, q)
    decreases |q|
  {
    if k < |q| {
      var n := |q| - 1;
      NewOfPrefix(info, q[..n], k);
      assert q[..n][..k] == q[..k];
    } else {
      assert q[..k] == q;
    }
  }

  lemma {:induction false} TriedOfPrefix(info: map<int, AddrInfo>, q: seq<int>, k: nat)
    requires k <= |q| && forall j :: 0 <= j < |q| ==> q[j] in info
    ensures TriedOf(info, q[..k]) <= TriedOf(info, q)
    decreases |q|
  {
    if k < |q| {
      var n := |q| - 1;
      TriedOfPrefix(info, q[..n], k);
      assert q[..n][..k] == q[..k];
    } else {
      assert q[..k] == q;
    }
  }

  /** `Serialize`. */
  method Write(m: CAddrMan) returns (d: Dump)
    requires m.Valid()
    ensures HeldListed(m.mapInfo, m.vvNew) && d == DumpOf(m.nKey, m.T())
    ensures |d.news| == m.nNew && forall k :: 0 <= k < |d.news| ==> Survives(d.news[k], m.mapInfo[NewIdList(m.mapInfo)[k]])
    ensures |d.trieds| == m.nTried
    ensures forall k :: 0 <= k < |d.trieds| ==> Survives(d.trieds[k], m.mapInfo[TriedIdList(m.mapInfo)[k]])
  {
    ListsOf(m.net, m.nKey, m.T());
    assert HeldListed(m.mapInfo, m.vvNew);
    hide ConsistentBut, AllIds, Lists, Survives, OnDisk;
    var q := InOrder(m.mapInfo.Keys);
    assert q == AllIds(m.mapInfo) by { AllIdsInOrder(m.mapInfo); }
    var news, mapUnkIds := WriteNews(m.mapInfo, m.nNew, q);
    var trieds := WriteTrieds(m.mapInfo, m.nTried, q);
    var buckets := WriteBuckets(m.vvNew, mapUnkIds, NewIdList(m.mapInfo));
    d := Dump(m.nKey, news, trieds, buckets);
    hide Survives, OnDisk, Records;
    RecordsSurvive(m.mapInfo, NewIdList(m.mapInfo));
    RecordsSurvive(m.mapInfo, TriedIdList(m.mapInfo));
  }

  lemma RecordsSurvive(info: map<int, AddrInfo>, q: seq<int>)
    requires forall k :: 0 <= k < |q| ==> q[k] in info
    ensures forall k :: 0 <= k < |q| ==> Survives(Records(info, q)[k], info[q[k]])
  {
  }

  lemma AllIdsInOrder(info: map<int, AddrInfo>)
    ensures AllIds(info) == InOrder(info.Keys)
  {
  }

  /** mapUnkIds holds the position of every id of q. */
  ghost predicate Numbered(mapUnkIds: map<int, int>, q: seq<int>) {
    forall id :: id in q ==> id in mapUnkIds && mapUnkIds[id] == PosIn(q, id)
  }

  lemma NumberedUpdate(mapUnkIds: map<int, int>, q: seq<int>, id: int, n: int)
    requires Numbered(mapUnkIds, q) && id !in q
    ensures Numbered(mapUnkIds[id := n], q)
  {
  }

  lemma NumberedStep(mapUnkIds: map<int, int>, q: seq<int>, id: int)
    requires Numbered(mapUnkIds, q) && id in mapUnkIds && mapUnkIds[id] == |q|
    requires id !in q
    ensures Numbered(mapUnkIds, q + [id])
  {
    assert (q + [id])[..|q|] == q;
  }

  /** One entry of the writing loop. */
  lemma NewOfStep(info: map<int, AddrInfo>, q: seq<int>, k: nat)
    requires k < |q| && Distinct(q) && forall j :: 0 <= j < |q| ==> q[j] in info
    ensures NewOf(info, q[..k + 1]) == NewOf(info, q[..k]) + if info[q[k]].nRefCount != 0 then [q[k]] else []
    ensures q[k] !in NewOf(info, q[..k])
  {
    assert q[..k + 1][..k] == q[..k];
    NewOfHas(info, q[..k]);
    assert q[k] !in q[..k];
  }

  /** Once as many ids were seen as there are, all were seen. */
  lemma NewOfDone(info: map<int, AddrInfo>, q: seq<int>, k: nat)
    requires k <= |q| && forall j :: 0 <= j < |q| ==> q[j] in info
    requires k == |q| || |NewOf(info, q[..k])| == |NewOf(info, q)|
    ensures NewOf(info, q[..k]) == NewOf(info, q)
  {
    NewOfPrefix(info, q, k);
    assert q[..|q|] == q;
  }

  method WriteNews(mapInfo: map<int, AddrInfo>, nNew: int, q: seq<int>) returns (news: seq<AddrInfo>, mapUnkIds: map<int, int>)
    requires forall k :: 0 <= k < |q| ==> q[k] in mapInfo
    requires |NewOf(mapInfo, q)| == nNew && Distinct(q)
    ensures news == Records(mapInfo, NewOf(mapInfo, q))
    ensures Numbered(mapUnkIds, NewOf(mapInfo, q))
  {
    news, mapUnkIds := [], map[];
    var nIds, k := 0, 0;
    ghost var seen := [];
    assert Numbered(mapUnkIds, seen) && seen == NewOf(mapInfo, q[..0]);
    hide Numbered, OnDisk, NewOf, Distinct;
    while k < |q| && nIds != nNew
      invariant 0 <= k <= |q| && seen == NewOf(mapInfo, q[..k]) && nIds == |seen|
      invariant news == Records(mapInfo, seen)
      invariant Numbered(mapUnkIds, seen)
      decreases |q| - k
    {
      var info := mapInfo[q[k]];
      NewOfStep(mapInfo, q, k);
      NumberedUpdate(mapUnkIds, seen, q[k], nIds);
      mapUnkIds := mapUnkIds[q[k] := nIds];
      if info.nRefCount != 0 {
        news := news + [OnDisk(info)];
        NumberedStep(mapUnkIds, seen, q[k]);
        nIds := nIds + 1;
        seen := seen + [q[k]];
      }
      k := k + 1;
    }
    NewOfDone(mapInfo, q, k);
  }

  method WriteTrieds(mapInfo: map<int, AddrInfo>, nTried: int, q: seq<int>) returns (trieds: seq<AddrInfo>)
    requires forall k :: 0 <= k < |q| ==> q[k] in mapInfo
    requires |TriedOf(mapInfo, q)| == nTried
    ensures trieds == Records(mapInfo, TriedOf(mapInfo, q))
  {
    trieds := [];
    var nIds, k := 0, 0;
    ghost var seen := [];
    while k < |q| && nIds != nTried
      invariant 0 <= k <= |q| && seen == TriedOf(mapInfo, q[..k]) && nIds == |seen|
      invariant trieds == Records(mapInfo, seen)
      decreases |q| - k
    {
      var info := mapInfo[q[k]];
      assert q[..k + 1][..k] == q[..k];
      if info.fInTried {
        trieds := trieds + [OnDisk(info)];
        nIds := nIds + 1;
        seen := seen + [q[k]];
      }
      k := k + 1;
    }
    TriedOfPrefix(mapInfo, q, k);
    assert q[..|q|] == q;
    assert seen == TriedOf(mapInfo, q);
  }

  method WriteRow(vNew: set<int>, mapUnkIds: map<int, int>, ghost N: seq<int>) returns (row: seq<int>)
    requires forall id :: id in vNew ==> id in N
    requires Numbered(mapUnkIds, N)
    ensures row == Row(N, vNew)
  {
    row := [];
    var q := InOrder(vNew);
    assert forall i :: 0 <= i < |q| ==> q[i] in vNew;
    for i := 0 to |q|
      invariant |row| == i && forall k :: 0 <= k < i ==> row[k] == PosIn(N, q[k])
    {
      row := row + [mapUnkIds[q[i]]];
    }
  }

  method WriteBuckets(vv: seq<set<int>>, mapUnkIds: map<int, int>, ghost N: seq<int>) returns (buckets: seq<seq<int>>)
    requires forall b, id :: 0 <= b < |vv| && id in vv[b] ==> id in N
    requires Numbered(mapUnkIds, N)
    ensures buckets == RowsOf(N, vv)
  {
    buckets := [];
    hide Row, Numbered;
    for b := 0 to |vv|
      invariant |buckets| == b && forall c :: 0 <= c < b ==> buckets[c] == Row(N, vv[c])
    {
      var row := WriteRow(vv[b], mapUnkIds, N);
      buckets := buckets + [row];
    }
  }

  // ---- Reading ---------------------------------------------------------------------------

  /** `CAddrInfo()` */
  function DefaultInfo(): (r: AddrInfo) {
    var none := NetAddr(seq(16, _ => 0));
    AddrInfo(Service(none, 0), {0}, 100000000, none, 0, 0, 0, 0, false, -1)
  }

  /** All tables cleared; the counters come from the dump. */
  function Cleared(d: Dump): (r: Tables) {
    Tables(0, map[], map[], [], |d.trieds|, seq(TRIED_BUCKET_COUNT, _ => []), |d.news|, seq(NEW_BUCKET_COUNT, _ => {}))
  }

  /** One new entry: if the dump has another number of buckets it goes to its default bucket. */
  function PutNew(net: Net, d: Dump, t: Tables, n: nat): (r: Tables)
    requires n < |d.news| && |t.vvNew| == NEW_BUCKET_COUNT
  {
    var i := OnDisk(d.news[n]).(nRandomPos := |t.vRandom|);
    var t1 := t.(mapAddr := t.mapAddr[i.addr.net := n], vRandom := t.vRandom + [n]);
    if |d.buckets| != NEW_BUCKET_COUNT then
      var b := NewBucket(net, d.nKey, i.addr.net, i.source);
      t1.(vvNew := t.vvNew[b := t.vvNew[b] + {n}], mapInfo := t.mapInfo[n := i.(nRefCount := 1)])
    else t1.(mapInfo := t.mapInfo[n := i])
  }

  function LoadedNew(net: Net, d: Dump, n: nat): (t: Tables)
    requires n <= |d.news|
    ensures |t.vvNew| == NEW_BUCKET_COUNT && |t.vvTried| == TRIED_BUCKET_COUNT
  {
    if n == 0 then Cleared(d) else PutNew(net, d, LoadedNew(net, d, n - 1), n - 1)
  }

  /** One tried entry: kept if its bucket has room, lost otherwise. */
  function PutTried(net: Net, d: Dump, t: Tables, n: nat): (r: Tables)
    requires n < |d.trieds| && |t.vvTried| == TRIED_BUCKET_COUNT
  {
    var i := OnDisk(d.trieds[n]);
    var b := TriedBucket(net, d.nKey, i.addr);
    if |t.vvTried[b]| < TRIED_BUCKET_SIZE then
      var id := t.nIdCount;
      t.(nIdCount := id + 1,
         mapInfo := t.mapInfo[id := i.(nRandomPos := |t.vRandom|, fInTried := true)],
         mapAddr := t.mapAddr[i.addr.net := id],
         vRandom := t.vRandom + [id],
         vvTried := t.vvTried[b := t.vvTried[b] + [id]])
    else t.(nTried := t.nTried - 1)
  }

  function LoadedTried(net: Net, d: Dump, n: nat): (t: Tables)
    requires n <= |d.trieds|
    ensures |t.vvNew| == NEW_BUCKET_COUNT && |t.vvTried| == TRIED_BUCKET_COUNT
  {
    if n == 0 then LoadedNew(net, d, |d.news|).(nIdCount := |d.news|)
    else PutTried(net, d, LoadedTried(net, d, n - 1), n - 1)
  }

  /** One bucket element: operator[] creates a default entry for an unknown index. */
  function PutRef(d: Dump, t: Tables, b: nat, nIndex: int): (r: Tables)
    requires |d.buckets| == NEW_BUCKET_COUNT ==> b < |t.vvNew|
  {
    var i := if nIndex in t.mapInfo then t.mapInfo[nIndex] else DefaultInfo();
    if |d.buckets| == NEW_BUCKET_COUNT && i.nRefCount < NEW_BUCKETS_PER_ADDRESS then
      t.(mapInfo := t.mapInfo[nIndex := i.(nRefCount := i.nRefCount + 1)],
         vvNew := t.vvNew[b := t.vvNew[b] + {nIndex}])
    else t.(mapInfo := t.mapInfo[nIndex := i])
  }

  /** All of the first b buckets and the first k elements of bucket b. */
  function LoadedRefs(net: Net, d: Dump, b: nat, k: nat): (t: Tables)
    requires b <= |d.buckets| && k <= if b < |d.buckets| then |d.buckets[b]| else 0
    ensures |t.vvNew| == NEW_BUCKET_COUNT && |t.vvTried| == TRIED_BUCKET_COUNT
    decreases b, k
  {
    if k > 0 then PutRef(d, LoadedRefs(net, d, b, k - 1), b, d.buckets[b][k - 1])
    else if b > 0 then LoadedRefs(net, d, b - 1, |d.buckets[b - 1]|)
    else LoadedTried(net, d, |d.trieds|)
  }

  function Loaded(net: Net, d: Dump): (r: Tables)
  {
    LoadedRefs(net, d, |d.buckets|, 0)
  }

  /** The counter that Read adjusts at the end takes no part in placing an entry. */
  lemma TriedShift(net: Net, d: Dump, t: Tables, n: nat, c: int)
    requires n < |d.trieds| && |t.vvTried| == TRIED_BUCKET_COUNT
    ensures var lost := if |t.vvTried[TriedBucket(net, d.nKey, d.trieds[n].addr)]| < TRIED_BUCKET_SIZE then 0 else 1;
      PutTried(net, d, t.(nTried := t.nTried - c), n) == PutTried(net, d, t, n).(nTried := t.nTried - c - lost)
  {
  }

  /** `Unserialize`: replaces all tables by those of the dump. */
  method Read(m: CAddrMan, d: Dump)
    modifies m
    ensures m.nKey == d.nKey && m.T() == Loaded(m.net, d)
  {
    Clear(m, d);
    hide PutNew, Cleared;
    for n := 0 to |d.news|
      invariant m.nKey == d.nKey && m.T() == LoadedNew(m.net, d, n)
    {
      ReadNew(m, d, n);
    }
    m.nIdCount := |d.news|;
    ReadTrieds(m, d);
    ReadBuckets(m, d);
  }

  method Clear(m: CAddrMan, d: Dump)
    modifies m
    ensures m.nKey == d.nKey && m.T() == Cleared(d)
  {
    m.nKey := d.nKey;
    m.nIdCount, m.nTried, m.nNew := 0, |d.trieds|, |d.news|;
    m.mapInfo, m.mapAddr, m.vRandom := map[], map[], [];
    m.vvTried := seq(TRIED_BUCKET_COUNT, _ => []);
    m.vvNew := seq(NEW_BUCKET_COUNT, _ => {});
  }

  method ReadTrieds(m: CAddrMan, d: Dump)
    requires m.nKey == d.nKey && m.T() == LoadedTried(m.net, d, 0)
    modifies m
    ensures m.nKey == d.nKey && m.T() == LoadedTried(m.net, d, |d.trieds|)
  {
    hide PutTried, TriedBucket;
    var nLost := 0;
    for n := 0 to |d.trieds|
      invariant nLost >= 0 && m.nKey == d.nKey
      invariant m.T().(nTried := m.nTried - nLost) == LoadedTried(m.net, d, n)
    {
      TriedShift(m.net, d, m.T(), n, nLost);
      var fKept := ReadTried(m, d, n);
      if !fKept {
        nLost := nLost + 1;
      }
    }
    m.nTried := m.nTried - nLost;
  }

  method ReadBuckets(m: CAddrMan, d: Dump)
    requires m.nKey == d.nKey && m.T() == LoadedTried(m.net, d, |d.trieds|)
    modifies m
    ensures m.nKey == d.nKey && m.T() == Loaded(m.net, d)
  {
    hide PutRef;
    for b := 0 to |d.buckets|
      invariant m.nKey == d.nKey && m.T() == LoadedRefs(m.net, d, b, 0)
    {
      for k := 0 to |d.buckets[b]|
        invariant m.nKey == d.nKey && m.T() == LoadedRefs(m.net, d, b, k)
      {
        ReadRef(m, d, b, d.buckets[b][k]);
      }
    }
  }

  method ReadNew(m: CAddrMan, d: Dump, n: nat)
    requires n < |d.news| && |m.vvNew| == NEW_BUCKET_COUNT && m.nKey == d.nKey
    modifies m
    ensures m.nKey == d.nKey && m.T() == PutNew(m.net, d, old(m.T()), n)
  {
    var info := OnDisk(d.news[n]);
    m.mapAddr := m.mapAddr[info.addr.net := n];
    info := info.(nRandomPos := |m.vRandom|);
    m.vRandom := m.vRandom + [n];
    if |d.buckets| != NEW_BUCKET_COUNT {
      var b := GetNewBucket(m.net, m.nKey, info.addr.net, info.source);
      m.vvNew := m.vvNew[b := m.vvNew[b] + {n}];
      info := info.(nRefCount := info.nRefCount + 1);
    }
    m.mapInfo := m.mapInfo[n := info];
  }

  method ReadTried(m: CAddrMan, d: Dump, n: nat) returns (fKept: bool)
    requires n < |d.trieds| && |m.vvTried| == TRIED_BUCKET_COUNT && m.nKey == d.nKey
    modifies m
    ensures m.nKey == d.nKey && m.nTried == old(m.nTried)
    ensures fKept == (|old(m.vvTried)[TriedBucket(m.net, d.nKey, d.trieds[n].addr)]| < TRIED_BUCKET_SIZE)
    ensures m.T() == PutTried(m.net, d, old(m.T()), n).(nTried := old(m.nTried))
  {
    var info := OnDisk(d.trieds[n]);
    var b := GetTriedBucket(m.net, m.nKey, info.addr);
    fKept := |m.vvTried[b]| < TRIED_BUCKET_SIZE;
    if fKept {
      info := info.(nRandomPos := |m.vRandom|, fInTried := true);
      m.vRandom := m.vRandom + [m.nIdCount];
      m.mapInfo := m.mapInfo[m.nIdCount := info];
      m.mapAddr := m.mapAddr[info.addr.net := m.nIdCount];
      m.vvTried := m.vvTried[b := m.vvTried[b] + [m.nIdCount]];
      m.nIdCount := m.nIdCount + 1;
    }
  }

  method ReadRef(m: CAddrMan, d: Dump, b: nat, nIndex: int)
    requires |d.buckets| == NEW_BUCKET_COUNT ==> b < |m.vvNew|
    modifies m
    ensures m.nKey == old(m.nKey) && m.T() == PutRef(d, old(m.T()), b, nIndex)
  {
    if nIndex !in m.mapInfo {
      m.mapInfo := m.mapInfo[nIndex := DefaultInfo()];
    }
    var info := m.mapInfo[nIndex];
    if |d.buckets| == NEW_BUCKET_COUNT && info.nRefCount < NEW_BUCKETS_PER_ADDRESS {
      m.mapInfo := m.mapInfo[nIndex := info.(nRefCount := info.nRefCount + 1)];
      m.vvNew := m.vvNew[b := m.vvNew[b] + {nIndex}];
    }
  }
}
