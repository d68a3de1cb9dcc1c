/** Writing consistent tables and reading the dump back: the result is consistent and the same
    table up to a renumbering of ids. */
module AddrRoundTrip {
  import opened NetTypes
  import opened Ascending
  import opened AddrTables
  import opened AddrBounds
  import opened AddrDisk

  /** t' is t with old id L[j] renamed to j: the same entries, memberships and counts. */
  ghost predicate Renumbered(t: Tables, t': Tables, L: seq<int>) {
    && Distinct(L) && (forall id :: id in L <==> id in t.mapInfo)
    && (forall j :: j in t'.mapInfo <==> 0 <= j < |L|)
    && (forall j :: 0 <= j < |L| ==>
          && Survives(t'.mapInfo[j], t.mapInfo[L[j]])
          && t'.mapInfo[j].fInTried == t.mapInfo[L[j]].fInTried
          && t'.mapInfo[j].nRefCount == t.mapInfo[L[j]].nRefCount)
    && |t'.vvNew| == |t.vvNew|
    && (forall b, j :: 0 <= b < |t.vvNew| && 0 <= j < |L| ==> (j in t'.vvNew[b] <==> L[j] in t.vvNew[b]))
    && |t'.vvTried| == |t.vvTried|
    && (forall b, j :: 0 <= b < |t.vvTried| && 0 <= j < |L| ==> (j in t'.vvTried[b] <==> L[j] in t.vvTried[b]))
    && t'.nNew == t.nNew && t'.nTried == t.nTried
    && t'.mapAddr.Keys == t.mapAddr.Keys
  }

  // ---- Entries ---------------------------------------------------------------------------

  /** Ids 0 to |L|-1 hold the entries L names; those from n on are tried. */
  ghost predicate Placed(t1: Tables, info: map<int, AddrInfo>, L: seq<int>, n: nat) {
    && (forall j :: j in t1.mapInfo <==> 0 <= j < |L|)
    && (forall j :: 0 <= j < |L| ==> L[j] in info && PlacedEntry(t1.mapInfo[j], info[L[j]], j, n))
    && |t1.vRandom| == |L| && (forall j :: 0 <= j < |L| ==> t1.vRandom[j] == j)
    && IndexOk(t1.mapInfo, t1.mapAddr)
  }

  predicate PlacedEntry(i': AddrInfo, i: AddrInfo, j: int, n: nat) {
    i' == OnDisk(i).(nRandomPos := j, fInTried := j >= n, nRefCount := i'.nRefCount)
  }

  lemma PlacedMore(t1: Tables, t2: Tables, info: map<int, AddrInfo>, byAddr: map<NetAddr, int>, L: seq<int>, id: int, n: nat)
    requires Placed(t1, info, L, n) && IndexOk(info, byAddr)
    requires id in info && id !in L
    requires t2.mapInfo == t1.mapInfo[|L| := OnDisk(info[id]).(nRandomPos := |L|, fInTried := |L| >= n)]
    requires t2.mapAddr == t1.mapAddr[info[id].addr.net := |L|]
    requires t2.vRandom == t1.vRandom + [|L|]
    ensures Placed(t2, info, L + [id], n)
  {
    forall j | 0 <= j < |L| ensures info[L[j]].addr.net != info[id].addr.net {
      assert L[j] in L && L[j] != id && L[j] in info;
      assert byAddr[info[L[j]].addr.net] == L[j] && byAddr[info[id].addr.net] == id;
    }
    assert forall j :: j in t2.mapInfo <==> 0 <= j < |L| + 1;
    forall a | a in t2.mapAddr
      ensures t2.mapAddr[a] in t2.mapInfo && t2.mapInfo[t2.mapAddr[a]].addr.net == a
    {
      if a != info[id].addr.net {
        assert t1.mapAddr[a] in t1.mapInfo;
        assert t2.mapAddr[a] < |L|;
      }
    }
    forall j | j in t2.mapInfo
      ensures t2.mapInfo[j].addr.net in t2.mapAddr && t2.mapAddr[t2.mapInfo[j].addr.net] == j
    {
      if j < |L| {
        assert t2.mapInfo[j] == t1.mapInfo[j];
        assert PlacedEntry(t1.mapInfo[j], info[L[j]], j, n);
      }
    }
  }

  lemma PlacedRandom(t1: Tables, info: map<int, AddrInfo>, L: seq<int>, n: nat)
    requires Placed(t1, info, L, n)
    ensures RandomOk(t1.mapInfo, t1.vRandom)
  {
  }

  // ---- Stage 1: the new entries ----------------------------------------------------------

  ghost predicate NoneHeld(t1: Tables) {
    && (forall b :: 0 <= b < |t1.vvNew| ==> t1.vvNew[b] == {})
    && (forall j :: j in t1.mapInfo ==> t1.mapInfo[j].nRefCount == 0)
  }

  lemma {:induction false} NewStage(net: Net, d: Dump, info: map<int, AddrInfo>, byAddr: map<NetAddr, int>, N: seq<int>, k: nat)
    requires IndexOk(info, byAddr) && Distinct(N) && (forall j :: 0 <= j < |N| ==> N[j] in info)
    requires d.news == Records(info, N) && |d.buckets| == NEW_BUCKET_COUNT && k <= |N|
    ensures var t1 := LoadedNew(net, d, k);
      && Placed(t1, info, N[..k], |N|) && NoneHeld(t1)
      && t1.nNew == |N| && t1.nTried == |d.trieds|
      && forall b :: 0 <= b < |t1.vvTried| ==> t1.vvTried[b] == []
  {
    if k > 0 {
      NewStage(net, d, info, byAddr, N, k - 1);
      var t1, t2 := LoadedNew(net, d, k - 1), LoadedNew(net, d, k);
      assert N[k - 1] !in N[..k - 1];
      PlacedMore(t1, t2, info, byAddr, N[..k - 1], N[k - 1], |N|);
      assert N[..k] == N[..k - 1] + [N[k - 1]];
    }
  }

  // ---- Stage 2: the tried entries --------------------------------------------------------

  /** Injective renaming cannot enlarge a set. */
  lemma {:induction false} RenamedCard(s': set<int>, s: set<int>, L: seq<int>, n: int)
    requires Distinct(L) && forall j :: j in s' ==> n <= j < n + |L| && L[j - n] in s
    ensures |s'| <= |s|
  {
    if s' != {} {
      EmptyOrInhabited(s');
      var j :| j in s';
      forall i | i in s' - {j} ensures n <= i < n + |L| && L[i - n] in s - {L[j - n]} {
        assert i in s';
      }
      RenamedCard(s' - {j}, s - {L[j - n]}, L, n);
    }
  }

  /** The tried buckets hold the new numbers of the first m tried entries. */
  ghost predicate TriedPlaced(net: Net, key: seq<Byte>, vv: seq<seq<int>>, info: map<int, AddrInfo>, R: seq<int>, n: nat, m: nat)
    requires m <= |R| && forall j :: 0 <= j < |R| ==> R[j] in info
  {
    && |vv| == TRIED_BUCKET_COUNT
    && (forall b :: 0 <= b < |vv| ==> Distinct(vv[b]))
    && (forall b, x :: 0 <= b < |vv| ==>
          (x in vv[b] <==> n <= x < n + m && TriedBucket(net, key, info[R[x - n]].addr) == b))
  }

  /** No bucket is full before its last entry arrives, as the entries all come from one bucket. */
  lemma TriedFits(net: Net, key: seq<Byte>, t: Tables, vv: seq<seq<int>>, R: seq<int>, n: nat, m: nat)
    requires Consistent(net, key, t) && Distinct(R) && m < |R|
    requires forall j :: 0 <= j < |R| ==> R[j] in t.mapInfo && t.mapInfo[R[j]].fInTried
    requires TriedPlaced(net, key, vv, t.mapInfo, R, n, m)
    ensures |vv[TriedBucket(net, key, t.mapInfo[R[m]].addr)]| < TRIED_BUCKET_SIZE
  {
    var b := TriedBucket(net, key, t.mapInfo[R[m]].addr);
    var full := Elements(t.vvTried[b]);
    var here := Elements(vv[b]);
    hide IndexOk, RandomOk, NewOk;
    forall x | x in here ensures n <= x < n + |R| && R[x - n] in full - {R[m]} {
      assert x in vv[b];
      assert R[x - n] in t.vvTried[b];
    }
    RenamedCard(here, full - {R[m]}, R, n);
    ElementsCard(vv[b]);
    ElementsCard(t.vvTried[b]);
    assert R[m] in t.vvTried[b];
  }

  lemma TriedPlacedMore(net: Net, key: seq<Byte>, vv: seq<seq<int>>, info: map<int, AddrInfo>, R: seq<int>, n: nat, m: nat)
    requires m < |R| && forall j :: 0 <= j < |R| ==> R[j] in info
    requires TriedPlaced(net, key, vv, info, R, n, m)
    ensures var b := TriedBucket(net, key, info[R[m]].addr);
      TriedPlaced(net, key, vv[b := vv[b] + [n + m]], info, R, n, m + 1)
  {
    var b := TriedBucket(net, key, info[R[m]].addr);
    assert n + m !in vv[b];
  }

  ghost predicate TriedLoaded(net: Net, d: Dump, t: Tables, N: seq<int>, R: seq<int>, m: nat, t1: Tables)
    requires m <= |R| && forall j :: 0 <= j < |R| ==> R[j] in t.mapInfo
  {
    && Placed(t1, t.mapInfo, N + R[..m], |N|) && NoneHeld(t1)
    && t1.nNew == |N| && t1.nTried == |R| && t1.nIdCount == |N| + m
    && TriedPlaced(net, d.nKey, t1.vvTried, t.mapInfo, R, |N|, m)
  }

  lemma TriedStep(net: Net, d: Dump, t: Tables, N: seq<int>, R: seq<int>, m: nat, t1: Tables)
    requires Consistent(net, d.nKey, t) && DumpLists(d, t, N, R) && m < |R| == |d.trieds|
    requires forall j :: 0 <= j < |R| ==> R[j] in t.mapInfo
    requires TriedLoaded(net, d, t, N, R, m, t1)
    ensures TriedLoaded(net, d, t, N, R, m + 1, PutTried(net, d, t1, m))
  {
    TriedFits(net, d.nKey, t, t1.vvTried, R, |N|, m);
    NotYet(t.mapInfo, N, R, m);
    hide ConsistentBut, TriedPlaced, Placed, Lists, IndexOk;
    var t2 := PutTried(net, d, t1, m);
    TriedPlacedMore(net, d.nKey, t1.vvTried, t.mapInfo, R, |N|, m);
    PlacedLength(t1, t.mapInfo, N + R[..m], |N|);
    PlacedMore(t1, t2, t.mapInfo, t.mapAddr, N + R[..m], R[m], |N|);
    assert N + R[..m + 1] == N + R[..m] + [R[m]];
  }

  lemma PlacedLength(t1: Tables, info: map<int, AddrInfo>, L: seq<int>, n: nat)
    requires Placed(t1, info, L, n)
    ensures |t1.vRandom| == |L|
  {
  }

  lemma IndexOf(net: Net, key: seq<Byte>, t: Tables)
    requires Consistent(net, key, t)
    ensures IndexOk(t.mapInfo, t.mapAddr)
  {
  }

  lemma TriedBase(net: Net, d: Dump, t: Tables, N: seq<int>, R: seq<int>, t1: Tables)
    requires forall j :: 0 <= j < |R| ==> R[j] in t.mapInfo
    requires Placed(t1, t.mapInfo, N[..|N|], |N|) && NoneHeld(t1) && t1.nNew == |N| && t1.nTried == |R|
    requires |t1.vvTried| == TRIED_BUCKET_COUNT && forall b :: 0 <= b < |t1.vvTried| ==> t1.vvTried[b] == []
    ensures TriedLoaded(net, d, t, N, R, 0, t1.(nIdCount := |N|))
  {
    assert N[..|N|] == N && N + R[..0] == N;
  }

  /** The dump lists the entries of t in the order of N and R. */
  ghost predicate DumpLists(d: Dump, t: Tables, N: seq<int>, R: seq<int>) {
    && Lists(t.mapInfo, N, R)
    && (forall j :: 0 <= j < |N| ==> N[j] in t.mapInfo)
    && (forall j :: 0 <= j < |R| ==> R[j] in t.mapInfo && t.mapInfo[R[j]].fInTried)
    && d.news == Records(t.mapInfo, N) && d.trieds == Records(t.mapInfo, R) && |d.buckets| == NEW_BUCKET_COUNT
  }

  lemma FirstStage(net: Net, d: Dump, t: Tables, N: seq<int>, R: seq<int>)
    requires Consistent(net, d.nKey, t) && DumpLists(d, t, N, R)
    requires forall j :: 0 <= j < |R| ==> R[j] in t.mapInfo
    ensures TriedLoaded(net, d, t, N, R, 0, LoadedNew(net, d, |d.news|).(nIdCount := |d.news|))
  {
    IndexOf(net, d.nKey, t);
    hide ConsistentBut, Placed, NoneHeld, PutNew, IndexOk, TriedLoaded, LoadedNew, OnDisk;
    NewStage(net, d, t.mapInfo, t.mapAddr, N, |N|);
    TriedBase(net, d, t, N, R, LoadedNew(net, d, |N|));
  }

  lemma {:induction false} TriedStage(net: Net, d: Dump, t: Tables, N: seq<int>, R: seq<int>, m: nat)
    requires Consistent(net, d.nKey, t) && DumpLists(d, t, N, R) && m <= |R| == |d.trieds|
    requires forall j :: 0 <= j < |R| ==> R[j] in t.mapInfo
    ensures TriedLoaded(net, d, t, N, R, m, LoadedTried(net, d, m))
  {
    hide ConsistentBut, DumpLists, TriedLoaded, PutTried, LoadedNew;
    if m == 0 {
      FirstStage(net, d, t, N, R);
    } else {
      TriedStage(net, d, t, N, R, m - 1);
      TriedStep(net, d, t, N, R, m - 1, LoadedTried(net, d, m - 1));
    }
  }

  lemma NotYet(info: map<int, AddrInfo>, N: seq<int>, R: seq<int>, m: nat)
    requires Lists(info, N, R) && m < |R|
    ensures R[m] !in N + R[..m]
  {
    var id := R[m];
    assert id in R;
    assert info[id].fInTried;
    assert id !in N;
    assert id !in R[..m];
  }

  // ---- Stage 3: the bucket rows ----------------------------------------------------------

  /** The new buckets hold the new numbers of the references read so far: all of buckets below b
      and the ids `more` of bucket b; the counts agree. */
  ghost predicate RefsPlaced(t1: Tables, vv: seq<set<int>>, N: seq<int>, b: nat, more: seq<int>)
    requires b <= |vv|
  {
    && |t1.vvNew| == |vv|
    && (forall c, x :: 0 <= c < |vv| ==>
          (x in t1.vvNew[c] <==> RefSeen(vv, N, b, more, c, x)))
    && (forall x :: 0 <= x < |N| ==> x in t1.mapInfo && t1.mapInfo[x].nRefCount == RefCount(vv[..b], N[x]) + if N[x] in more then 1 else 0)
    && (forall x :: x in t1.mapInfo && |N| <= x ==> t1.mapInfo[x].nRefCount == 0)
  }

  /** Whether the reference of new id x in bucket c was among those read so far. */
  ghost predicate RefSeen(vv: seq<set<int>>, N: seq<int>, b: nat, more: seq<int>, c: nat, x: int)
    requires c < |vv|
  {
    0 <= x < |N| && ((c < b && N[x] in vv[c]) || (c == b && N[x] in more))
  }

  /** Only reference counts and new buckets differ. */
  ghost predicate SameButRefs(t1: Tables, t2: Tables) {
    && t2 == t1.(mapInfo := t2.mapInfo, vvNew := t2.vvNew)
    && (forall x :: x in t2.mapInfo <==> x in t1.mapInfo)
    && (forall x :: x in t1.mapInfo ==> t2.mapInfo[x] == t1.mapInfo[x].(nRefCount := t2.mapInfo[x].nRefCount))
  }

  lemma {:induction false} RefCountUpTo(vv: seq<set<int>>, b: nat, id: int)
    requires b < |vv| && id in vv[b]
    ensures RefCount(vv[..b], id) < RefCount(vv, id)
  {
    var n := |vv| - 1;
    if b < n {
      RefCountUpTo(vv[..n], b, id);
      assert vv[..n][..b] == vv[..b];
    }
  }

  /** Reading one reference: the cap of four is never in the way. */
  lemma RefPlacedMore(d: Dump, t1: Tables, vv: seq<set<int>>, N: seq<int>, b: nat, more: seq<int>, id: int)
    requires |d.buckets| == NEW_BUCKET_COUNT && b < |vv| && Distinct(N)
    requires RefsPlaced(t1, vv, N, b, more) && id in vv[b] && id in N && id !in more
    requires RefCount(vv, id) <= NEW_BUCKETS_PER_ADDRESS
    ensures RefsPlaced(PutRef(d, t1, b, PosIn(N, id)), vv, N, b, more + [id])
    ensures SameButRefs(t1, PutRef(d, t1, b, PosIn(N, id)))
  {
    var p := PosIn(N, id);
    RefCountUpTo(vv, b, id);
    var t2 := PutRef(d, t1, b, p);
    assert t2.mapInfo == t1.mapInfo[p := t1.mapInfo[p].(nRefCount := t1.mapInfo[p].nRefCount + 1)];
    assert forall x :: 0 <= x < |N| && N[x] == id ==> x == p;
  }

  lemma SameButRefsTrans(t1: Tables, t2: Tables, t3: Tables)
    requires SameButRefs(t1, t2) && SameButRefs(t2, t3)
    ensures SameButRefs(t1, t3)
  {
  }

  lemma RefsNextBucket(t1: Tables, vv: seq<set<int>>, N: seq<int>, b: nat, more: seq<int>)
    requires b < |vv| && RefsPlaced(t1, vv, N, b, more) && forall x :: x in more <==> x in vv[b]
    ensures RefsPlaced(t1, vv, N, b + 1, [])
  {
    assert vv[..b + 1][..b] == vv[..b];
  }

  ghost predicate RowsReady(d: Dump, vv: seq<set<int>>, N: seq<int>) {
    && |vv| == NEW_BUCKET_COUNT && Distinct(N)
    && (forall b, id :: 0 <= b < |vv| && id in vv[b] ==> id in N)
    && (forall id :: id in N ==> RefCount(vv, id) <= NEW_BUCKETS_PER_ADDRESS)
    && d.buckets == RowsOf(N, vv)
  }

  lemma RefStep(d: Dump, t0: Tables, t1: Tables, vv: seq<set<int>>, N: seq<int>, b: nat, k: nat)
    requires RowsReady(d, vv, N) && b < |vv| && k < |InOrder(vv[b])|
    requires RefsPlaced(t1, vv, N, b, InOrder(vv[b])[..k]) && SameButRefs(t0, t1)
    ensures k < |d.buckets[b]|
    ensures RefsPlaced(PutRef(d, t1, b, d.buckets[b][k]), vv, N, b, InOrder(vv[b])[..k + 1])
    ensures SameButRefs(t0, PutRef(d, t1, b, d.buckets[b][k]))
  {
    RowElement(d, vv, N, b, k);
    var q := InOrder(vv[b]);
    hide RowsReady, RefsPlaced, SameButRefs, PutRef, StrictlyAscending;
    RefPlacedMore(d, t1, vv, N, b, q[..k], q[k]);
    SameButRefsTrans(t0, t1, PutRef(d, t1, b, PosIn(N, q[k])));
  }

  lemma RowElement(d: Dump, vv: seq<set<int>>, N: seq<int>, b: nat, k: nat)
    requires RowsReady(d, vv, N) && b < |vv| && k < |InOrder(vv[b])|
    ensures |d.buckets| == |vv| == NEW_BUCKET_COUNT && k < |d.buckets[b]| && Distinct(N)
    ensures var q := InOrder(vv[b]);
      && q[k] in vv[b] && q[k] in N && q[k] !in q[..k] && q[..k + 1] == q[..k] + [q[k]]
      && d.buckets[b][k] == PosIn(N, q[k]) && RefCount(vv, q[k]) <= NEW_BUCKETS_PER_ADDRESS
  {
    hide RowsReady, Row, InOrder, StrictlyAscending, Distinct;
    RowIs(d, vv, N, b);
    RowAt(N, vv[b], k);
    NextAscending(InOrder(vv[b]), k);
    assert InOrder(vv[b])[k] in InOrder(vv[b]);
  }

  lemma NextAscending(q: seq<int>, k: nat)
    requires StrictlyAscending(q) && k < |q|
    ensures q[k] !in q[..k] && q[..k + 1] == q[..k] + [q[k]]
  {
  }

  lemma RowIs(d: Dump, vv: seq<set<int>>, N: seq<int>, b: nat)
    requires RowsReady(d, vv, N) && b < |vv|
    ensures |d.buckets| == |vv| == NEW_BUCKET_COUNT && Distinct(N)
    ensures (forall id :: id in vv[b] ==> id in N) && d.buckets[b] == Row(N, vv[b])
    ensures forall id :: id in N ==> RefCount(vv, id) <= NEW_BUCKETS_PER_ADDRESS
  {
  }

  lemma RowAt(N: seq<int>, s: set<int>, k: nat)
    requires (forall id :: id in s ==> id in N) && k < |InOrder(s)|
    ensures InOrder(s)[k] in N && |Row(N, s)| == |InOrder(s)| && Row(N, s)[k] == PosIn(N, InOrder(s)[k])
  {
    assert InOrder(s)[k] in s;
  }

  /** The references of one bucket. */
  lemma {:induction false} RefRow(net: Net, d: Dump, t0: Tables, vv: seq<set<int>>, N: seq<int>, b: nat, k: nat)
    requires RowsReady(d, vv, N) && b < |vv| == |d.buckets| == NEW_BUCKET_COUNT
    requires k <= |InOrder(vv[b])| == |d.buckets[b]|
    requires RefsPlaced(LoadedRefs(net, d, b, 0), vv, N, b, InOrder(vv[b])[..0])
    requires SameButRefs(t0, LoadedRefs(net, d, b, 0))
    ensures RefsPlaced(LoadedRefs(net, d, b, k), vv, N, b, InOrder(vv[b])[..k])
    ensures SameButRefs(t0, LoadedRefs(net, d, b, k))
  {
    hide RowsReady, RefsPlaced, SameButRefs, PutRef, InOrder;
    if k > 0 {
      RefRow(net, d, t0, vv, N, b, k - 1);
      RefStep(d, t0, LoadedRefs(net, d, b, k - 1), vv, N, b, k - 1);
    }
  }

  lemma RowLength(d: Dump, vv: seq<set<int>>, N: seq<int>, b: nat)
    requires RowsReady(d, vv, N) && b < |vv|
    ensures |d.buckets| == |vv| == NEW_BUCKET_COUNT && |d.buckets[b]| == |InOrder(vv[b])|
    ensures InOrder(vv[b])[..0] == [] && InOrder(vv[b])[..|InOrder(vv[b])|] == InOrder(vv[b])
    ensures forall x :: x in InOrder(vv[b]) <==> x in vv[b]
  {
  }

  lemma NextRow(net: Net, d: Dump, b: nat)
    requires 0 < b <= |d.buckets|
    ensures LoadedRefs(net, d, b, 0) == LoadedRefs(net, d, b - 1, |d.buckets[b - 1]|)
  {
  }

  /** All references of the first b buckets. */
  lemma {:induction false} RefStage(net: Net, d: Dump, vv: seq<set<int>>, N: seq<int>, b: nat)
    requires RowsReady(d, vv, N) && b <= |vv| == |d.buckets| == NEW_BUCKET_COUNT
    requires RefsPlaced(LoadedTried(net, d, |d.trieds|), vv, N, 0, [])
    ensures RefsPlaced(LoadedRefs(net, d, b, 0), vv, N, b, [])
    ensures SameButRefs(LoadedTried(net, d, |d.trieds|), LoadedRefs(net, d, b, 0))
  {
    var t0 := LoadedTried(net, d, |d.trieds|);
    if b == 0 {
      SameRefsSelf(t0);
    } else {
      NextRow(net, d, b);
      hide RowsReady, RefsPlaced, SameButRefs, PutRef, LoadedTried, InOrder, LoadedRefs;
      RefStage(net, d, vv, N, b - 1);
      RowLength(d, vv, N, b - 1);
      var q := InOrder(vv[b - 1]);
      RefRow(net, d, t0, vv, N, b - 1, |q|);
      RefsNextBucket(LoadedRefs(net, d, b - 1, |q|), vv, N, b - 1, q);
    }
  }

  lemma SameRefsSelf(t: Tables)
    ensures SameButRefs(t, t)
  {
  }

  // ---- The theorem -----------------------------------------------------------------------

  lemma CountsFit(net: Net, key: seq<Byte>, t: Tables)
    requires Consistent(net, key, t)
    ensures forall id :: id in t.mapInfo ==> RefCount(t.vvNew, id) <= NEW_BUCKETS_PER_ADDRESS
    ensures forall id :: id in t.mapInfo && !t.mapInfo[id].fInTried ==> RefCount(t.vvNew, id) == t.mapInfo[id].nRefCount
    ensures forall id :: id in t.mapInfo && t.mapInfo[id].fInTried ==> t.mapInfo[id].nRefCount == 0
    ensures forall b, id :: 0 <= b < |t.vvNew| && id in t.vvNew[b] ==> id in t.mapInfo && !t.mapInfo[id].fInTried
    ensures |t.vvNew| == NEW_BUCKET_COUNT
  {
    forall id | id in t.mapInfo
      ensures RefCount(t.vvNew, id) <= NEW_BUCKETS_PER_ADDRESS
      ensures if t.mapInfo[id].fInTried then t.mapInfo[id].nRefCount == 0 else RefCount(t.vvNew, id) == t.mapInfo[id].nRefCount
    {
      assert RefCountOk(t.mapInfo, t.vvNew, id, NONE);
      if t.mapInfo[id].fInTried { RefCountZero(t.vvNew, id); }
    }
  }

  /** The tables after all three stages. */
  ghost predicate AllPlaced(net: Net, key: seq<Byte>, t: Tables, t2: Tables, N: seq<int>, R: seq<int>)
    requires forall j :: 0 <= j < |R| ==> R[j] in t.mapInfo
  {
    && Placed(t2, t.mapInfo, N + R, |N|)
    && TriedPlaced(net, key, t2.vvTried, t.mapInfo, R, |N|, |R|)
    && RefsPlaced(t2, t.vvNew, N, |t.vvNew|, [])
    && t2.nNew == |N| && t2.nTried == |R| && t2.nIdCount == |N| + |R|
  }

  lemma PlacedSameRefs(t1: Tables, t2: Tables, info: map<int, AddrInfo>, L: seq<int>, n: nat)
    requires Placed(t1, info, L, n) && SameButRefs(t1, t2)
    ensures Placed(t2, info, L, n)
  {
  }

  lemma RefsStart(t1: Tables, info: map<int, AddrInfo>, vv: seq<set<int>>, N: seq<int>, L: seq<int>, n: nat)
    requires Placed(t1, info, L, n) && NoneHeld(t1) && |N| <= |L| && |t1.vvNew| == |vv|
    ensures RefsPlaced(t1, vv, N, 0, [])
  {
    assert vv[..0] == [];
  }

  lemma LoadedAll(net: Net, key: seq<Byte>, t: Tables, N: seq<int>, R: seq<int>)
    requires Consistent(net, key, t) && N == NewIdList(t.mapInfo) && R == TriedIdList(t.mapInfo)
    ensures HeldListed(t.mapInfo, t.vvNew) && |DumpOf(key, t).buckets| == NEW_BUCKET_COUNT && Lists(t.mapInfo, N, R)
    ensures AllPlaced(net, key, t, Loaded(net, DumpOf(key, t)), N, R)
  {
    hide ConsistentBut, RowsReady, DumpLists, Placed, RefsPlaced, SameButRefs, TriedPlaced, Lists, NoneHeld;
    DumpReady(net, key, t, N, R);
    var d := DumpOf(key, t);
    TriedStage(net, d, t, N, R, |R|);
    var t1 := LoadedTried(net, d, |R|);
    assert R[..|R|] == R;
    hide DumpOf, LoadedTried;
    RefsStart(t1, t.mapInfo, t.vvNew, N, N + R, |N|);
    RefStage(net, d, t.vvNew, N, |t.vvNew|);
    var t2 := Loaded(net, d);
    PlacedSameRefs(t1, t2, t.mapInfo, N + R, |N|);
    SameButRefsFields(t1, t2);
  }

  lemma DumpReady(net: Net, key: seq<Byte>, t: Tables, N: seq<int>, R: seq<int>)
    requires Consistent(net, key, t) && N == NewIdList(t.mapInfo) && R == TriedIdList(t.mapInfo)
    ensures HeldListed(t.mapInfo, t.vvNew) && Lists(t.mapInfo, N, R)
    ensures var d := DumpOf(key, t);
      && RowsReady(d, t.vvNew, N) && DumpLists(d, t, N, R) && |d.trieds| == |R|
      && |d.buckets| == |t.vvNew| == NEW_BUCKET_COUNT && d.nKey == key
  {
    hide NewIdList, TriedIdList;
    ListsOf(net, key, t);
    CountsFit(net, key, t);
    hide ConsistentBut;
    TriedListed(t.mapInfo, N, R);
  }

  lemma TriedListed(info: map<int, AddrInfo>, N: seq<int>, R: seq<int>)
    requires Lists(info, N, R)
    ensures forall j :: 0 <= j < |R| ==> R[j] in info && info[R[j]].fInTried
  {
    forall j | 0 <= j < |R| ensures R[j] in info && info[R[j]].fInTried {
      assert R[j] in R;
    }
  }

  lemma SameButRefsFields(t1: Tables, t2: Tables)
    requires SameButRefs(t1, t2)
    ensures t2 == t1.(mapInfo := t2.mapInfo, vvNew := t2.vvNew)
  {
  }

  lemma {:induction false} RefCountRenamed(vv: seq<set<int>>, vv': seq<set<int>>, id: int, id': int)
    requires |vv| == |vv'| && forall b :: 0 <= b < |vv| ==> (id in vv[b] <==> id' in vv'[b])
    ensures RefCount(vv, id) == RefCount(vv', id')
  {
    if vv != [] {
      var n := |vv| - 1;
      assert forall b :: 0 <= b < n ==> (id in vv[..n][b] <==> id' in vv'[..n][b]);
      RefCountRenamed(vv[..n], vv'[..n], id, id');
    }
  }

  /** Which old id became j. */
  lemma OldIds(info: map<int, AddrInfo>, N: seq<int>, R: seq<int>)
    requires Lists(info, N, R)
    ensures Distinct(N + R) && forall id :: id in N + R <==> id in info
    ensures forall j :: 0 <= j < |N| + |R| ==>
      (N + R)[j] == (if j < |N| then N[j] else R[j - |N|]) && (N + R)[j] in info && info[(N + R)[j]].fInTried == (j >= |N|)
  {
    forall j | 0 <= j < |N| + |R| ensures (N + R)[j] in info && info[(N + R)[j]].fInTried == (j >= |N|) {
      var id := (N + R)[j];
      if j < |N| { assert id == N[j]; assert id in N; } else { assert id == R[j - |N|]; assert id in R; }
    }
  }

  lemma NewRenumbered(net: Net, key: seq<Byte>, t: Tables, t2: Tables, N: seq<int>, R: seq<int>)
    requires Consistent(net, key, t) && Lists(t.mapInfo, N, R)
    requires forall j :: 0 <= j < |R| ==> R[j] in t.mapInfo
    requires AllPlaced(net, key, t, t2, N, R)
    ensures var L := N + R;
      && (forall b, j :: 0 <= b < |t.vvNew| && 0 <= j < |L| ==> (j in t2.vvNew[b] <==> L[j] in t.vvNew[b]))
      && (forall j :: 0 <= j < |L| ==> L[j] in t.mapInfo && t2.mapInfo[j].nRefCount == t.mapInfo[L[j]].nRefCount)
  {
    OldIds(t.mapInfo, N, R);
    CountsFit(net, key, t);
    hide ConsistentBut, Lists, Placed, TriedPlaced;
    var L := N + R;
    assert t.vvNew[..|t.vvNew|] == t.vvNew;
    PlacedIds(t2, t.mapInfo, L, |N|);
    forall j | 0 <= j < |L| ensures t2.mapInfo[j].nRefCount == t.mapInfo[L[j]].nRefCount {
      if j < |N| { assert L[j] == N[j]; }
    }
    forall b, j | 0 <= b < |t.vvNew| && 0 <= j < |L| ensures j in t2.vvNew[b] <==> L[j] in t.vvNew[b] {
      if j < |N| { assert L[j] == N[j]; }
    }
  }

  lemma PlacedIds(t2: Tables, info: map<int, AddrInfo>, L: seq<int>, n: nat)
    requires Placed(t2, info, L, n)
    ensures forall j :: j in t2.mapInfo <==> 0 <= j < |L|
    ensures forall j :: 0 <= j < |L| ==> L[j] in info && Survives(t2.mapInfo[j], info[L[j]]) && t2.mapInfo[j].fInTried == (j >= n)
    ensures forall j :: 0 <= j < |L| ==> t2.mapInfo[j].addr == info[L[j]].addr
  {
    forall j | 0 <= j < |L| ensures Survives(t2.mapInfo[j], info[L[j]]) && t2.mapInfo[j].fInTried == (j >= n) && t2.mapInfo[j].addr == info[L[j]].addr {
      assert PlacedEntry(t2.mapInfo[j], info[L[j]], j, n);
    }
  }

  lemma TriedRenumbered(net: Net, key: seq<Byte>, t: Tables, t2: Tables, N: seq<int>, R: seq<int>)
    requires Consistent(net, key, t) && Lists(t.mapInfo, N, R)
    requires forall j :: 0 <= j < |R| ==> R[j] in t.mapInfo
    requires AllPlaced(net, key, t, t2, N, R)
    ensures var L := N + R;
      forall b, j :: 0 <= b < |t.vvTried| && 0 <= j < |L| ==> (j in t2.vvTried[b] <==> L[j] in t.vvTried[b])
    ensures forall b, j :: 0 <= b < |t2.vvTried| && j in t2.vvTried[b] ==> |N| <= j < |N| + |R|
  {
    OldIds(t.mapInfo, N, R);
    hide IndexOk, RandomOk, NewOk, Lists, Placed, RefsPlaced;
    var L := N + R;
    forall b, j | 0 <= b < |t.vvTried| && 0 <= j < |L| ensures j in t2.vvTried[b] <==> L[j] in t.vvTried[b] {
      if j >= |N| { assert L[j] == R[j - |N|]; }
    }
  }

  lemma AddressesKept(t: Tables, t2: Tables, L: seq<int>, n: nat)
    requires IndexOk(t.mapInfo, t.mapAddr) && Placed(t2, t.mapInfo, L, n) && forall id :: id in L <==> id in t.mapInfo
    ensures t2.mapAddr.Keys == t.mapAddr.Keys
  {
    PlacedIds(t2, t.mapInfo, L, n);
    forall a ensures a in t2.mapAddr <==> a in t.mapAddr {
      if a in t.mapAddr {
        var id := t.mapAddr[a];
        assert id in L;
        var j :| 0 <= j < |L| && L[j] == id;
        assert j in t2.mapInfo && t2.mapInfo[j].addr.net == a;
      }
      if a in t2.mapAddr {
        var j := t2.mapAddr[a];
        assert j in t2.mapInfo;
        var id := L[j];
        assert id in t.mapInfo && t.mapInfo[id].addr.net == a;
      }
    }
  }

  /** Reading back what was written renumbers the ids and changes nothing else: the same
      addresses and serialized fields, tried flags, reference counts, memberships and counters;
      no entry is lost. */
  lemma RoundTripRenumbers(net: Net, key: seq<Byte>, t: Tables)
    requires Consistent(net, key, t)
    ensures HeldListed(t.mapInfo, t.vvNew) && |DumpOf(key, t).buckets| <= NEW_BUCKET_COUNT
    ensures Renumbered(t, Loaded(net, DumpOf(key, t)), NewIdList(t.mapInfo) + TriedIdList(t.mapInfo))
  {
    hide ConsistentBut, AllPlaced, Placed, Lists, Renumbered, NewIdList, TriedIdList;
    var N, R := NewIdList(t.mapInfo), TriedIdList(t.mapInfo);
    ListsOf(net, key, t);
    LoadedAll(net, key, t, N, R);
    RenumberedFrom(net, key, t, Loaded(net, DumpOf(key, t)), N, R);
  }

  lemma AllPlacedParts(net: Net, key: seq<Byte>, t: Tables, t2: Tables, N: seq<int>, R: seq<int>)
    requires Consistent(net, key, t) && forall j :: 0 <= j < |R| ==> R[j] in t.mapInfo
    requires AllPlaced(net, key, t, t2, N, R)
    ensures Placed(t2, t.mapInfo, N + R, |N|)
    ensures |t.vvTried| == |t2.vvTried| == TRIED_BUCKET_COUNT && |t2.vvNew| == |t.vvNew| == NEW_BUCKET_COUNT
    ensures t2.nNew == |N| && t2.nTried == |R| && t2.nIdCount == |N| + |R|
  {
  }

  lemma RenumberedFrom(net: Net, key: seq<Byte>, t: Tables, t2: Tables, N: seq<int>, R: seq<int>)
    requires Consistent(net, key, t) && Lists(t.mapInfo, N, R) && |N| == t.nNew && |R| == t.nTried
    requires forall j :: 0 <= j < |R| ==> R[j] in t.mapInfo
    requires AllPlaced(net, key, t, t2, N, R)
    ensures Renumbered(t, t2, N + R)
  {
    hide ConsistentBut, AllPlaced, Placed, Lists, Distinct;
    AllPlacedParts(net, key, t, t2, N, R);
    OldIds(t.mapInfo, N, R);
    NewRenumbered(net, key, t, t2, N, R);
    TriedRenumbered(net, key, t, t2, N, R);
    PlacedIds(t2, t.mapInfo, N + R, |N|);
    IndexOf(net, key, t);
    AddressesKept(t, t2, N + R, |N|);
  }

  // ---- The result is consistent ----------------------------------------------------------

  ghost predicate RenamedIn(s': set<int>, s: set<int>, L: seq<int>) {
    forall j :: j in s' ==> 0 <= j < |L| && L[j] in s
  }

  lemma RenamedSizes(vv': seq<set<int>>, vv: seq<set<int>>, L: seq<int>, size: nat)
    requires Distinct(L) && |vv'| == |vv|
    requires forall b :: 0 <= b < |vv| ==> RenamedIn(vv'[b], vv[b], L) && |vv[b]| <= size
    ensures forall b :: 0 <= b < |vv| ==> |vv'[b]| <= size
  {
    forall b | 0 <= b < |vv| ensures |vv'[b]| <= size {
      RenamedCard(vv'[b], vv[b], L, 0);
    }
  }

  lemma TriedSizes(net: Net, key: seq<Byte>, t: Tables, t2: Tables, N: seq<int>, R: seq<int>)
    requires Consistent(net, key, t) && Lists(t.mapInfo, N, R)
    requires forall j :: 0 <= j < |R| ==> R[j] in t.mapInfo
    requires AllPlaced(net, key, t, t2, N, R)
    ensures |t2.vvTried| == TRIED_BUCKET_COUNT
    ensures forall b :: 0 <= b < |t2.vvTried| ==> Distinct(t2.vvTried[b]) && |t2.vvTried[b]| <= TRIED_BUCKET_SIZE
  {
    TriedRenumbered(net, key, t, t2, N, R);
    OldIds(t.mapInfo, N, R);
    hide IndexOk, RandomOk, NewOk, Lists, Placed, RefsPlaced;
    var L := N + R;
    var rows', rows := Rows(t2.vvTried), Rows(t.vvTried);
    forall b | 0 <= b < |t2.vvTried|
      ensures |rows'[b]| == |t2.vvTried[b]| && |rows[b]| <= TRIED_BUCKET_SIZE && RenamedIn(rows'[b], rows[b], L)
    {
      ElementsCard(t2.vvTried[b]);
      ElementsCard(t.vvTried[b]);
      forall j | j in rows'[b] ensures 0 <= j < |L| && L[j] in rows[b] {
        assert j in t2.vvTried[b];
      }
    }
    RenamedSizes(rows', rows, L, TRIED_BUCKET_SIZE);
  }

  lemma LoadedTriedOk(net: Net, key: seq<Byte>, t: Tables, t2: Tables, N: seq<int>, R: seq<int>)
    requires Consistent(net, key, t) && Lists(t.mapInfo, N, R)
    requires forall j :: 0 <= j < |R| ==> R[j] in t.mapInfo
    requires AllPlaced(net, key, t, t2, N, R)
    ensures TriedOk(net, key, t2.mapInfo, t2.vvTried)
  {
    hide ConsistentBut, Placed, RefsPlaced, TriedPlaced, Lists, Distinct, TriedOk;
    TriedSizes(net, key, t, t2, N, R);
    PlacedRest(t2, t.mapInfo, N, R);
    hide AllPlaced;
    TriedFrom(net, key, t.mapInfo, t2, R, |N|);
  }

  lemma PlacedRest(t2: Tables, info: map<int, AddrInfo>, N: seq<int>, R: seq<int>)
    requires Placed(t2, info, N + R, |N|)
    ensures forall j :: j in t2.mapInfo <==> 0 <= j < |N| + |R|
    ensures forall j :: 0 <= j < |N| + |R| ==> t2.mapInfo[j].fInTried == (j >= |N|)
    ensures forall k :: 0 <= k < |R| ==> R[k] in info && t2.mapInfo[|N| + k].addr == info[R[k]].addr
  {
    PlacedIds(t2, info, N + R, |N|);
    hide Placed, Survives;
    forall k | 0 <= k < |R|
      ensures R[k] in info && t2.mapInfo[|N| + k].addr == info[R[k]].addr
    {
      assert (N + R)[|N| + k] == R[k];
    }
  }

  /** Tried entries in their buckets, by their new numbers. */
  lemma TriedFrom(net: Net, key: seq<Byte>, info: map<int, AddrInfo>, t2: Tables, R: seq<int>, n: nat)
    requires forall j :: 0 <= j < |R| ==> R[j] in info
    requires TriedPlaced(net, key, t2.vvTried, info, R, n, |R|)
    requires forall j :: j in t2.mapInfo <==> 0 <= j < n + |R|
    requires forall j :: 0 <= j < n + |R| ==> t2.mapInfo[j].fInTried == (j >= n)
    requires forall k :: 0 <= k < |R| ==> t2.mapInfo[n + k].addr == info[R[k]].addr
    requires |t2.vvTried| == TRIED_BUCKET_COUNT
    requires forall b :: 0 <= b < |t2.vvTried| ==> Distinct(t2.vvTried[b]) && |t2.vvTried[b]| <= TRIED_BUCKET_SIZE
    ensures TriedOk(net, key, t2.mapInfo, t2.vvTried)
  {
    hide Distinct, TriedBucket;
    forall j | j in t2.mapInfo && t2.mapInfo[j].fInTried
      ensures j in t2.vvTried[TriedBucket(net, key, t2.mapInfo[j].addr)]
    {
      assert t2.mapInfo[n + (j - n)].addr == info[R[j - n]].addr;
    }
    forall b, j | 0 <= b < |t2.vvTried| && j in t2.vvTried[b]
      ensures j in t2.mapInfo && t2.mapInfo[j].fInTried && TriedBucket(net, key, t2.mapInfo[j].addr) == b
    {
      assert t2.mapInfo[n + (j - n)].addr == info[R[j - n]].addr;
    }
  }

  lemma LoadedNewOk(net: Net, key: seq<Byte>, t: Tables, t2: Tables, N: seq<int>, R: seq<int>)
    requires Consistent(net, key, t) && Lists(t.mapInfo, N, R)
    requires forall j :: 0 <= j < |R| ==> R[j] in t.mapInfo
    requires AllPlaced(net, key, t, t2, N, R)
    ensures NewOk(t2.mapInfo, t2.vvNew, NONE)
  {
    hide ConsistentBut, Lists, Placed, TriedPlaced, RefsPlaced, Distinct;
    AllPlacedParts(net, key, t, t2, N, R);
    OldIds(t.mapInfo, N, R);
    NewRenumbered(net, key, t, t2, N, R);
    PlacedIds(t2, t.mapInfo, N + R, |N|);
    HeldPlaced(t2, t.vvNew, N, R);
    SizesOf(net, key, t);
    hide AllPlaced;
    RenamedSizes(t2.vvNew, t.vvNew, N + R, NEW_BUCKET_SIZE);
    forall j | j in t2.mapInfo ensures RefCountOk(t2.mapInfo, t2.vvNew, j, NONE) {
      RefCountRenamed(t.vvNew, t2.vvNew, (N + R)[j], j);
      CountOf(net, key, t, (N + R)[j]);
    }
  }

  lemma HeldPlaced(t2: Tables, vv: seq<set<int>>, N: seq<int>, R: seq<int>)
    requires RefsPlaced(t2, vv, N, |vv|, [])
    ensures forall b, j :: 0 <= b < |t2.vvNew| && j in t2.vvNew[b] ==> 0 <= j < |N|
    ensures forall b :: 0 <= b < |t2.vvNew| ==> RenamedIn(t2.vvNew[b], vv[b], N + R)
  {
    forall b, j | 0 <= b < |t2.vvNew| && j in t2.vvNew[b] ensures 0 <= j < |N| && N[j] in vv[b] {
    }
  }

  lemma SizesOf(net: Net, key: seq<Byte>, t: Tables)
    requires Consistent(net, key, t)
    ensures forall b :: 0 <= b < |t.vvNew| ==> |t.vvNew[b]| <= NEW_BUCKET_SIZE
  {
  }

  lemma CountOf(net: Net, key: seq<Byte>, t: Tables, id: int)
    requires Consistent(net, key, t) && id in t.mapInfo
    ensures RefCountOk(t.mapInfo, t.vvNew, id, NONE) && id != NONE
  {
  }

  lemma LoadedCounts(t2: Tables, info: map<int, AddrInfo>, L: seq<int>, n: nat)
    requires Placed(t2, info, L, n) && n <= |L|
    ensures |NewIds(t2.mapInfo)| == n && |TriedIds(t2.mapInfo)| == |L| - n
  {
    PlacedIds(t2, info, L, n);
    RangeCard(0, n, NewIds(t2.mapInfo));
    RangeCard(n, |L|, TriedIds(t2.mapInfo));
  }

  lemma {:induction false} RangeCard(lo: int, hi: int, s: set<int>)
    requires lo <= hi && forall x :: x in s <==> lo <= x < hi
    ensures |s| == hi - lo
    decreases hi - lo
  {
    if lo == hi {
      assert forall x :: x in s ==> lo <= x < hi;
      assert s == {};
    } else {
      RangeCard(lo, hi - 1, s - {hi - 1});
    }
  }

  /** Reading back what was written gives a consistent manager. */
  lemma RoundTripConsistent(net: Net, key: seq<Byte>, t: Tables)
    requires Consistent(net, key, t)
    ensures HeldListed(t.mapInfo, t.vvNew) && |DumpOf(key, t).buckets| <= NEW_BUCKET_COUNT
    ensures Consistent(net, key, Loaded(net, DumpOf(key, t)))
  {
    hide ConsistentBut, AllPlaced, Placed, Lists, NewIdList, TriedIdList;
    var N, R := NewIdList(t.mapInfo), TriedIdList(t.mapInfo);
    ListsOf(net, key, t);
    LoadedAll(net, key, t, N, R);
    ConsistentFrom(net, key, t, Loaded(net, DumpOf(key, t)), N, R);
  }

  /** The times that survive on disk. */
  ghost predicate SuccessOk(info: map<int, AddrInfo>) {
    forall id :: id in info ==> EntrySuccessOk(info[id])
  }

  predicate EntrySuccessOk(i: AddrInfo) {
    0 <= i.nLastSuccess && (i.fInTried ==> i.nLastSuccess != 0)
  }

  /** What is read back passes the time checks exactly if the last successes written do; the last
      tries, which are not written, become zero. */
  lemma RoundTripTimes(net: Net, key: seq<Byte>, t: Tables)
    requires Consistent(net, key, t)
    ensures HeldListed(t.mapInfo, t.vvNew)
    ensures TimesOk(Loaded(net, DumpOf(key, t)).mapInfo) <==> SuccessOk(t.mapInfo)
    ensures TimesOk(t.mapInfo) ==> TimesOk(Loaded(net, DumpOf(key, t)).mapInfo)
  {
    hide ConsistentBut, AllPlaced, Placed, Lists, NewIdList, TriedIdList, TimesOk, SuccessOk;
    var N, R := NewIdList(t.mapInfo), TriedIdList(t.mapInfo);
    ListsOf(net, key, t);
    LoadedAll(net, key, t, N, R);
    var t2 := Loaded(net, DumpOf(key, t));
    AllPlacedParts(net, key, t, t2, N, R);
    OldIds(t.mapInfo, N, R);
    PlacedTimes(t2, t.mapInfo, N + R, |N|);
  }

  lemma PlacedTimes(t2: Tables, info: map<int, AddrInfo>, L: seq<int>, n: nat)
    requires Placed(t2, info, L, n) && forall id :: id in L <==> id in info
    requires forall j :: 0 <= j < |L| ==> info[L[j]].fInTried == (j >= n)
    ensures TimesOk(t2.mapInfo) <==> SuccessOk(info)
    ensures TimesOk(info) ==> SuccessOk(info)
  {
    if TimesOk(info) {
      forall id | id in info ensures EntrySuccessOk(info[id]) {
        assert EntryTimesOk(info[id]);
      }
    }
    if SuccessOk(info) {
      forall j | j in t2.mapInfo ensures EntryTimesOk(t2.mapInfo[j]) {
        var id := L[j];
        assert PlacedEntry(t2.mapInfo[j], info[id], j, n);
        assert EntrySuccessOk(info[id]);
        assert t2.mapInfo[j].nLastTry == 0;
      }
    }
    if TimesOk(t2.mapInfo) {
      forall id | id in info
        ensures EntrySuccessOk(info[id])
      {
        var j :| 0 <= j < |L| && L[j] == id;
        assert EntryTimesOk(t2.mapInfo[j]) && PlacedEntry(t2.mapInfo[j], info[L[j]], j, n);
      }
    }
  }

  lemma ConsistentFrom(net: Net, key: seq<Byte>, t: Tables, t2: Tables, N: seq<int>, R: seq<int>)
    requires Consistent(net, key, t) && Lists(t.mapInfo, N, R)
    requires forall j :: 0 <= j < |R| ==> R[j] in t.mapInfo
    requires AllPlaced(net, key, t, t2, N, R)
    ensures Consistent(net, key, t2)
  {
    hide AllPlaced, Placed, Lists, IndexOk, RandomOk, NewOk, TriedOk;
    AllPlacedParts(net, key, t, t2, N, R);
    LoadedTriedOk(net, key, t, t2, N, R);
    LoadedNewOk(net, key, t, t2, N, R);
    LoadedCounts(t2, t.mapInfo, N + R, |N|);
    PlacedIds(t2, t.mapInfo, N + R, |N|);
    PlacedRandom(t2, t.mapInfo, N + R, |N|);
    PlacedIndex(t2, t.mapInfo, N + R, |N|);
  }

  lemma PlacedIndex(t2: Tables, info: map<int, AddrInfo>, L: seq<int>, n: nat)
    requires Placed(t2, info, L, n)
    ensures IndexOk(t2.mapInfo, t2.mapAddr)
  {
  }
}
