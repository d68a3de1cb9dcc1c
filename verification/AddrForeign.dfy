/** Reading a dump with another number of bucket rows: the rows are not used, every new entry goes
    to its default bucket, and nothing looks at the room there. */
module AddrForeign {
  import opened NetTypes
  import opened AddrTables
  import opened AddrDisk
  import opened AddrRoundTrip

  function DefaultBucket(net: Net, d: Dump, n: nat): (b: nat)
    requires n < |d.news|
    ensures b < NEW_BUCKET_COUNT
  {
    NewBucket(net, d.nKey, d.news[n].addr.net, d.news[n].source)
  }

  /** Those of the first k new entries whose default bucket is c. */
  ghost function DefaultsUpTo(net: Net, d: Dump, c: nat, k: nat): (s: set<int>)
    requires k <= |d.news|
  {
    set n: int | 0 <= n < k && DefaultBucket(net, d, n) == c
  }

  /** The new entries whose default bucket is c. */
  ghost function Defaults(net: Net, d: Dump, c: nat): (s: set<int>) {
    DefaultsUpTo(net, d, c, |d.news|)
  }

  lemma OneMoreDefault(net: Net, d: Dump, c: nat, k: nat)
    requires k < |d.news|
    ensures DefaultsUpTo(net, d, c, k + 1)
         == DefaultsUpTo(net, d, c, k) + if DefaultBucket(net, d, k) == c then {k} else {}
  {
    hide DefaultBucket;
  }

  /** Every index in the rows is one of the m ids that the entries received. */
  ghost predicate KnownRows(rows: seq<seq<int>>, m: int) {
    forall b, k :: 0 <= b < |rows| && 0 <= k < |rows[b]| ==> 0 <= rows[b][k] < m
  }

  // ----- The entries -----

  /** The first k new entries are in their default bucket and nowhere else, and counted once. */
  ghost predicate OneEach(net: Net, d: Dump, t: Tables, k: nat)
    requires k <= |d.news|
  {
    && |t.vvNew| == NEW_BUCKET_COUNT
    && (forall c: nat :: c < |t.vvNew| ==> t.vvNew[c] == DefaultsUpTo(net, d, c, k))
    && (forall x :: x in t.mapInfo ==> t.mapInfo[x].nRefCount == if 0 <= x < k then 1 else 0)
  }

  /** The same entries under other rows. */
  ghost predicate SameEntries(d0: Dump, d: Dump) {
    d0 == d.(buckets := d0.buckets) && |d0.buckets| == NEW_BUCKET_COUNT != |d.buckets|
  }

  lemma {:induction false} NewRefs(net: Net, d0: Dump, d: Dump, k: nat)
    requires SameEntries(d0, d) && k <= |d.news|
    ensures SameButRefs(LoadedNew(net, d0, k), LoadedNew(net, d, k)) && OneEach(net, d, LoadedNew(net, d, k), k)
    ensures forall x :: x in LoadedNew(net, d, k).mapInfo ==> 0 <= x < k
  {
    hide PutNew, DefaultBucket;
    if k > 0 {
      NewRefs(net, d0, d, k - 1);
      PutNewRefs(net, d0, d, LoadedNew(net, d0, k - 1), LoadedNew(net, d, k - 1), k - 1);
    }
  }

  lemma PutNewRefs(net: Net, d0: Dump, d: Dump, t1: Tables, t2: Tables, k: nat)
    requires SameEntries(d0, d) && k < |d.news| && |t1.vvNew| == NEW_BUCKET_COUNT
    requires SameButRefs(t1, t2) && OneEach(net, d, t2, k) && forall x :: x in t2.mapInfo ==> 0 <= x < k
    ensures SameButRefs(PutNew(net, d0, t1, k), PutNew(net, d, t2, k)) && OneEach(net, d, PutNew(net, d, t2, k), k + 1)
    ensures forall x :: x in PutNew(net, d, t2, k).mapInfo ==> 0 <= x < k + 1
  {
    hide NewBucket, DefaultsUpTo;
    assert DefaultBucket(net, d, k) == NewBucket(net, d.nKey, d.news[k].addr.net, d.news[k].source);
    forall c: nat | c < NEW_BUCKET_COUNT
      ensures PutNew(net, d, t2, k).vvNew[c] == DefaultsUpTo(net, d, c, k + 1)
    {
      OneMoreDefault(net, d, c, k);
    }
  }

  lemma {:induction false} TriedRefs(net: Net, d0: Dump, d: Dump, m: nat)
    requires SameEntries(d0, d) && m <= |d.trieds|
    ensures SameButRefs(LoadedTried(net, d0, m), LoadedTried(net, d, m))
    ensures OneEach(net, d, LoadedTried(net, d, m), |d.news|) && LoadedTried(net, d, m).nIdCount >= |d.news|
  {
    hide PutTried, DefaultBucket, LoadedNew, SameButRefs;
    if m == 0 {
      NewRefs(net, d0, d, |d.news|);
      SameButCount(LoadedNew(net, d0, |d.news|), LoadedNew(net, d, |d.news|), |d.news|);
    } else {
      TriedRefs(net, d0, d, m - 1);
      PutTriedRefs(net, d0, d, LoadedTried(net, d0, m - 1), LoadedTried(net, d, m - 1), m - 1);
    }
  }

  lemma SameButCount(t1: Tables, t2: Tables, n: int)
    requires SameButRefs(t1, t2)
    ensures SameButRefs(t1.(nIdCount := n), t2.(nIdCount := n))
  {
  }

  lemma PutTriedRefs(net: Net, d0: Dump, d: Dump, t1: Tables, t2: Tables, m: nat)
    requires SameEntries(d0, d) && m < |d.trieds| && |t1.vvTried| == TRIED_BUCKET_COUNT
    requires SameButRefs(t1, t2) && OneEach(net, d, t2, |d.news|) && t2.nIdCount >= |d.news|
    ensures SameButRefs(PutTried(net, d0, t1, m), PutTried(net, d, t2, m))
    ensures OneEach(net, d, PutTried(net, d, t2, m), |d.news|) && PutTried(net, d, t2, m).nIdCount >= |d.news|
  {
    hide TriedBucket, DefaultBucket, DefaultsUpTo;
  }

  // ----- The rows -----

  /** The elements before element k of row b. */
  ghost predicate Earlier(d: Dump, b: nat, k: nat, c: nat, j: nat) {
    && c < |d.buckets| && j < |d.buckets[c]|
    && (c < b || (c == b && j < k))
  }

  /** Known indexes change nothing, an unknown one leaves a default entry behind. */
  lemma {:induction false} RowsRead(net: Net, d: Dump, b: nat, k: nat)
    requires |d.buckets| != NEW_BUCKET_COUNT
    requires b <= |d.buckets| && k <= if b < |d.buckets| then |d.buckets[b]| else 0
    ensures var t2, t3 := LoadedTried(net, d, |d.trieds|), LoadedRefs(net, d, b, k);
      && (forall x :: x in t3.mapInfo && x !in t2.mapInfo ==> t3.mapInfo[x] == DefaultInfo())
      && (forall c: nat, j: nat :: Earlier(d, b, k, c, j) ==> d.buckets[c][j] in t3.mapInfo)
      && ((forall c: nat, j: nat :: Earlier(d, b, k, c, j) ==> d.buckets[c][j] in t2.mapInfo) ==> t3 == t2)
    decreases b, k
  {
    hide LoadedTried, DefaultInfo;
    if k > 0 {
      RowsRead(net, d, b, k - 1);
      assert forall c: nat, j: nat :: Earlier(d, b, k - 1, c, j) ==> Earlier(d, b, k, c, j);
      assert Earlier(d, b, k, b, k - 1);
    } else if b > 0 {
      RowsRead(net, d, b - 1, |d.buckets[b - 1]|);
      assert forall c: nat, j: nat :: Earlier(d, b - 1, |d.buckets[b - 1]|, c, j) <==> Earlier(d, b, 0, c, j);
    }
  }

  /** What is loaded, by whether the rows are known. */
  lemma LoadedRows(net: Net, d: Dump, m: int)
    requires |d.buckets| != NEW_BUCKET_COUNT
    requires forall x :: x in LoadedTried(net, d, |d.trieds|).mapInfo <==> 0 <= x < m
    ensures KnownRows(d.buckets, m) ==> Loaded(net, d) == LoadedTried(net, d, |d.trieds|)
    ensures !KnownRows(d.buckets, m) ==> exists x :: x in Loaded(net, d).mapInfo && Loaded(net, d).mapInfo[x] == DefaultInfo()
  {
    hide LoadedTried, DefaultInfo;
    RowsRead(net, d, |d.buckets|, 0);
    if !KnownRows(d.buckets, m) {
      var b, k :| 0 <= b < |d.buckets| && 0 <= k < |d.buckets[b]| && !(0 <= d.buckets[b][k] < m);
      assert Earlier(d, |d.buckets|, 0, b, k);
      assert d.buckets[b][k] in Loaded(net, d).mapInfo;
    }
  }

  // ----- When the result is consistent -----

  lemma {:induction false} RefCountOne(vv: seq<set<int>>, c: nat, x: int)
    requires c < |vv| && forall b :: 0 <= b < |vv| ==> (x in vv[b] <==> b == c)
    ensures RefCount(vv, x) == 1
  {
    var n := |vv| - 1;
    if c == n {
      RefCountZero(vv[..n], x);
    } else {
      RefCountOne(vv[..n], c, x);
    }
  }

  /** Everything but the references is as after reading the original rows. */
  lemma OnlyRefsMatter(net: Net, key: seq<Byte>, t1: Tables, f: Tables, t2: Tables)
    requires Consistent(net, key, f) && SameButRefs(t1, f) && SameButRefs(t1, t2)
    ensures Consistent(net, key, t2) <==> NewOk(t2.mapInfo, t2.vvNew, NONE)
  {
    hide NewOk, TriedBucket;
    forall x | x in t2.mapInfo
      ensures x in f.mapInfo && t2.mapInfo[x] == f.mapInfo[x].(nRefCount := t2.mapInfo[x].nRefCount)
    {
      assert x in t1.mapInfo;
    }
    SameIds(t1, f);
    SameIds(t1, t2);
    assert forall x :: x in t2.mapInfo.Keys <==> x in f.mapInfo.Keys;
    assert t2.mapInfo.Keys == f.mapInfo.Keys;
    assert NewIds(t2.mapInfo) == NewIds(f.mapInfo) && TriedIds(t2.mapInfo) == TriedIds(f.mapInfo);
    SameTriedOk(net, key, f, t2);
  }

  lemma SameTriedOk(net: Net, key: seq<Byte>, f: Tables, t2: Tables)
    requires f.vvTried == t2.vvTried && t2.mapInfo.Keys == f.mapInfo.Keys
    requires forall x :: x in t2.mapInfo ==> t2.mapInfo[x] == f.mapInfo[x].(nRefCount := t2.mapInfo[x].nRefCount)
    ensures TriedOk(net, key, f.mapInfo, f.vvTried) ==> TriedOk(net, key, t2.mapInfo, t2.vvTried)
  {
    hide TriedBucket;
  }

  /** The references are fine exactly if no default bucket is overfilled. */
  lemma DefaultsFitIff(net: Net, d: Dump, t: Tables, m: int)
    requires OneEach(net, d, t, |d.news|) && |d.news| <= m
    requires forall x :: x in t.mapInfo <==> 0 <= x < m
    requires forall x :: x in t.mapInfo ==> t.mapInfo[x].fInTried == (x >= |d.news|)
    ensures NewOk(t.mapInfo, t.vvNew, NONE)
        <==> forall c | 0 <= c < NEW_BUCKET_COUNT :: |Defaults(net, d, c)| <= NEW_BUCKET_SIZE
  {
    hide DefaultBucket;
    assert forall c: nat :: c < |t.vvNew| ==> t.vvNew[c] == Defaults(net, d, c);
    forall x | x in t.mapInfo
      ensures RefCountOk(t.mapInfo, t.vvNew, x, NONE)
    {
      if x < |d.news| {
        RefCountOne(t.vvNew, DefaultBucket(net, d, x), x);
      }
    }
  }

  lemma DefaultIsBad(net: Net, key: seq<Byte>, t: Tables, x: int)
    requires x in t.mapInfo && t.mapInfo[x] == DefaultInfo()
    ensures !Consistent(net, key, t)
  {
    assert !RefCountOk(t.mapInfo, t.vvNew, x, NONE);
  }

  /** The tables before any row is read, for the original rows. */
  lemma BeforeRows(net: Net, key: seq<Byte>, t: Tables)
    requires Consistent(net, key, t)
    ensures HeldListed(t.mapInfo, t.vvNew)
    ensures var d := DumpOf(key, t);
      && |d.buckets| == NEW_BUCKET_COUNT && |d.news| == t.nNew && d.nKey == key && t.nTried >= 0
      && var t1 := LoadedTried(net, d, |d.trieds|);
      && SameButRefs(t1, Loaded(net, d))
      && (forall x :: x in t1.mapInfo <==> 0 <= x < t.nNew + t.nTried)
      && (forall x :: x in t1.mapInfo ==> t1.mapInfo[x].fInTried == (x >= t.nNew))
  {
    hide ConsistentBut, RowsReady, DumpLists, Placed, RefsPlaced, SameButRefs, TriedPlaced, Lists, NoneHeld;
    var N, R := NewIdList(t.mapInfo), TriedIdList(t.mapInfo);
    ListsOf(net, key, t);
    DumpReady(net, key, t, N, R);
    var d := DumpOf(key, t);
    TriedStage(net, d, t, N, R, |R|);
    var t1 := LoadedTried(net, d, |R|);
    assert R[..|R|] == R;
    RefsStart(t1, t.mapInfo, t.vvNew, N, N + R, |N|);
    RefStage(net, d, t.vvNew, N, |t.vvNew|);
    PlacedIds(t1, t.mapInfo, N + R, |N|);
  }

  /** A dump of consistent tables with another number of rows reads back as consistent tables exactly
      if the rows mention known ids only and no default bucket receives more than 64 entries. */
  lemma ForeignConsistentIff(net: Net, key: seq<Byte>, t: Tables, rows: seq<seq<int>>)
    requires Consistent(net, key, t) && |rows| != NEW_BUCKET_COUNT
    ensures HeldListed(t.mapInfo, t.vvNew)
    ensures var d := DumpOf(key, t).(buckets := rows);
      Consistent(net, key, Loaded(net, d))
      <==> && KnownRows(rows, t.nNew + t.nTried)
           && forall c | 0 <= c < NEW_BUCKET_COUNT :: |Defaults(net, d, c)| <= NEW_BUCKET_SIZE
  {
    hide ConsistentBut, DumpOf, LoadedTried, SameButRefs, OneEach, DefaultBucket, Defaults, NewOk, KnownRows, HeldListed;
    BeforeRows(net, key, t);
    RoundTripConsistent(net, key, t);
    var d0 := DumpOf(key, t);
    var d := d0.(buckets := rows);
    var n, m := |d.trieds|, t.nNew + t.nTried;
    var t1, t2, f := LoadedTried(net, d0, n), LoadedTried(net, d, n), Loaded(net, d0);
    TriedRefs(net, d0, d, n);
    SameIds(t1, t2);
    LoadedRows(net, d, m);
    OnlyRefsMatter(net, key, t1, f, t2);
    DefaultsFitIff(net, d, t2, m);
    if !KnownRows(rows, m) {
      var x :| x in Loaded(net, d).mapInfo && Loaded(net, d).mapInfo[x] == DefaultInfo();
      DefaultIsBad(net, key, Loaded(net, d), x);
    }
  }

  lemma SameIds(t1: Tables, t2: Tables)
    requires SameButRefs(t1, t2)
    ensures forall x :: x in t2.mapInfo <==> x in t1.mapInfo
    ensures forall x :: x in t2.mapInfo ==> x in t1.mapInfo && t2.mapInfo[x].fInTried == t1.mapInfo[x].fInTried
  {
  }
}
