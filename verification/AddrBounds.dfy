/** The design goals stated at the top of `src/addrman.h`: the table is bounded, and no address
    range can take more than a small share of it. */
module AddrBounds {
  import opened NetTypes
  import opened Arithmetic
  import opened AddrTables

  /** The ids in a row of buckets. */
  ghost function IdsIn(vv: seq<set<int>>): (r: set<int>) {
    if vv == [] then {} else IdsIn(vv[..|vv| - 1]) + vv[|vv| - 1]
  }

  lemma {:induction false} IdsInBound(vv: seq<set<int>>, size: nat)
    requires forall b :: 0 <= b < |vv| ==> |vv[b]| <= size
    ensures |IdsIn(vv)| <= size * |vv|
    ensures forall b :: 0 <= b < |vv| ==> vv[b] <= IdsIn(vv)
  {
    if vv != [] {
      var n := |vv| - 1;
      IdsInBound(vv[..n], size);
      MulStep(size, n);
      forall b | 0 <= b < |vv| ensures vv[b] <= IdsIn(vv) {
        if b < n { assert vv[..n][b] <= IdsIn(vv[..n]); }
      }
    }
  }

  lemma MulStep(size: nat, n: nat)
    ensures size * n + size == size * (n + 1)
  {
  }

  ghost function Elements(q: seq<int>): (r: set<int>) {
    set x | x in q
  }

  lemma {:induction false} ElementsCard(q: seq<int>)
    ensures |Elements(q)| <= |q|
    ensures Distinct(q) ==> |Elements(q)| == |q|
  {
    if q != [] {
      var n := |q| - 1;
      ElementsCard(q[..n]);
      assert Elements(q) == Elements(q[..n]) + {q[n]};
    }
  }

  /** vRandom lists every entry once. */
  lemma RandomListsAll(info: map<int, AddrInfo>, random: seq<int>)
    requires RandomOk(info, random)
    ensures |random| == |info| && Elements(random) == info.Keys
  {
    forall x ensures x in Elements(random) <==> x in info {
      if x in info { assert random[info[x].nRandomPos] == x; }
    }
    assert Elements(random) == info.Keys;
    assert Distinct(random);
    ElementsCard(random);
    assert |info.Keys| == |info|;
  }

  ghost function Rows(vv: seq<seq<int>>): (rows: seq<set<int>>)
    ensures |rows| == |vv| && forall b :: 0 <= b < |vv| ==> rows[b] == Elements(vv[b])
  {
    seq(|vv|, b requires 0 <= b < |vv| => Elements(vv[b]))
  }

  lemma RowsBound(vv: seq<seq<int>>, size: nat)
    requires forall b :: 0 <= b < |vv| ==> |vv[b]| <= size
    ensures |IdsIn(Rows(vv))| <= size * |vv|
    ensures forall b, x :: 0 <= b < |vv| && x in vv[b] ==> x in IdsIn(Rows(vv))
  {
    forall b | 0 <= b < |vv| ensures |Rows(vv)[b]| <= size {
      ElementsCard(vv[b]);
    }
    IdsInBound(Rows(vv), size);
    forall b, x | 0 <= b < |vv| && x in vv[b] ensures x in IdsIn(Rows(vv)) {
      assert x in Rows(vv)[b] && Rows(vv)[b] <= IdsIn(Rows(vv));
    }
  }

  /** The manager never holds more than 64*64 tried and 256*64 new addresses, and the counters
      add up to the length of vRandom. */
  lemma TableIsBounded(net: Net, key: seq<Byte>, t: Tables)
    requires Consistent(net, key, t)
    ensures |t.vRandom| == t.nTried + t.nNew == |t.mapInfo|
    ensures t.nTried <= TRIED_BUCKET_COUNT * TRIED_BUCKET_SIZE
    ensures t.nNew <= NEW_BUCKET_COUNT * NEW_BUCKET_SIZE
  {
    RandomListsAll(t.mapInfo, t.vRandom);
    IdsSplit(t.mapInfo);
    hide RandomOk, IndexOk;
    TriedIdsHeld(net, key, t.mapInfo, t.vvTried);
    RowsBound(t.vvTried, TRIED_BUCKET_SIZE);
    SubsetCard(TriedIds(t.mapInfo), IdsIn(Rows(t.vvTried)));
    NewIdsHeld(t.mapInfo, t.vvNew);
    IdsInBound(t.vvNew, NEW_BUCKET_SIZE);
    SubsetCard(NewIds(t.mapInfo), IdsIn(t.vvNew));
  }

  lemma TriedIdsHeld(net: Net, key: seq<Byte>, info: map<int, AddrInfo>, vv: seq<seq<int>>)
    requires TriedOk(net, key, info, vv)
    ensures TriedIds(info) <= IdsIn(Rows(vv))
  {
    RowsBound(vv, TRIED_BUCKET_SIZE);
    forall id | id in TriedIds(info) ensures id in IdsIn(Rows(vv)) {
      assert id in vv[TriedBucket(net, key, info[id].addr)];
    }
  }

  lemma NewIdsHeld(info: map<int, AddrInfo>, vv: seq<set<int>>)
    requires NewOk(info, vv, NONE) && NONE !in info
    ensures NewIds(info) <= IdsIn(vv)
  {
    IdsInBound(vv, NEW_BUCKET_SIZE);
    forall id | id in NewIds(info) ensures id in IdsIn(vv) {
      assert RefCountOk(info, vv, id, NONE);
      RefCountZero(vv, id);
      var b :| 0 <= b < |vv| && id in vv[b];
      assert vv[b] <= IdsIn(vv);
    }
  }

  /** The tried entries whose address lies in one group. */
  ghost function TriedOfGroup(net: Net, info: map<int, AddrInfo>, g: seq<Byte>): (r: set<int>) {
    set id | id in info && info[id].fInTried && net.group(info[id].addr.net) == g
  }

  /** The k-th tried bucket open to group g. */
  function GroupBucket(net: Net, key: seq<Byte>, g: seq<Byte>, k: Byte): (b: nat)
    ensures b < TRIED_BUCKET_COUNT
  {
    net.hash([key, g, [k]]) % TRIED_BUCKET_COUNT
  }

  /** Addresses of one group can fill at most four tried buckets: 256 entries in all. */
  lemma GroupHoldsFewTried(net: Net, key: seq<Byte>, t: Tables, g: seq<Byte>)
    requires Consistent(net, key, t)
    ensures |TriedOfGroup(net, t.mapInfo, g)| <= TRIED_BUCKETS_PER_GROUP * TRIED_BUCKET_SIZE
  {
    hide RandomOk, IndexOk, NewOk;
    var four := [t.vvTried[GroupBucket(net, key, g, 0)], t.vvTried[GroupBucket(net, key, g, 1)],
                 t.vvTried[GroupBucket(net, key, g, 2)], t.vvTried[GroupBucket(net, key, g, 3)]];
    RowsBound(four, TRIED_BUCKET_SIZE);
    var s := TriedOfGroup(net, t.mapInfo, g);
    forall id | id in s ensures id in IdsIn(Rows(four)) {
      var k := net.hash([key, t.mapInfo[id].addr.Key()]) % TRIED_BUCKETS_PER_GROUP;
      assert TriedBucket(net, key, t.mapInfo[id].addr) == GroupBucket(net, key, g, k);
      assert id in four[k];
    }
    SubsetCard(s, IdsIn(Rows(four)));
  }

  /** The new buckets that addresses learned from one source group can reach. */
  ghost function SourceBuckets(net: Net, key: seq<Byte>, source: NetAddr, n: nat): (r: set<nat>)
    requires n <= NEW_BUCKETS_PER_SOURCE_GROUP
  {
    if n == 0 then {}
    else SourceBuckets(net, key, source, n - 1) + {net.hash([key, net.group(source), [n - 1]]) % NEW_BUCKET_COUNT}
  }

  lemma {:induction false} SourceReaches(net: Net, key: seq<Byte>, source: NetAddr, n: nat, k: nat)
    requires k < n <= NEW_BUCKETS_PER_SOURCE_GROUP
    ensures |SourceBuckets(net, key, source, n)| <= n
    ensures net.hash([key, net.group(source), [k]]) % NEW_BUCKET_COUNT in SourceBuckets(net, key, source, n)
  {
    if n > 1 {
      SourceReaches(net, key, source, n - 1, if k == n - 1 then 0 else k);
    } else {
      assert SourceBuckets(net, key, source, 0) == {};
    }
  }

  /** Whatever addresses one source announces, they go to at most 32 of the 256 new buckets. */
  lemma SourceFillsFewBuckets(net: Net, key: seq<Byte>, source: NetAddr)
    ensures |SourceBuckets(net, key, source, NEW_BUCKETS_PER_SOURCE_GROUP)| <= NEW_BUCKETS_PER_SOURCE_GROUP
    ensures forall a :: NewBucket(net, key, a, source) in SourceBuckets(net, key, source, NEW_BUCKETS_PER_SOURCE_GROUP)
  {
    SourceReaches(net, key, source, NEW_BUCKETS_PER_SOURCE_GROUP, 0);
    forall a ensures NewBucket(net, key, a, source) in SourceBuckets(net, key, source, NEW_BUCKETS_PER_SOURCE_GROUP) {
      var k := net.hash([key, net.group(a), net.group(source)]) % NEW_BUCKETS_PER_SOURCE_GROUP;
      SourceReaches(net, key, source, NEW_BUCKETS_PER_SOURCE_GROUP, k);
    }
  }
}
