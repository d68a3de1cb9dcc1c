/** The redundant tables of `CAddrMan` as one value, the consistency they must keep, and the
    table transitions that the methods of the class carry out field by field. */
module AddrTables {
  import opened NetTypes

  datatype Tables = Tables(
    nIdCount: int,
    mapInfo: map<int, AddrInfo>,
    mapAddr: map<NetAddr, int>,
    vRandom: seq<int>,
    nTried: int,
    vvTried: seq<seq<int>>,
    nNew: int,
    vvNew: seq<set<int>>)

  /** In how many of the buckets `vv` the id occurs. */
  function RefCount(vv: seq<set<int>>, id: int): (r: nat) {
    if vv == [] then 0
    else RefCount(vv[..|vv| - 1], id) + if id in vv[|vv| - 1] then 1 else 0
  }

  ghost function NewIds(info: map<int, AddrInfo>): (r: set<int>) {
    set id | id in info && !info[id].fInTried
  }

  ghost function TriedIds(info: map<int, AddrInfo>): (r: set<int>) {
    set id | id in info && info[id].fInTried
  }

  predicate Distinct(q: seq<int>) {
    forall i, j :: 0 <= i < j < |q| ==> q[i] != q[j]
  }

  // ---- Consistency -----------------------------------------------------------------------

  ghost predicate IdsOk(info: map<int, AddrInfo>, nIdCount: int) {
    0 <= nIdCount && forall id :: id in info ==> 0 <= id < nIdCount
  }

  /** mapAddr is the inverse of "the address of this id". */
  ghost predicate IndexOk(info: map<int, AddrInfo>, mapAddr: map<NetAddr, int>) {
    && (forall id :: id in info ==> info[id].addr.net in mapAddr && mapAddr[info[id].addr.net] == id)
    && (forall a :: a in mapAddr ==> mapAddr[a] in info && info[mapAddr[a]].addr.net == a)
  }

  /** vRandom and nRandomPos are mutually inverse. */
  ghost predicate RandomOk(info: map<int, AddrInfo>, vRandom: seq<int>) {
    && (forall id :: id in info ==> 0 <= info[id].nRandomPos < |vRandom| && vRandom[info[id].nRandomPos] == id)
    && (forall k :: 0 <= k < |vRandom| ==> vRandom[k] in info && info[vRandom[k]].nRandomPos == k)
  }

  /** Every tried id lies once in exactly the bucket its address hashes to, and nothing else does. */
  ghost predicate TriedOk(net: Net, key: seq<Byte>, info: map<int, AddrInfo>, vvTried: seq<seq<int>>) {
    && |vvTried| == TRIED_BUCKET_COUNT
    && (forall b :: 0 <= b < |vvTried| ==> |vvTried[b]| <= TRIED_BUCKET_SIZE && Distinct(vvTried[b]))
    && (forall b, id :: 0 <= b < |vvTried| && id in vvTried[b] ==>
          id in info && info[id].fInTried && TriedBucket(net, key, info[id].addr) == b)
    && (forall id :: id in info && info[id].fInTried ==> id in vvTried[TriedBucket(net, key, info[id].addr)])
  }

  /** The reference count of one entry; a `pending` entry is counted once more than it is held. */
  ghost predicate RefCountOk(info: map<int, AddrInfo>, vv: seq<set<int>>, id: int, pending: int)
    requires id in info
  {
    if info[id].fInTried then info[id].nRefCount == 0
    else
      && 1 <= info[id].nRefCount <= NEW_BUCKETS_PER_ADDRESS
      && info[id].nRefCount == RefCount(vv, id) + if id == pending then 1 else 0
  }

  /** Reference counts are the numbers of new buckets holding the id; the `pending` id (if any)
      is counted once more than it is held. */
  ghost predicate NewOk(info: map<int, AddrInfo>, vvNew: seq<set<int>>, pending: int) {
    && |vvNew| == NEW_BUCKET_COUNT
    && (forall b :: 0 <= b < |vvNew| ==> |vvNew[b]| <= NEW_BUCKET_SIZE)
    && (forall b, id :: 0 <= b < |vvNew| && id in vvNew[b] ==> id in info && !info[id].fInTried)
    && (forall id :: id in info ==> RefCountOk(info, vvNew, id, pending))
  }

  ghost predicate CountsOk(info: map<int, AddrInfo>, nTried: int, nNew: int) {
    nTried == |TriedIds(info)| && nNew == |NewIds(info)|
  }

  ghost predicate ConsistentBut(net: Net, key: seq<Byte>, t: Tables, pending: int) {
    && IdsOk(t.mapInfo, t.nIdCount)
    && IndexOk(t.mapInfo, t.mapAddr)
    && RandomOk(t.mapInfo, t.vRandom)
    && TriedOk(net, key, t.mapInfo, t.vvTried)
    && NewOk(t.mapInfo, t.vvNew, pending)
    && CountsOk(t.mapInfo, t.nTried, t.nNew)
  }

  const NONE := -1

  /** What every public operation keeps. */
  ghost predicate Consistent(net: Net, key: seq<Byte>, t: Tables) {
    ConsistentBut(net, key, t, NONE)
  }

  /** The part of the self-check that depends on the clock values callers pass in. */
  ghost predicate TimesOk(info: map<int, AddrInfo>) {
    forall id :: id in info ==> EntryTimesOk(info[id])
  }

  predicate EntryTimesOk(i: AddrInfo) {
    0 <= i.nLastTry && 0 <= i.nLastSuccess && (i.fInTried ==> i.nLastSuccess != 0)
  }

  // ---- Counting --------------------------------------------------------------------------

  lemma {:induction false} RefCountUpdate(vv: seq<set<int>>, b: nat, s: set<int>, id: int)
    requires b < |vv|
    ensures RefCount(vv[b := s], id) ==
            RefCount(vv, id) - (if id in vv[b] then 1 else 0) + if id in s then 1 else 0
  {
    var n := |vv| - 1;
    var vv' := vv[b := s];
    if b == n {
      assert vv'[..n] == vv[..n];
    } else {
      assert vv'[..n] == vv[..n][b := s];
      RefCountUpdate(vv[..n], b, s, id);
    }
  }

  lemma {:induction false} RefCountZero(vv: seq<set<int>>, id: int)
    ensures RefCount(vv, id) == 0 <==> forall b :: 0 <= b < |vv| ==> id !in vv[b]
  {
    if vv != [] {
      var n := |vv| - 1;
      RefCountZero(vv[..n], id);
      assert forall b :: 0 <= b < n ==> vv[..n][b] == vv[b];
    }
  }

  /** The counters only look at the tried flag. */
  lemma SameFlags(info: map<int, AddrInfo>, info': map<int, AddrInfo>)
    requires forall id :: id in info' <==> id in info
    requires forall id :: id in info ==> info'[id].fInTried == info[id].fInTried
    ensures NewIds(info') == NewIds(info) && TriedIds(info') == TriedIds(info)
  {
    assert forall id :: id in NewIds(info') <==> id in NewIds(info);
    assert forall id :: id in TriedIds(info') <==> id in TriedIds(info);
  }

  lemma IdsSplit(info: map<int, AddrInfo>)
    ensures NewIds(info) + TriedIds(info) == info.Keys
    ensures |NewIds(info)| + |TriedIds(info)| == |info|
  {
    assert NewIds(info) !! TriedIds(info);
    assert NewIds(info) + TriedIds(info) == info.Keys;
  }

  // ---- Statistics and positions do not matter --------------------------------------------

  /** Same ids, addresses, tried flags and reference counts. */
  ghost predicate SameShape(info: map<int, AddrInfo>, info': map<int, AddrInfo>) {
    && (forall id :: id in info' <==> id in info)
    && (forall id :: id in info ==>
          && info'[id].addr == info[id].addr
          && info'[id].fInTried == info[id].fInTried
          && info'[id].nRefCount == info[id].nRefCount)
  }

  lemma ShapeKeeps(net: Net, key: seq<Byte>, t: Tables, info': map<int, AddrInfo>, pending: int)
    requires ConsistentBut(net, key, t, pending) && SameShape(t.mapInfo, info')
    ensures IdsOk(info', t.nIdCount)
    ensures IndexOk(info', t.mapAddr)
    ensures TriedOk(net, key, info', t.vvTried)
    ensures NewOk(info', t.vvNew, pending)
    ensures CountsOk(info', t.nTried, t.nNew)
  {
    ShapeNewOk(t.mapInfo, info', t.vvNew, pending);
    ShapeIndexOk(t.mapInfo, info', t.mapAddr);
    hide NewOk, RandomOk, IndexOk;
    SameFlags(t.mapInfo, info');
    SameTriedKeeps(net, key, t.mapInfo, info', t.vvTried);
  }

  lemma ShapeIndexOk(info: map<int, AddrInfo>, info': map<int, AddrInfo>, byAddr: map<NetAddr, int>)
    requires IndexOk(info, byAddr) && SameShape(info, info')
    ensures IndexOk(info', byAddr)
  {
    forall a | a in byAddr ensures byAddr[a] in info' && info'[byAddr[a]].addr.net == a {
      var id := byAddr[a];
      assert id in info && info[id].addr.net == a;
      assert id in info';
    }
  }

  lemma ShapeNewOk(info: map<int, AddrInfo>, info': map<int, AddrInfo>, vv: seq<set<int>>, pending: int)
    requires NewOk(info, vv, pending) && SameShape(info, info')
    ensures NewOk(info', vv, pending)
  {
    forall id | id in info' ensures RefCountOk(info', vv, id, pending) {
      assert RefCountOk(info, vv, id, pending);
    }
  }

  /** Rewriting the statistics of one entry keeps everything. */
  lemma StatsKeep(net: Net, key: seq<Byte>, t: Tables, id: int, i: AddrInfo, pending: int)
    requires ConsistentBut(net, key, t, pending) && id in t.mapInfo
    requires i.addr == t.mapInfo[id].addr && i.fInTried == t.mapInfo[id].fInTried
    requires i.nRefCount == t.mapInfo[id].nRefCount && i.nRandomPos == t.mapInfo[id].nRandomPos
    ensures ConsistentBut(net, key, t.(mapInfo := t.mapInfo[id := i]), pending)
  {
    ShapeKeeps(net, key, t, t.mapInfo[id := i], pending);
  }

  // ---- SwapRandom ------------------------------------------------------------------------

  function SetPos(info: map<int, AddrInfo>, id: int, p: int): (r: map<int, AddrInfo>)
    requires id in info
  {
    info[id := info[id].(nRandomPos := p)]
  }

  /** The tables after positions p and q of vRandom changed places. */
  function Swapped(t: Tables, p: nat, q: nat): (r: Tables)
    requires p < |t.vRandom| && q < |t.vRandom|
    requires t.vRandom[p] in t.mapInfo && t.vRandom[q] in t.mapInfo
  {
    if p == q then t else
      t.(mapInfo := SetPos(SetPos(t.mapInfo, t.vRandom[p], q), t.vRandom[q], p),
         vRandom := t.vRandom[p := t.vRandom[q]][q := t.vRandom[p]])
  }

  /** Only positions in vRandom differ. */
  ghost predicate SameButPos(info: map<int, AddrInfo>, info': map<int, AddrInfo>) {
    && (forall id :: id in info' <==> id in info)
    && (forall id :: id in info ==> info'[id] == info[id].(nRandomPos := info'[id].nRandomPos))
  }

  lemma SwapRandomOk(t: Tables, p: nat, q: nat)
    requires RandomOk(t.mapInfo, t.vRandom)
    requires p < |t.vRandom| && q < |t.vRandom|
    ensures RandomOk(Swapped(t, p, q).mapInfo, Swapped(t, p, q).vRandom)
    ensures SameButPos(t.mapInfo, Swapped(t, p, q).mapInfo)
    ensures |Swapped(t, p, q).vRandom| == |t.vRandom| && Swapped(t, p, q).vRandom[q] == t.vRandom[p]
  {
    if p != q {
      var id1, id2 := t.vRandom[p], t.vRandom[q];
      var info', random' := Swapped(t, p, q).mapInfo, Swapped(t, p, q).vRandom;
      assert id1 != id2;
      assert random'[p] == id2 && random'[q] == id1;
      assert info'[id1] == t.mapInfo[id1].(nRandomPos := q);
      assert info'[id2] == t.mapInfo[id2].(nRandomPos := p);
      forall id | id in info'
        ensures 0 <= info'[id].nRandomPos < |random'| && random'[info'[id].nRandomPos] == id
      {
        if id != id1 && id != id2 {
          assert info'[id] == t.mapInfo[id];
        }
      }
      forall k | 0 <= k < |random'|
        ensures random'[k] in info' && info'[random'[k]].nRandomPos == k
      {
        if k != p && k != q {
          assert random'[k] == t.vRandom[k];
          assert random'[k] != id1 && random'[k] != id2;
        }
      }
    }
  }

  lemma SwapPermutes(t: Tables, p: nat, q: nat)
    requires p < |t.vRandom| && q < |t.vRandom|
    requires t.vRandom[p] in t.mapInfo && t.vRandom[q] in t.mapInfo
    ensures Permuted(t.vRandom, Swapped(t, p, q).vRandom)
  {
  }

  lemma SwapKeeps(net: Net, key: seq<Byte>, t: Tables, p: nat, q: nat, pending: int)
    requires ConsistentBut(net, key, t, pending)
    requires p < |t.vRandom| && q < |t.vRandom|
    ensures ConsistentBut(net, key, Swapped(t, p, q), pending)
  {
    SwapRandomOk(t, p, q);
    ShapeKeeps(net, key, t, Swapped(t, p, q).mapInfo, pending);
  }

  // ---- Dropping an id from a new bucket (ShrinkNew) --------------------------------------

  /** Remove id from vRandom by moving the last element into its place. */
  function Unlisted(t: Tables, id: int): (r: Tables)
    requires id in t.mapInfo && RandomOk(t.mapInfo, t.vRandom)
  {
    var s := Swapped(t, t.mapInfo[id].nRandomPos, |t.vRandom| - 1);
    s.(vRandom := s.vRandom[..|s.vRandom| - 1], mapInfo := s.mapInfo - {id})
  }

  lemma PopRandomOk(info: map<int, AddrInfo>, random: seq<int>)
    requires RandomOk(info, random) && random != []
    ensures RandomOk(info - {random[|random| - 1]}, random[..|random| - 1])
  {
    var n := |random| - 1;
    var info', random' := info - {random[n]}, random[..n];
    forall id | id in info'
      ensures 0 <= info'[id].nRandomPos < n && random'[info'[id].nRandomPos] == id
    {
      assert info'[id] == info[id];
    }
    forall k | 0 <= k < n ensures random'[k] in info' && info'[random'[k]].nRandomPos == k {
      assert random'[k] == random[k];
      assert info[random[k]].nRandomPos == k;
    }
  }

  lemma PositionOf(t: Tables, id: int)
    requires id in t.mapInfo && RandomOk(t.mapInfo, t.vRandom)
    ensures 0 <= t.mapInfo[id].nRandomPos < |t.vRandom| && t.vRandom[t.mapInfo[id].nRandomPos] == id
    ensures t.vRandom[|t.vRandom| - 1] in t.mapInfo
  {
  }

  lemma UnlistedOk(t: Tables, id: int)
    requires id in t.mapInfo && RandomOk(t.mapInfo, t.vRandom)
    ensures RandomOk(Unlisted(t, id).mapInfo, Unlisted(t, id).vRandom)
    ensures SameButPos(t.mapInfo - {id}, Unlisted(t, id).mapInfo)
  {
    hide RandomOk, SameButPos, Swapped;
    PositionOf(t, id);
    var p := t.mapInfo[id].nRandomPos;
    var s := Swapped(t, p, |t.vRandom| - 1);
    SwapRandomOk(t, p, |t.vRandom| - 1);
    PopRandomOk(s.mapInfo, s.vRandom);
    MinusSameButPos(t.mapInfo, s.mapInfo, id);
  }

  lemma MinusSameButPos(info: map<int, AddrInfo>, info': map<int, AddrInfo>, id: int)
    requires SameButPos(info, info')
    ensures SameButPos(info - {id}, info' - {id})
  {
  }

  lemma MinusSameTried(info: map<int, AddrInfo>, info': map<int, AddrInfo>, id: int)
    requires id in info && !info[id].fInTried && SameButPos(info - {id}, info')
    ensures SameTried(info, info') && forall x :: x in info' <==> x in info && x != id
  {
    forall x ensures x in info' <==> x in info && x != id {
      assert x in info' <==> x in info - {id};
    }
  }

  /** One reference to id leaves new bucket b; with the last reference the entry is deleted. */
  function Dropped(t: Tables, id: int, b: nat): (r: Tables)
    requires id in t.mapInfo && b < |t.vvNew|
    requires RandomOk(t.mapInfo, t.vRandom)
  {
    var i := t.mapInfo[id];
    var t' := t.(vvNew := t.vvNew[b := t.vvNew[b] - {id}]);
    if i.nRefCount != 1 then t'.(mapInfo := t.mapInfo[id := i.(nRefCount := i.nRefCount - 1)])
    else Unlisted(t'.(mapAddr := t.mapAddr - {i.addr.net}, nNew := t.nNew - 1), id)
  }

  lemma DropCounts(vv: seq<set<int>>, b: nat, id: int)
    requires b < |vv| && id in vv[b]
    ensures forall x :: RefCount(vv[b := vv[b] - {id}], x) == RefCount(vv, x) - if x == id then 1 else 0
    ensures RefCount(vv, id) == 1 ==> forall s :: s in vv[b := vv[b] - {id}] ==> id !in s
  {
    var vv' := vv[b := vv[b] - {id}];
    forall x ensures RefCount(vv', x) == RefCount(vv, x) - if x == id then 1 else 0 {
      RefCountUpdate(vv, b, vv[b] - {id}, x);
    }
    RefCountZero(vv', id);
  }

  /** Same tried entries. */
  ghost predicate SameTried(info: map<int, AddrInfo>, info': map<int, AddrInfo>) {
    && (forall id :: id in info' && info'[id].fInTried ==> id in info && info[id].fInTried)
    && (forall id :: id in info && info[id].fInTried ==>
          id in info' && info'[id].fInTried && info'[id].addr == info[id].addr)
  }

  lemma SameTriedKeeps(net: Net, key: seq<Byte>, info: map<int, AddrInfo>, info': map<int, AddrInfo>, vv: seq<seq<int>>)
    requires TriedOk(net, key, info, vv) && SameTried(info, info')
    ensures TriedOk(net, key, info', vv) && TriedIds(info') == TriedIds(info)
  {
    assert forall id :: id in TriedIds(info') <==> id in TriedIds(info);
  }

  lemma DeleteIndexOk(info: map<int, AddrInfo>, info': map<int, AddrInfo>, byAddr: map<NetAddr, int>, id: int)
    requires IndexOk(info, byAddr) && id in info && SameButPos(info - {id}, info')
    ensures IndexOk(info', byAddr - {info[id].addr.net})
  {
    forall x | x in info'
      ensures info'[x].addr.net in byAddr - {info[id].addr.net} && byAddr[info'[x].addr.net] == x
    {
      assert x in info - {id};
    }
    forall a | a in byAddr - {info[id].addr.net}
      ensures byAddr[a] in info' && info'[byAddr[a]].addr.net == a
    {
      var x := byAddr[a];
      assert info[x].addr.net == a && x != id;
      assert x in info - {id};
    }
  }

  lemma DeleteNewOk(info: map<int, AddrInfo>, info': map<int, AddrInfo>, vv: seq<set<int>>, b: nat, id: int, pending: int)
    requires NewOk(info, vv, pending) && id in info && id != pending && SameButPos(info - {id}, info')
    requires b < |vv| && id in vv[b] && info[id].nRefCount == 1
    ensures NewOk(info', vv[b := vv[b] - {id}], pending)
    ensures NewIds(info') == NewIds(info) - {id}
  {
    var vv' := vv[b := vv[b] - {id}];
    DropCounts(vv, b, id);
    forall c, x | 0 <= c < |vv'| && x in vv'[c] ensures x in info' && !info'[x].fInTried {
      assert x != id by { assert vv'[c] in vv'; }
      assert x in vv[c];
      assert x in info - {id};
    }
    forall x | x in info'
      ensures RefCountOk(info', vv', x, pending)
    {
      assert RefCountOk(info, vv, x, pending);
      assert x in info - {id};
      assert RefCount(vv', x) == RefCount(vv, x);
    }
    assert forall x :: x in NewIds(info') <==> x in NewIds(info) - {id};
  }

  lemma DecrementNewOk(info: map<int, AddrInfo>, vv: seq<set<int>>, b: nat, id: int, pending: int)
    requires NewOk(info, vv, pending) && id in info && id != pending
    requires b < |vv| && id in vv[b] && info[id].nRefCount != 1
    ensures NewOk(info[id := info[id].(nRefCount := info[id].nRefCount - 1)], vv[b := vv[b] - {id}], pending)
  {
    var vv' := vv[b := vv[b] - {id}];
    DropCounts(vv, b, id);
    forall c, x | 0 <= c < |vv'| && x in vv'[c] ensures x in info && !info[x].fInTried {
      assert x in vv[c];
    }
  }

  lemma DroppedFields(t: Tables, id: int, b: nat)
    requires id in t.mapInfo && b < |t.vvNew| && RandomOk(t.mapInfo, t.vRandom) && t.mapInfo[id].nRefCount == 1
    ensures var t' := Dropped(t, id, b);
      t' == t.(mapInfo := t'.mapInfo, vRandom := t'.vRandom, mapAddr := t.mapAddr - {t.mapInfo[id].addr.net},
               nNew := t.nNew - 1, vvNew := t.vvNew[b := t.vvNew[b] - {id}])
  {
  }

  lemma DeleteKeeps(net: Net, key: seq<Byte>, t: Tables, id: int, b: nat, pending: int)
    requires ConsistentBut(net, key, t, pending)
    requires b < |t.vvNew| && id in t.vvNew[b] && id != pending
    requires id in t.mapInfo && !t.mapInfo[id].fInTried && t.mapInfo[id].nRefCount == 1
    ensures ConsistentBut(net, key, Dropped(t, id, b), pending)
  {
    hide IndexOk, NewOk, TriedOk, RandomOk, SameButPos, SameTried, Swapped;
    var t' := Dropped(t, id, b);
    UnlistedOk(t.(vvNew := t'.vvNew, mapAddr := t'.mapAddr, nNew := t'.nNew), id);
    DroppedFields(t, id, b);
    DeleteIndexOk(t.mapInfo, t'.mapInfo, t.mapAddr, id);
    DeleteNewOk(t.mapInfo, t'.mapInfo, t.vvNew, b, id, pending);
    MinusSameTried(t.mapInfo, t'.mapInfo, id);
    SameTriedKeeps(net, key, t.mapInfo, t'.mapInfo, t.vvTried);
  }

  /** Rewriting one entry leaves the indexes intact as long as address and position stay. */
  lemma IndexesKeep(info: map<int, AddrInfo>, byAddr: map<NetAddr, int>, random: seq<int>, id: int, i: AddrInfo)
    requires IndexOk(info, byAddr) && RandomOk(info, random) && id in info
    requires i.addr == info[id].addr && i.nRandomPos == info[id].nRandomPos
    ensures IndexOk(info[id := i], byAddr) && RandomOk(info[id := i], random)
  {
  }

  lemma DecrementKeeps(net: Net, key: seq<Byte>, t: Tables, id: int, b: nat, pending: int)
    requires ConsistentBut(net, key, t, pending)
    requires b < |t.vvNew| && id in t.vvNew[b] && id != pending
    requires id in t.mapInfo && t.mapInfo[id].nRefCount != 1
    ensures ConsistentBut(net, key, Dropped(t, id, b), pending)
  {
    hide IndexOk, RandomOk, NewOk, TriedOk;
    var t' := Dropped(t, id, b);
    IndexesKeep(t.mapInfo, t.mapAddr, t.vRandom, id, t'.mapInfo[id]);
    DecrementNewOk(t.mapInfo, t.vvNew, b, id, pending);
    SameFlags(t.mapInfo, t'.mapInfo);
    SameTriedKeeps(net, key, t.mapInfo, t'.mapInfo, t.vvTried);
  }

  lemma DropKeeps(net: Net, key: seq<Byte>, t: Tables, id: int, b: nat, pending: int)
    requires ConsistentBut(net, key, t, pending)
    requires b < NEW_BUCKET_COUNT && id in t.vvNew[b] && id != pending
    ensures ConsistentBut(net, key, Dropped(t, id, b), pending)
  {
    if t.mapInfo[id].nRefCount == 1 {
      DeleteKeeps(net, key, t, id, b, pending);
    } else {
      DecrementKeeps(net, key, t, id, b, pending);
    }
  }

  // ---- Adding a reference (Add_) ---------------------------------------------------------

  function SetRefs(info: map<int, AddrInfo>, id: int, n: int): (r: map<int, AddrInfo>)
    requires id in info
  {
    info[id := info[id].(nRefCount := n)]
  }

  /** The entry is counted once more, before any bucket holds the extra reference. */
  function Counted(t: Tables, id: int): (r: Tables)
    requires id in t.mapInfo
  {
    t.(mapInfo := SetRefs(t.mapInfo, id, t.mapInfo[id].nRefCount + 1))
  }

  lemma CountedKeeps(net: Net, key: seq<Byte>, t: Tables, id: int)
    requires Consistent(net, key, t) && id in t.mapInfo
    requires !t.mapInfo[id].fInTried && t.mapInfo[id].nRefCount < NEW_BUCKETS_PER_ADDRESS
    ensures ConsistentBut(net, key, Counted(t, id), id)
  {
    var t' := Counted(t, id);
    CountedNewOk(t.mapInfo, t.vvNew, id);
    hide IndexOk, RandomOk, NewOk, TriedOk;
    IndexesKeep(t.mapInfo, t.mapAddr, t.vRandom, id, t'.mapInfo[id]);
    SameFlags(t.mapInfo, t'.mapInfo);
    SameTriedKeeps(net, key, t.mapInfo, t'.mapInfo, t.vvTried);
  }

  lemma CountedNewOk(info: map<int, AddrInfo>, vv: seq<set<int>>, id: int)
    requires NewOk(info, vv, NONE) && id in info && NONE !in info
    requires !info[id].fInTried && info[id].nRefCount < NEW_BUCKETS_PER_ADDRESS
    ensures NewOk(SetRefs(info, id, info[id].nRefCount + 1), vv, id)
  {
    var info' := SetRefs(info, id, info[id].nRefCount + 1);
    forall x | x in info'
      ensures RefCountOk(info', vv, x, id)
    {
      assert RefCountOk(info, vv, x, NONE);
    }
  }

  /** A never-seen address gets an id, a place in vRandom and its first (pending) reference. */
  function Created(t: Tables, i: AddrInfo): (r: Tables) {
    var id := t.nIdCount;
    t.(nIdCount := id + 1,
       mapInfo := t.mapInfo[id := i.(nRandomPos := |t.vRandom|, nRefCount := 1, fInTried := false)],
       mapAddr := t.mapAddr[i.addr.net := id],
       vRandom := t.vRandom + [id],
       nNew := t.nNew + 1)
  }

  lemma CreatedIndexes(t: Tables, i: AddrInfo)
    requires IdsOk(t.mapInfo, t.nIdCount) && IndexOk(t.mapInfo, t.mapAddr) && RandomOk(t.mapInfo, t.vRandom)
    requires i.addr.net !in t.mapAddr
    ensures IndexOk(Created(t, i).mapInfo, Created(t, i).mapAddr)
    ensures RandomOk(Created(t, i).mapInfo, Created(t, i).vRandom)
  {
    var t' := Created(t, i);
    forall k | 0 <= k < |t'.vRandom|
      ensures t'.vRandom[k] in t'.mapInfo && t'.mapInfo[t'.vRandom[k]].nRandomPos == k
    {
      if k < |t.vRandom| {
        assert t'.vRandom[k] == t.vRandom[k];
        assert t.vRandom[k] in t.mapInfo;
      }
    }
  }

  lemma CreatedNewOk(net: Net, key: seq<Byte>, t: Tables, i: AddrInfo)
    requires Consistent(net, key, t)
    ensures NewOk(Created(t, i).mapInfo, t.vvNew, t.nIdCount)
    ensures TriedOk(net, key, Created(t, i).mapInfo, t.vvTried)
    ensures CountsOk(Created(t, i).mapInfo, t.nTried, t.nNew + 1)
  {
    var id, info' := t.nIdCount, Created(t, i).mapInfo;
    assert id !in t.mapInfo;
    assert forall c, x :: 0 <= c < |t.vvNew| && x in t.vvNew[c] ==> x != id;
    RefCountZero(t.vvNew, id);
    forall x | x in info' ensures RefCountOk(info', t.vvNew, x, id) {
      assert x != id ==> RefCountOk(t.mapInfo, t.vvNew, x, NONE);
    }
    hide RandomOk, IndexOk;
    assert forall x :: x in NewIds(info') <==> x in NewIds(t.mapInfo) + {id};
    assert NewIds(info') == NewIds(t.mapInfo) + {id};
    SameTriedKeeps(net, key, t.mapInfo, info', t.vvTried);
  }

  lemma CreatedKeeps(net: Net, key: seq<Byte>, t: Tables, i: AddrInfo)
    requires Consistent(net, key, t) && i.addr.net !in t.mapAddr
    ensures ConsistentBut(net, key, Created(t, i), t.nIdCount)
  {
    CreatedIndexes(t, i);
    CreatedNewOk(net, key, t, i);
  }

  /** The pending reference is stored in bucket b. */
  function Stored(t: Tables, id: int, b: nat): (r: Tables)
    requires b < |t.vvNew|
  {
    t.(vvNew := t.vvNew[b := t.vvNew[b] + {id}])
  }

  lemma StoredKeeps(net: Net, key: seq<Byte>, t: Tables, id: int, b: nat)
    requires ConsistentBut(net, key, t, id) && id in t.mapInfo && !t.mapInfo[id].fInTried
    requires b < NEW_BUCKET_COUNT && id !in t.vvNew[b] && |t.vvNew[b]| < NEW_BUCKET_SIZE
    ensures Consistent(net, key, Stored(t, id, b))
  {
    var vv' := Stored(t, id, b).vvNew;
    forall x ensures RefCount(vv', x) == RefCount(t.vvNew, x) + if x == id then 1 else 0 {
      RefCountUpdate(t.vvNew, b, t.vvNew[b] + {id}, x);
    }
    forall c | 0 <= c < |vv'| ensures |vv'[c]| <= NEW_BUCKET_SIZE {
      assert c != b ==> vv'[c] == t.vvNew[c];
    }
    forall c, x | 0 <= c < |vv'| && x in vv'[c] ensures x in t.mapInfo && !t.mapInfo[x].fInTried {
      assert x != id ==> x in t.vvNew[c];
    }
  }

  // ---- Moving an entry to the tried table (MakeTried) ------------------------------------

  /** Every new bucket without id. */
  function Withdrawn(vv: seq<set<int>>, id: int): (vv': seq<set<int>>)
    ensures |vv'| == |vv|
  {
    seq(|vv|, c requires 0 <= c < |vv| => vv[c] - {id})
  }

  lemma {:induction false} WithdrawnCounts(vv: seq<set<int>>, id: int, x: int)
    ensures RefCount(Withdrawn(vv, id), x) == if x == id then 0 else RefCount(vv, x)
  {
    if vv != [] {
      var n := |vv| - 1;
      assert Withdrawn(vv, id)[..n] == Withdrawn(vv[..n], id);
      WithdrawnCounts(vv[..n], id, x);
    }
  }

  /** The entry record once it is tried. */
  function AsTried(i: AddrInfo): (r: AddrInfo) {
    i.(nRefCount := 0, fInTried := true)
  }

  /** The entry record once it fell back to one new bucket. */
  function AsNew(i: AddrInfo): (r: AddrInfo) {
    i.(nRefCount := 1, fInTried := false)
  }

  /** id leaves all new buckets and is appended to tried bucket b. */
  function Promoted(t: Tables, id: int, b: nat): (r: Tables)
    requires id in t.mapInfo && b < |t.vvTried|
  {
    t.(mapInfo := t.mapInfo[id := AsTried(t.mapInfo[id])],
       vvNew := Withdrawn(t.vvNew, id), nNew := t.nNew - 1,
       vvTried := t.vvTried[b := t.vvTried[b] + [id]], nTried := t.nTried + 1)
  }

  lemma PromotedTriedOk(net: Net, key: seq<Byte>, info: map<int, AddrInfo>, vv: seq<seq<int>>, id: int, b: nat)
    requires TriedOk(net, key, info, vv) && id in info && !info[id].fInTried
    requires b == TriedBucket(net, key, info[id].addr) && |vv[b]| < TRIED_BUCKET_SIZE
    ensures TriedOk(net, key, info[id := AsTried(info[id])], vv[b := vv[b] + [id]])
    ensures TriedIds(info[id := AsTried(info[id])]) == TriedIds(info) + {id}
    ensures NewIds(info[id := AsTried(info[id])]) == NewIds(info) - {id}
  {
    var info', vv' := info[id := AsTried(info[id])], vv[b := vv[b] + [id]];
    assert id !in vv[b];
    assert Distinct(vv'[b]);
    assert forall x :: x in TriedIds(info') <==> x in TriedIds(info) + {id};
    assert forall x :: x in NewIds(info') <==> x in NewIds(info) - {id};
  }

  lemma PromotedNewOk(info: map<int, AddrInfo>, vv: seq<set<int>>, id: int)
    requires NewOk(info, vv, NONE) && id in info && !info[id].fInTried
    ensures NewOk(info[id := AsTried(info[id])], Withdrawn(vv, id), NONE)
  {
    var vv' := Withdrawn(vv, id);
    forall x ensures RefCount(vv', x) == if x == id then 0 else RefCount(vv, x) {
      WithdrawnCounts(vv, id, x);
    }
    forall c, x | 0 <= c < |vv'| && x in vv'[c] ensures x in vv[c] && x != id {
    }
  }

  lemma PromotedKeeps(net: Net, key: seq<Byte>, t: Tables, id: int)
    requires Consistent(net, key, t) && id in t.mapInfo && !t.mapInfo[id].fInTried
    requires |t.vvTried[TriedBucket(net, key, t.mapInfo[id].addr)]| < TRIED_BUCKET_SIZE
    ensures Consistent(net, key, Promoted(t, id, TriedBucket(net, key, t.mapInfo[id].addr)))
  {
    hide IndexOk, RandomOk, NewOk;
    var b := TriedBucket(net, key, t.mapInfo[id].addr);
    var t' := Promoted(t, id, b);
    IndexesKeep(t.mapInfo, t.mapAddr, t.vRandom, id, t'.mapInfo[id]);
    PromotedTriedOk(net, key, t.mapInfo, t.vvTried, id, b);
    PromotedNewOk(t.mapInfo, t.vvNew, id);
  }

  /** id takes over slot pos of the (reordered) full tried bucket q; the entry that was there
      falls back into new bucket d. */
  function Exchanged(t: Tables, id: int, b: nat, q: seq<int>, pos: nat, d: nat): (r: Tables)
    requires id in t.mapInfo && b < |t.vvTried| && pos < |q| && q[pos] in t.mapInfo && d < |t.vvNew|
  {
    var e := q[pos];
    t.(mapInfo := t.mapInfo[e := AsNew(t.mapInfo[e])][id := AsTried(t.mapInfo[id])],
       vvNew := Withdrawn(t.vvNew, id)[d := Withdrawn(t.vvNew, id)[d] + {e}],
       vvTried := t.vvTried[b := q[pos := id]])
  }

  ghost predicate Permuted(p: seq<int>, q: seq<int>) {
    multiset(p) == multiset(q)
  }

  lemma SamePermutation(p: seq<int>, q: seq<int>)
    requires Permuted(p, q)
    ensures |p| == |q| && forall x :: x in p <==> x in q
    ensures Distinct(p) ==> Distinct(q)
  {
    assert |p| == |multiset(p)| == |multiset(q)| == |q|;
    assert forall x :: x in p <==> x in multiset(p);
    assert forall x :: x in q <==> x in multiset(q);
    if Distinct(p) {
      DistinctOnce(p);
      forall i, j | 0 <= i < j < |q| ensures q[i] != q[j] {
        CountAtTwo(q, i, j);
        assert q[i] in p;
      }
    }
  }

  lemma CountAtTwo(q: seq<int>, i: nat, j: nat)
    requires i < j < |q|
    ensures q[i] == q[j] ==> multiset(q)[q[i]] >= 2
  {
    assert q == q[..i] + [q[i]] + q[i + 1..j] + [q[j]] + q[j + 1..];
  }

  lemma {:induction false} DistinctOnce(p: seq<int>)
    requires Distinct(p)
    ensures forall x :: x in p ==> multiset(p)[x] == 1
  {
    if p != [] {
      var n := |p| - 1;
      DistinctOnce(p[..n]);
      assert p == p[..n] + [p[n]];
      assert p[n] !in p[..n];
    }
  }

  lemma ExchangedTriedOk(net: Net, key: seq<Byte>, info: map<int, AddrInfo>, vv: seq<seq<int>>, id: int, q: seq<int>, pos: nat)
    requires TriedOk(net, key, info, vv) && id in info && !info[id].fInTried
    requires Permuted(vv[TriedBucket(net, key, info[id].addr)], q)
    requires pos < |q| && q[pos] in info
    ensures var b := TriedBucket(net, key, info[id].addr);
      var info' := info[q[pos] := AsNew(info[q[pos]])][id := AsTried(info[id])];
      && TriedOk(net, key, info', vv[b := q[pos := id]])
      && TriedIds(info') == TriedIds(info) - {q[pos]} + {id}
      && NewIds(info') == NewIds(info) - {id} + {q[pos]}
      && info[q[pos]].fInTried
  {
    var b := TriedBucket(net, key, info[id].addr);
    var e := q[pos];
    var info', q' := info[e := AsNew(info[e])][id := AsTried(info[id])], q[pos := id];
    SamePermutation(vv[b], q);
    assert e in q;
    assert id !in q;
    forall x ensures x in q' <==> x == id || (x in vv[b] && x != e) {
      if x in q && x != e {
        var k :| 0 <= k < |q| && q[k] == x;
        assert q'[k] == x;
      }
      assert q'[pos] == id;
    }
    assert Distinct(q');
    assert forall x :: x in TriedIds(info') <==> x in TriedIds(info) - {e} + {id};
    assert forall x :: x in NewIds(info') <==> x in NewIds(info) - {id} + {e};
  }

  lemma ExchangedNewOk(info: map<int, AddrInfo>, vv: seq<set<int>>, id: int, e: int, d: nat)
    requires NewOk(info, vv, NONE) && NONE !in info
    requires id in info && !info[id].fInTried && e in info && info[e].fInTried
    requires d < |vv| && |Withdrawn(vv, id)[d]| < NEW_BUCKET_SIZE
    ensures NewOk(info[e := AsNew(info[e])][id := AsTried(info[id])], Withdrawn(vv, id)[d := Withdrawn(vv, id)[d] + {e}], NONE)
  {
    PromotedNewOk(info, vv, id);
    var w := Withdrawn(vv, id);
    var info', vv' := info[e := AsNew(info[e])][id := AsTried(info[id])], w[d := w[d] + {e}];
    RefCountZero(w, e);
    forall x ensures RefCount(vv', x) == RefCount(w, x) + if x == e then 1 else 0 {
      RefCountUpdate(w, d, w[d] + {e}, x);
    }
    forall x ensures RefCount(w, x) == if x == id then 0 else RefCount(vv, x) {
      WithdrawnCounts(vv, id, x);
    }
    forall c | 0 <= c < |vv'| ensures |vv'[c]| <= NEW_BUCKET_SIZE {
      assert c != d ==> vv'[c] == w[c];
    }
    forall c, x | 0 <= c < |vv'| && x in vv'[c] ensures x in info' && !info'[x].fInTried {
      assert x != e ==> x in w[c];
    }
    forall x | x in info' ensures RefCountOk(info', vv', x, NONE) {
      assert RefCountOk(info, vv, x, NONE);
      if x == e { assert forall c :: 0 <= c < |vv| ==> e !in vv[c]; }
    }
  }

  lemma ExchangedKeeps(net: Net, key: seq<Byte>, t: Tables, id: int, q: seq<int>, pos: nat, d: nat)
    requires Consistent(net, key, t) && id in t.mapInfo && !t.mapInfo[id].fInTried
    requires Permuted(t.vvTried[TriedBucket(net, key, t.mapInfo[id].addr)], q)
    requires pos < |q| && q[pos] in t.mapInfo
    requires d < NEW_BUCKET_COUNT && |Withdrawn(t.vvNew, id)[d]| < NEW_BUCKET_SIZE
    ensures Consistent(net, key, Exchanged(t, id, TriedBucket(net, key, t.mapInfo[id].addr), q, pos, d))
  {
    assert |t.vvTried| == TRIED_BUCKET_COUNT && |t.vvNew| == NEW_BUCKET_COUNT;
    hide IndexOk, RandomOk, NewOk, TriedOk, Permuted, Withdrawn;
    var e := q[pos];
    var t' := Exchanged(t, id, TriedBucket(net, key, t.mapInfo[id].addr), q, pos, d);
    ExchangedTriedOk(net, key, t.mapInfo, t.vvTried, id, q, pos);
    ExchangedNewOk(t.mapInfo, t.vvNew, id, e, d);
    IndexesKeep(t.mapInfo, t.mapAddr, t.vRandom, e, AsNew(t.mapInfo[e]));
    IndexesKeep(t.mapInfo[e := AsNew(t.mapInfo[e])], t.mapAddr, t.vRandom, id, t'.mapInfo[id]);
    SwapKeepsCounts(t.mapInfo, id, e);
  }

  /** One tried entry becomes new and one new entry tried: the two counts stay. */
  lemma SwapKeepsCounts(info: map<int, AddrInfo>, id: int, e: int)
    requires id in info && !info[id].fInTried && e in info && info[e].fInTried
    ensures var info' := info[e := AsNew(info[e])][id := AsTried(info[id])];
      |TriedIds(info')| == |TriedIds(info)| && |NewIds(info')| == |NewIds(info)|
  {
    var info' := info[e := AsNew(info[e])][id := AsTried(info[id])];
    var tried, untried := TriedIds(info), NewIds(info);
    assert e in tried && id !in tried && id in untried && e !in untried;
    assert TriedIds(info') == tried - {e} + {id};
    assert NewIds(info') == untried - {id} + {e};
  }
}
