/** `Check_`, the self-check of the address manager, and what its verdict is worth. */
module AddrCheck {
  import opened Arithmetic
  import opened NetTypes
  import opened Ascending
  import opened AddrTables
  import opened AddrBounds
  import opened AddrMan

  // ---- What the self-check looks at ------------------------------------------------------

  /** The tests on one entry. An address missing from mapAddr is looked up with operator[], which
      stores id 0 for it, so the entry with id 0 passes without being indexed. */
  predicate EntryPasses(t: Tables, id: int)
    requires id in t.mapInfo
  {
    var i := t.mapInfo[id];
    && (if i.fInTried then i.nLastSuccess != 0 && i.nRefCount == 0 else 1 <= i.nRefCount <= NEW_BUCKETS_PER_ADDRESS)
    && (if i.addr.net in t.mapAddr then t.mapAddr[i.addr.net] == id else id == 0)
    && 0 <= i.nRandomPos < |t.vRandom| && t.vRandom[i.nRandomPos] == id
    && 0 <= i.nLastTry && 0 <= i.nLastSuccess
  }

  ghost predicate EntriesPass(t: Tables) {
    forall id :: id in t.mapInfo ==> EntryPasses(t, id)
  }

  /** All slots of the tried buckets in order. */
  ghost function Slots(vv: seq<seq<int>>): (r: seq<int>) {
    if vv == [] then [] else Slots(vv[..|vv| - 1]) + vv[|vv| - 1]
  }

  /** The slots list every tried id once. */
  ghost predicate SlotsPass(vv: seq<seq<int>>, ids: set<int>) {
    Distinct(Slots(vv)) && Elements(Slots(vv)) == ids
  }

  /** The new buckets hold only untried ids, each as often as its reference count says. */
  ghost predicate RefsPass(vv: seq<set<int>>, refs: map<int, int>) {
    && (forall b, id :: 0 <= b < |vv| && id in vv[b] ==> id in refs)
    && (forall id :: id in refs ==> RefCount(vv, id) == refs[id])
  }

  ghost function Refs(info: map<int, AddrInfo>): (r: map<int, int>) {
    map id | id in info && !info[id].fInTried :: info[id].nRefCount
  }

  ghost predicate CheckPasses(t: Tables) {
    && |t.vRandom| == t.nTried + t.nNew
    && EntriesPass(t)
    && |TriedIds(t.mapInfo)| == t.nTried
    && |NewIds(t.mapInfo)| == t.nNew
    && SlotsPass(t.vvTried, TriedIds(t.mapInfo))
    && RefsPass(t.vvNew, Refs(t.mapInfo))
  }

  // ---- The tried slots -------------------------------------------------------------------

  lemma {:induction false} SlotsPrefix(vv: seq<seq<int>>, b: nat, i: nat)
    requires b < |vv| && i <= |vv[b]|
    ensures Slots(vv[..b]) + vv[b][..i] <= Slots(vv)
    decreases |vv|
  {
    var n := |vv| - 1;
    if b < n {
      SlotsPrefix(vv[..n], b, i);
      assert vv[..n][..b] == vv[..b];
    }
  }

  lemma DiffEmpty(a: set<int>, b: set<int>)
    requires b <= a
    ensures a - b == {} <==> b == a
  {
    if a - b == {} {
      forall x | x in a ensures x in b {
        assert x !in a - b;
      }
    }
  }

  method CheckTriedSlots(vv: seq<seq<int>>, ids: set<int>) returns (r: int)
    ensures r in {0, -11, -13} && (r == 0 <==> SlotsPass(vv, ids))
  {
    var setTried := ids;
    for n := 0 to |vv|
      invariant Distinct(Slots(vv[..n])) && Elements(Slots(vv[..n])) <= ids
      invariant setTried == ids - Elements(Slots(vv[..n]))
    {
      ghost var seen := Slots(vv[..n]);
      for i := 0 to |vv[n]|
        invariant Distinct(seen + vv[n][..i]) && Elements(seen + vv[n][..i]) <= ids
        invariant setTried == ids - Elements(seen + vv[n][..i])
      {
        ghost var before, after := seen + vv[n][..i], seen + vv[n][..i + 1];
        assert after == before + [vv[n][i]];
        if vv[n][i] !in setTried {
          SlotsPrefix(vv, n, i + 1);
          SlotRejected(after, Slots(vv), ids);
          return -11;
        }
        setTried := setTried - {vv[n][i]};
      }
      assert vv[n][..|vv[n]|] == vv[n];
      assert vv[..n + 1][..n] == vv[..n];
    }
    assert vv[..|vv|] == vv;
    DiffEmpty(ids, Elements(Slots(vv)));
    r := if setTried != {} then -13 else 0;
  }

  /** A slot that repeats an earlier one, or is no tried id, spoils the whole table. */
  lemma SlotRejected(prefix: seq<int>, all: seq<int>, ids: set<int>)
    requires prefix <= all && prefix != []
    requires prefix[|prefix| - 1] !in ids - Elements(prefix[..|prefix| - 1])
    ensures !(Distinct(all) && Elements(all) == ids)
  {
    var n := |prefix| - 1;
    assert all[n] == prefix[n] && all[n] in Elements(all);
    if prefix[n] in Elements(prefix[..n]) {
      var k :| 0 <= k < n && prefix[..n][k] == prefix[n];
      assert all[k] == all[n];
    }
  }

  // ---- The new buckets -------------------------------------------------------------------

  /** What is left of the reference counts once the buckets vv and the ids `more` were seen. */
  ghost function Remaining(refs: map<int, int>, vv: seq<set<int>>, more: seq<int>): (r: map<int, int>) {
    map id | id in refs && refs[id] - RefCount(vv, id) - Times(more, id) > 0 :: refs[id] - RefCount(vv, id) - Times(more, id)
  }

  ghost function Times(more: seq<int>, id: int): (r: nat) {
    if id in more then 1 else 0
  }

  lemma {:induction false} RefCountPrefix(vv: seq<set<int>>, n: nat, id: int)
    requires n < |vv|
    ensures RefCount(vv[..n], id) + (if id in vv[n] then 1 else 0) <= RefCount(vv, id)
  {
    var m := |vv| - 1;
    if n < m {
      RefCountPrefix(vv[..m], n, id);
      assert vv[..m][..n] == vv[..n];
    }
  }

  method CheckNewSlots(vv: seq<set<int>>, refs: map<int, int>) returns (r: int)
    requires forall id :: id in refs ==> refs[id] > 0
    ensures r in {0, -12, -15} && (r == 0 <==> RefsPass(vv, refs))
  {
    var mapNew := refs;
    assert mapNew == Remaining(refs, [], []);
    assert vv[..0] == [];
    for n := 0 to |vv|
      invariant forall b, id :: 0 <= b < n && id in vv[b] ==> id in refs
      invariant mapNew == Remaining(refs, vv[..n], [])
      invariant forall id :: id in refs ==> RefCount(vv[..n], id) <= refs[id]
    {
      var q := InOrder(vv[n]);
      var fOk;
      fOk, mapNew := CountDown(q, mapNew, refs, vv[..n]);
      BucketDone(refs, vv, n, q);
      if !fOk {
        BucketRejected(refs, vv, n, q);
        return -12;
      }
      forall id | id in vv[n] ensures id in refs {
        assert id in q;
      }
    }
    assert vv[..|vv|] == vv;
    RemainingEmpty(refs, vv);
    r := if mapNew != map[] then -15 else 0;
  }

  ghost predicate FitsIn(refs: map<int, int>, vv: seq<set<int>>, id: int) {
    id in refs && RefCount(vv, id) < refs[id]
  }

  /** Count the references of one bucket down; stop at an id with none left. */
  method CountDown(q: seq<int>, left: map<int, int>, ghost refs: map<int, int>, ghost vv: seq<set<int>>)
    returns (fOk: bool, mapNew: map<int, int>)
    requires StrictlyAscending(q) && left == Remaining(refs, vv, [])
    ensures fOk <==> forall k :: 0 <= k < |q| ==> FitsIn(refs, vv, q[k])
    ensures fOk ==> mapNew == Remaining(refs, vv, q)
  {
    mapNew := left;
    hide Remaining;
    for i := 0 to |q|
      invariant forall k :: 0 <= k < i ==> FitsIn(refs, vv, q[k])
      invariant mapNew == Remaining(refs, vv, q[..i])
    {
      var id := q[i];
      assert id !in q[..i];
      RemainingHas(refs, vv, q[..i], id);
      assert q[..i + 1] == q[..i] + [id];
      if id !in mapNew {
        return false, mapNew;
      }
      RemainingStep(refs, vv, q[..i], id);
      mapNew := mapNew[id := mapNew[id] - 1];
      if mapNew[id] == 0 {
        mapNew := mapNew - {id};
      }
    }
    assert q[..|q|] == q;
    fOk := true;
  }

  lemma RemainingHas(refs: map<int, int>, vv: seq<set<int>>, more: seq<int>, id: int)
    requires id !in more
    ensures id in Remaining(refs, vv, more) <==> FitsIn(refs, vv, id)
  {
  }

  lemma BucketRejected(refs: map<int, int>, vv: seq<set<int>>, n: nat, q: seq<int>)
    requires n < |vv| && (forall x :: x in q <==> x in vv[n])
    requires exists k :: 0 <= k < |q| && !FitsIn(refs, vv[..n], q[k])
    ensures !RefsPass(vv, refs)
  {
    var k :| 0 <= k < |q| && !FitsIn(refs, vv[..n], q[k]);
    assert q[k] in q;
    RefCountPrefix(vv, n, q[k]);
  }

  lemma RemainingEmpty(refs: map<int, int>, vv: seq<set<int>>)
    requires forall b, id :: 0 <= b < |vv| && id in vv[b] ==> id in refs
    requires forall id :: id in refs ==> RefCount(vv, id) <= refs[id]
    ensures Remaining(refs, vv, []) == map[] <==> RefsPass(vv, refs)
  {
    var left := Remaining(refs, vv, []);
    assert left == map[] <==> left.Keys == {};
    forall id | id in refs ensures id in left <==> RefCount(vv, id) != refs[id] {
    }
    if left.Keys == {} {
      forall id | id in refs ensures RefCount(vv, id) == refs[id] {
        assert id !in left.Keys;
      }
    }
  }

  lemma RemainingStep(refs: map<int, int>, vv: seq<set<int>>, more: seq<int>, id: int)
    requires id in Remaining(refs, vv, more) && id !in more
    ensures var left := Remaining(refs, vv, more);
      Remaining(refs, vv, more + [id]) == if left[id] == 1 then left - {id} else left[id := left[id] - 1]
  {
  }

  lemma BucketDone(refs: map<int, int>, vv: seq<set<int>>, n: nat, q: seq<int>)
    requires n < |vv| && forall x :: x in q <==> x in vv[n]
    ensures Remaining(refs, vv[..n], q) == Remaining(refs, vv[..n + 1], [])
    ensures forall id :: RefCount(vv[..n + 1], id) == RefCount(vv[..n], id) + Times(q, id)
  {
    assert vv[..n + 1][..n] == vv[..n];
  }

  // ---- Check_ ----------------------------------------------------------------------------

  /** The tests on entry n. A missing address is looked up with operator[], which stores 0. */
  method CheckEntry(m: CAddrMan, n: int) returns (r: int)
    requires n in m.mapInfo
    modifies m`mapAddr
    ensures r in {0, -1, -2, -3, -4, -5, -14, -6, -8}
    ensures r == 0 <==> old(EntryPasses(m.T(), n))
    ensures r == 0 ==> m.mapAddr == if n == 0 then Repaired(old(m.T())) else old(m.mapAddr)
    ensures OnlyIndexes(m.mapInfo, old(m.mapAddr), m.mapAddr)
  {
    var info := m.mapInfo[n];
    if info.fInTried {
      if info.nLastSuccess == 0 { return -1; }
      if info.nRefCount != 0 { return -2; }
    } else {
      if info.nRefCount < 0 || info.nRefCount > NEW_BUCKETS_PER_ADDRESS { return -3; }
      if info.nRefCount == 0 { return -4; }
    }
    if info.addr.net !in m.mapAddr {
      m.mapAddr := m.mapAddr[info.addr.net := 0];
    }
    if m.mapAddr[info.addr.net] != n { return -5; }
    if info.nRandomPos < 0 || info.nRandomPos >= |m.vRandom| || m.vRandom[info.nRandomPos] != n { return -14; }
    if info.nLastTry < 0 { return -6; }
    if info.nLastSuccess < 0 { return -8; }
    r := 0;
  }

  /** What operator[] can do to the index: addresses of entries that were missing get id 0. */
  ghost predicate OnlyIndexes(info: map<int, AddrInfo>, byAddr: map<NetAddr, int>, byAddr': map<NetAddr, int>) {
    && (forall a :: a in byAddr ==> a in byAddr' && byAddr'[a] == byAddr[a])
    && (forall a :: a in byAddr' && a !in byAddr ==> byAddr'[a] == 0 && exists id :: id in info && info[id].addr.net == a)
  }

  lemma OnlyIndexesTrans(info: map<int, AddrInfo>, m1: map<NetAddr, int>, m2: map<NetAddr, int>, m3: map<NetAddr, int>)
    requires OnlyIndexes(info, m1, m2) && OnlyIndexes(info, m2, m3)
    ensures OnlyIndexes(info, m1, m3)
  {
  }

  /** Every entry is indexed, under whatever id. */
  ghost predicate AllIndexed(info: map<int, AddrInfo>, byAddr: map<NetAddr, int>) {
    forall id :: id in info ==> info[id].addr.net in byAddr
  }

  lemma NothingToIndex(info: map<int, AddrInfo>, byAddr: map<NetAddr, int>, byAddr': map<NetAddr, int>)
    requires OnlyIndexes(info, byAddr, byAddr') && AllIndexed(info, byAddr)
    ensures byAddr' == byAddr
  {
    assert byAddr'.Keys == byAddr.Keys;
  }

  lemma NextInOrder(q: seq<int>, k: nat)
    requires StrictlyAscending(q) && k < |q|
    ensures q[k] !in q[..k] && q[..k + 1] == q[..k] + [q[k]]
  {
  }

  /** A passed test stores nothing that would change the verdict on another entry. */
  lemma RepairNeutral(t: Tables, id: int)
    requires 0 in t.mapInfo && EntryPasses(t, 0) && id in t.mapInfo && id != 0
    ensures EntryPasses(t.(mapAddr := Repaired(t)), id) <==> EntryPasses(t, id)
  {
  }

  /** The loop over mapInfo: tests every entry, then collects tried ids and reference counts. */
  method CheckEntries(m: CAddrMan) returns (r: int)
    modifies m`mapAddr
    ensures r in {0, -1, -2, -3, -4, -5, -14, -6, -8}
    ensures r == 0 <==> old(EntriesPass(m.T()))
    ensures r == 0 ==> m.mapAddr == Repaired(old(m.T()))
    ensures OnlyIndexes(m.mapInfo, old(m.mapAddr), m.mapAddr)
  {
    var q := InOrder(m.mapInfo.Keys);
    ghost var t := m.T();
    assert OnlyIndexes(t.mapInfo, t.mapAddr, t.mapAddr);
    hide EntryPasses, EntriesPass, Repaired, StrictlyAscending, OnlyIndexes;
    for k := 0 to |q|
      invariant forall id :: id in q[..k] ==> id in t.mapInfo && EntryPasses(t, id)
      invariant OnlyIndexes(t.mapInfo, t.mapAddr, m.mapAddr)
      invariant m.mapAddr == if 0 in q[..k] then Repaired(t) else t.mapAddr
    {
      var n := q[k];
      NextInOrder(q, k);
      assert n in m.mapInfo.Keys;
      assert m.T() == t.(mapAddr := m.mapAddr);
      if 0 in q[..k] {
        RepairNeutral(t, n);
      }
      ghost var before := m.mapAddr;
      r := CheckEntry(m, n);
      OnlyIndexesTrans(t.mapInfo, t.mapAddr, before, m.mapAddr);
      if r != 0 {
        OneFails(t, n);
        return;
      }
    }
    assert q[..|q|] == q;
    AllPass(t, q);
    r := 0;
  }

  lemma OneFails(t: Tables, id: int)
    requires id in t.mapInfo && !EntryPasses(t, id)
    ensures !EntriesPass(t)
  {
  }

  lemma AllPass(t: Tables, q: seq<int>)
    requires forall id :: id in q ==> id in t.mapInfo && EntryPasses(t, id)
    requires forall id :: id in t.mapInfo ==> id in q
    ensures EntriesPass(t)
  {
    hide EntryPasses;
  }

  /** mapAddr after a passed check: the address of id 0 is indexed even if it was not before. */
  ghost function Repaired(t: Tables): (r: map<NetAddr, int>) {
    if 0 in t.mapInfo && t.mapInfo[0].addr.net !in t.mapAddr then t.mapAddr[t.mapInfo[0].addr.net := 0] else t.mapAddr
  }

  /** The self-check. Whatever the verdict, it can only index addresses under id 0 that were not
      indexed, and after a zero verdict that is at most the address of id 0. */
  method Check(m: CAddrMan) returns (r: int)
    modifies m`mapAddr
    ensures r == 0 <==> old(CheckPasses(m.T()))
    ensures r == 0 ==> m.mapAddr == Repaired(old(m.T()))
    ensures OnlyIndexes(m.mapInfo, old(m.mapAddr), m.mapAddr)
    ensures old(AllIndexed(m.mapInfo, m.mapAddr)) ==> m.mapAddr == old(m.mapAddr)
    ensures r == 0 && m.mapAddr == old(m.mapAddr) ==> old(AllIndexed(m.mapInfo, m.mapAddr))
    // On a manager that the operations produce it changes nothing, and it fails only over the
    // times that callers passed in.
    ensures old(m.Valid()) ==> m.mapAddr == old(m.mapAddr) && (r == 0 <==> TimesOk(m.mapInfo))
  {
    ghost var t := m.T();
    if m.Valid() {
      VerdictOnOwn(m.net, m.nKey, t);
    }
    RepairedUnchanged(t);
    hide ConsistentBut, CheckPasses, AllIndexed, Repaired, OnlyIndexes, TimesOk;
    r := RunChecks(m);
    if AllIndexed(t.mapInfo, t.mapAddr) {
      NothingToIndex(m.mapInfo, t.mapAddr, m.mapAddr);
    }
  }

  /** After a zero verdict nothing was stored exactly if nothing was missing. */
  lemma RepairedUnchanged(t: Tables)
    ensures CheckPasses(t) && Repaired(t) == t.mapAddr ==> AllIndexed(t.mapInfo, t.mapAddr)
  {
    if CheckPasses(t) && Repaired(t) == t.mapAddr {
      forall id | id in t.mapInfo
        ensures t.mapInfo[id].addr.net in t.mapAddr
      {
        assert EntryPasses(t, id);
      }
    }
  }

  lemma VerdictOnOwn(net: Net, key: seq<Byte>, t: Tables)
    requires Consistent(net, key, t)
    ensures AllIndexed(t.mapInfo, t.mapAddr)
    ensures CheckPasses(t) <==> TimesOk(t.mapInfo)
  {
    assert AllIndexed(t.mapInfo, t.mapAddr);
    hide ConsistentBut, CheckPasses, Unseen, AllIndexed, TimesOk;
    CheckVersusInvariant(net, key, t);
    ConsistentIsUnseen(net, key, t);
  }

  /** The tests of `Check_` in turn. */
  method RunChecks(m: CAddrMan) returns (r: int)
    modifies m`mapAddr
    ensures r == 0 <==> old(CheckPasses(m.T()))
    ensures r == 0 ==> m.mapAddr == Repaired(old(m.T()))
    ensures OnlyIndexes(m.mapInfo, old(m.mapAddr), m.mapAddr)
  {
    if |m.vRandom| != m.nTried + m.nNew {
      return -7;
    }
    ghost var t := m.T();
    r := CheckEntries(m);
    if r != 0 {
      return;
    }
    var setTried := set id | id in m.mapInfo && m.mapInfo[id].fInTried;
    var mapNew := map id | id in m.mapInfo && !m.mapInfo[id].fInTried :: m.mapInfo[id].nRefCount;
    assert mapNew.Keys == NewIds(t.mapInfo);
    if |setTried| != m.nTried {
      return -9;
    }
    if |mapNew| != m.nNew {
      return -10;
    }
    r := CheckTriedSlots(m.vvTried, setTried);
    if r == -11 {
      return;
    }
    assert forall id :: id in mapNew ==> EntryPasses(t, id);
    var r' := CheckNewSlots(m.vvNew, mapNew);
    if r' == -12 {
      return r';
    }
    if r == 0 {
      r := r';
    }
  }

  // ---- What the verdict is worth ---------------------------------------------------------

  /** What the self-check does not look at. */
  ghost predicate Unseen(net: Net, key: seq<Byte>, t: Tables) {
    && IdsOk(t.mapInfo, t.nIdCount)
    && (forall a :: a in t.mapAddr ==> t.mapAddr[a] in t.mapInfo && t.mapInfo[t.mapAddr[a]].addr.net == a)
    && (0 in t.mapInfo ==> t.mapInfo[0].addr.net in t.mapAddr)
    && |t.vvTried| == TRIED_BUCKET_COUNT
    && (forall b :: 0 <= b < |t.vvTried| ==> |t.vvTried[b]| <= TRIED_BUCKET_SIZE)
    && (forall b, id :: 0 <= b < |t.vvTried| && id in t.vvTried[b] && id in t.mapInfo ==> TriedBucket(net, key, t.mapInfo[id].addr) == b)
    && |t.vvNew| == NEW_BUCKET_COUNT
    && (forall b :: 0 <= b < |t.vvNew| ==> |t.vvNew[b]| <= NEW_BUCKET_SIZE)
  }

  lemma ConsistentIsUnseen(net: Net, key: seq<Byte>, t: Tables)
    requires Consistent(net, key, t)
    ensures Unseen(net, key, t)
  {
    TableIsBounded(net, key, t);
  }

  lemma {:induction false} SlotsHold(vv: seq<seq<int>>)
    ensures forall x :: x in Slots(vv) <==> exists b :: 0 <= b < |vv| && x in vv[b]
  {
    if vv != [] {
      var n := |vv| - 1;
      SlotsHold(vv[..n]);
      forall x ensures x in Slots(vv) <==> exists b :: 0 <= b < |vv| && x in vv[b] {
        if x in Slots(vv[..n]) {
          var b :| 0 <= b < n && x in vv[..n][b];
          assert x in vv[b];
        }
        if b :| 0 <= b < |vv| && x in vv[b] {
          assert b < n ==> x in vv[..n][b];
        }
      }
    }
  }

  ghost predicate RowsDisjoint(vv: seq<seq<int>>) {
    forall b, c, x :: 0 <= b < c < |vv| && x in vv[b] ==> x !in vv[c]
  }

  lemma {:induction false} SlotsDistinctIff(vv: seq<seq<int>>)
    ensures Distinct(Slots(vv)) <==> RowsDisjoint(vv) && forall b :: 0 <= b < |vv| ==> Distinct(vv[b])
  {
    if vv != [] {
      var n := |vv| - 1;
      SlotsDistinctIff(vv[..n]);
      SlotsHold(vv[..n]);
      ConcatDistinctIff(Slots(vv[..n]), vv[n]);
      assert forall b :: 0 <= b < n ==> vv[..n][b] == vv[b];
      if Distinct(Slots(vv)) {
        forall b, c, x | 0 <= b < c < |vv| && x in vv[b] ensures x !in vv[c] {
          if c == n { assert x in vv[..n][b]; } else { assert x in vv[..n][b] && x !in vv[..n][c]; }
        }
      }
    }
  }

  lemma ConcatDistinctIff(p: seq<int>, q: seq<int>)
    ensures Distinct(p + q) <==> Distinct(p) && Distinct(q) && forall x :: x in p ==> x !in q
  {
    var r := p + q;
    if Distinct(r) {
      forall i, j | 0 <= i < j < |p| ensures p[i] != p[j] {
        assert r[i] == p[i] && r[j] == p[j];
      }
      forall i, j | 0 <= i < j < |q| ensures q[i] != q[j] {
        assert r[|p| + i] == q[i] && r[|p| + j] == q[j];
      }
      forall x | x in p ensures x !in q {
        var i :| 0 <= i < |p| && p[i] == x;
        forall j | 0 <= j < |q| ensures q[j] != x {
          assert r[i] == x && r[|p| + j] == q[j];
        }
      }
    }
    if Distinct(p) && Distinct(q) && forall x :: x in p ==> x !in q {
      forall i, j | 0 <= i < j < |r| ensures r[i] != r[j] {
        if i < |p| <= j { assert r[i] in p && r[j] in q; }
      }
    }
  }

  lemma SlotsPassIff(net: Net, key: seq<Byte>, t: Tables)
    requires Unseen(net, key, t)
    ensures TriedOk(net, key, t.mapInfo, t.vvTried) <==> SlotsPass(t.vvTried, TriedIds(t.mapInfo))
  {
    var vv, ids := t.vvTried, TriedIds(t.mapInfo);
    SlotsHold(vv);
    SlotsDistinctIff(vv);
    if TriedOk(net, key, t.mapInfo, vv) {
      forall b, c, x | 0 <= b < c < |vv| && x in vv[b] ensures x !in vv[c] {
        assert TriedBucket(net, key, t.mapInfo[x].addr) == b;
      }
      forall x ensures x in Elements(Slots(vv)) <==> x in ids {
        if x in ids { assert x in vv[TriedBucket(net, key, t.mapInfo[x].addr)]; }
      }
      assert Elements(Slots(vv)) == ids;
    }
    if SlotsPass(vv, ids) {
      forall b, id | 0 <= b < |vv| && id in vv[b]
        ensures id in t.mapInfo && t.mapInfo[id].fInTried && TriedBucket(net, key, t.mapInfo[id].addr) == b
      {
        assert id in Elements(Slots(vv));
      }
      forall id | id in t.mapInfo && t.mapInfo[id].fInTried ensures id in vv[TriedBucket(net, key, t.mapInfo[id].addr)] {
        assert id in ids && id in Elements(Slots(vv));
      }
      assert TriedOk(net, key, t.mapInfo, vv);
    }
  }

  lemma RefsPassIff(t: Tables)
    requires |t.vvNew| == NEW_BUCKET_COUNT && NONE !in t.mapInfo
    requires forall b :: 0 <= b < |t.vvNew| ==> |t.vvNew[b]| <= NEW_BUCKET_SIZE
    requires forall id :: id in t.mapInfo ==>
      if t.mapInfo[id].fInTried then t.mapInfo[id].nRefCount == 0 else 1 <= t.mapInfo[id].nRefCount <= NEW_BUCKETS_PER_ADDRESS
    ensures NewOk(t.mapInfo, t.vvNew, NONE) <==> RefsPass(t.vvNew, Refs(t.mapInfo))
  {
    if NewOk(t.mapInfo, t.vvNew, NONE) {
      forall id | id in Refs(t.mapInfo) ensures RefCount(t.vvNew, id) == Refs(t.mapInfo)[id] {
        assert RefCountOk(t.mapInfo, t.vvNew, id, NONE);
      }
    }
    if RefsPass(t.vvNew, Refs(t.mapInfo)) {
      forall b, id | 0 <= b < |t.vvNew| && id in t.vvNew[b] ensures id in t.mapInfo && !t.mapInfo[id].fInTried {
        assert id in Refs(t.mapInfo);
      }
      forall id | id in t.mapInfo ensures RefCountOk(t.mapInfo, t.vvNew, id, NONE) {
        assert !t.mapInfo[id].fInTried ==> id in Refs(t.mapInfo);
      }
    }
  }

  /** With as many slots as entries, "each entry is at its position" makes vRandom a bijection. */
  lemma RandomPigeonhole(info: map<int, AddrInfo>, random: seq<int>)
    requires |random| == |info|
    requires forall id :: id in info ==> 0 <= info[id].nRandomPos < |random| && random[info[id].nRandomPos] == id
    ensures RandomOk(info, random)
  {
    ElementsCard(random);
    forall id | id in info ensures id in Elements(random) {
      assert random[info[id].nRandomPos] in random;
    }
    SubsetCard(info.Keys, Elements(random));
    assert |info.Keys| == |info|;
    SameCard(info.Keys, Elements(random));
    FullDistinct(random);
    forall k | 0 <= k < |random| ensures random[k] in info && info[random[k]].nRandomPos == k {
      assert random[k] in Elements(random);
    }
  }

  lemma SameCard(a: set<int>, b: set<int>)
    requires a <= b && |a| == |b|
    ensures a == b
  {
    assert b == a + (b - a) && |b - a| == 0;
  }

  lemma {:induction false} FullDistinct(q: seq<int>)
    requires |Elements(q)| == |q|
    ensures Distinct(q)
  {
    if q != [] {
      var n := |q| - 1;
      assert Elements(q) == Elements(q[..n]) + {q[n]};
      ElementsCard(q[..n]);
      assert q[n] !in Elements(q[..n]);
      FullDistinct(q[..n]);
    }
  }

  lemma EntriesPassIff(t: Tables)
    requires forall a :: a in t.mapAddr ==> t.mapAddr[a] in t.mapInfo && t.mapInfo[t.mapAddr[a]].addr.net == a
    requires 0 in t.mapInfo ==> t.mapInfo[0].addr.net in t.mapAddr
    requires |t.vRandom| == |t.mapInfo|
    ensures EntriesPass(t) <==>
      && IndexOk(t.mapInfo, t.mapAddr) && RandomOk(t.mapInfo, t.vRandom) && TimesOk(t.mapInfo)
      && (forall id :: id in t.mapInfo ==>
           if t.mapInfo[id].fInTried then t.mapInfo[id].nRefCount == 0 else 1 <= t.mapInfo[id].nRefCount <= NEW_BUCKETS_PER_ADDRESS)
  {
    if EntriesPass(t) {
      forall id | id in t.mapInfo ensures EntryPasses(t, id) {
      }
      RandomPigeonhole(t.mapInfo, t.vRandom);
    }
    forall id | id in t.mapInfo && TimesOk(t.mapInfo) ensures EntryTimesOk(t.mapInfo[id]) {
    }
  }

  lemma RefsInRange(info: map<int, AddrInfo>, vv: seq<set<int>>)
    requires NewOk(info, vv, NONE)
    ensures forall id :: id in info ==>
      if info[id].fInTried then info[id].nRefCount == 0 else 1 <= info[id].nRefCount <= NEW_BUCKETS_PER_ADDRESS
  {
    forall id | id in info
      ensures if info[id].fInTried then info[id].nRefCount == 0 else 1 <= info[id].nRefCount <= NEW_BUCKETS_PER_ADDRESS
    {
      assert RefCountOk(info, vv, id, NONE);
    }
  }

  /** The invariant is exactly what the self-check verifies plus what it leaves out. In
      particular the self-check never fails on tables that the operations produce. */
  lemma CheckVersusInvariant(net: Net, key: seq<Byte>, t: Tables)
    ensures Consistent(net, key, t) && TimesOk(t.mapInfo) <==> CheckPasses(t) && Unseen(net, key, t)
  {
    if Consistent(net, key, t) && TimesOk(t.mapInfo) {
      TableIsBounded(net, key, t);
      ConsistentIsUnseen(net, key, t);
      SlotsPassIff(net, key, t);
      RefsInRange(t.mapInfo, t.vvNew);
      RefsPassIff(t);
      EntriesPassIff(t);
    }
    if CheckPasses(t) && Unseen(net, key, t) {
      IdsSplit(t.mapInfo);
      EntriesPassIff(t);
      SlotsPassIff(net, key, t);
      RefsPassIff(t);
      assert Consistent(net, key, t);
    }
  }
}
