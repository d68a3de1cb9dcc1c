/** The open-addressing table of `src/ddns.cpp` that holds both the allowed TLD suffixes (positive
    offsets) and the local names (negative offsets). */
module Ddns {
  import opened Options
  import opened Arithmetic

  // ----- The two hashes -----

  /** One character, from the last to the first: `pos` is rotated and the character added, `step`
      is multiplied by 31 and the character xored in. */
  function NextHash(h: (bv8, bv8), c: char): (r: (bv8, bv8)) {
    var b: bv8 := (c as int % 256) as bv8;
    (((h.0 >> 7) | (h.0 << 1)) + b, ((h.1 << 5) - h.1) ^ b)
  }

  /** `pos` is rotated by one bit before the character is added, `step` times 31 before it is xored. */
  lemma NextHashIs(h: (bv8, bv8), c: char)
    ensures var b: bv8 := (c as int % 256) as bv8;
      && NextHash(h, c).0 - b == (if h.0 & 0x80 == 0 then h.0 << 1 else (h.0 << 1) | 1)
      && NextHash(h, c).1 ^ b == h.1 * 31
  {
  }

  function HashOf(name: string): (r: (bv8, bv8)) {
    if name == "" then (0, 0) else NextHash(HashOf(name[1..]), name[0])
  }

  /** `step |= 1` on a byte. */
  function Odd(step: nat): (r: nat) { step / 2 * 2 + 1 }

  /** It sets the lowest bit. */
  lemma OddIs(step: nat)
    ensures Odd(step) == if step % 2 == 0 then step + 1 else step
  {
  }

  function Pos(name: string): (r: nat) { HashOf(name).0 as nat }

  function Step(name: string): (r: nat) { Odd(HashOf(name).1 as nat) }

  /** The slot of the k-th probe, from 1. */
  function Slot(pos: nat, step: nat, k: nat): (t: nat)
    ensures t < 256
  {
    (pos + k * step) % 256
  }

  // ----- An odd step visits every slot -----

  lemma {:induction false} OddCancels(k: nat, step: nat, m: nat, n: nat)
    requires step % 2 == 1 && k * step == m * Pow2(n)
    ensures exists j: nat :: k == j * Pow2(n)
    decreases n
  {
    if n == 0 {
      assert k == k * Pow2(0);
    } else {
      assert m * Pow2(n) == 2 * (m * Pow2(n - 1));
      EvenFactor(k, step, m * Pow2(n - 1));
      HalfProduct(k / 2, step, m * Pow2(n - 1));
      OddCancels(k / 2, step, m, n - 1);
      var j: nat :| k / 2 == j * Pow2(n - 1);
      assert k == j * Pow2(n);
    }
  }

  lemma EvenFactor(k: nat, step: nat, h: nat)
    requires step % 2 == 1 && k * step == 2 * h
    ensures k % 2 == 0
  {
    var s := step / 2;
    assert step == 2 * s + 1;
    assert k * step == 2 * (k * s) + k;
  }

  lemma HalfProduct(k: nat, step: nat, h: nat)
    requires (2 * k) * step == 2 * h
    ensures k * step == h
  {
    assert (2 * k) * step == 2 * (k * step);
  }

  /** Within 256 probes no slot comes up twice. */
  lemma ProbesAreDistinct(pos: nat, step: nat, i: nat, j: nat)
    requires step % 2 == 1 && i < j < i + 256
    ensures Slot(pos, step, i) != Slot(pos, step, j)
  {
    if Slot(pos, step, i) == Slot(pos, step, j) {
      var a, b := pos + i * step, pos + j * step;
      assert a == 256 * (a / 256) + a % 256 && b == 256 * (b / 256) + b % 256;
      Difference(i, j, step);
      assert (j - i) * step == (b / 256 - a / 256) * 256;
      assert (j - i) * step >= 0;
      assert Pow2(8) == 256 by { assert Pow2(4) == 16; }
      var m: nat := b / 256 - a / 256;
      OddCancels(j - i, step, m, 8);
      var q: nat :| j - i == q * Pow2(8);
      AtLeastOnce(256, q);
    }
  }

  lemma Difference(i: nat, j: nat, step: nat)
    requires i < j
    ensures (j - i) * step == j * step - i * step
  {
  }

  /** The slots of the first n probes. */
  ghost function Probed(pos: nat, step: nat, n: nat): (r: set<nat>) {
    set k: nat | 1 <= k <= n :: Slot(pos, step, k)
  }

  lemma {:induction false} ProbedCount(pos: nat, step: nat, n: nat)
    requires step % 2 == 1 && n <= 256
    ensures |Probed(pos, step, n)| == n && forall t | t in Probed(pos, step, n) :: t < 256
  {
    if n > 0 {
      ProbedCount(pos, step, n - 1);
      var t := Slot(pos, step, n);
      if t in Probed(pos, step, n - 1) {
        var k: nat :| 1 <= k <= n - 1 && t == Slot(pos, step, k);
        ProbesAreDistinct(pos, step, k, n);
      }
      assert Probed(pos, step, n) == Probed(pos, step, n - 1) + {t};
    } else {
      assert Probed(pos, step, 0) == {};
    }
  }

  // ----- The table -----

  /** A name stored at an offset: above zero a TLD suffix, below zero a local name. */
  datatype Entry = Entry(offset: int, name: string)

  function SlotOf(name: string, k: nat): (t: nat)
    ensures t < 256
  {
    Slot(Pos(name), Step(name), k)
  }

  /** The entry sits at its k-th probe, and all probes before are taken. */
  ghost predicate Placed(ht: seq<int>, e: Entry, k: nat)
    requires |ht| == 256
  {
    && 1 <= k <= 256 && ht[SlotOf(e.name, k)] == e.offset
    && forall j: nat | 1 <= j < k :: ht[SlotOf(e.name, j)] != 0
  }

  /** Table, entries in the order of insertion, and the probe each one took. */
  ghost predicate Holds(ht: seq<int>, entries: seq<Entry>, at: seq<nat>) {
    && |ht| == 256 && |at| == |entries|
    && (forall i | 0 <= i < |entries| :: entries[i].offset != 0 && Placed(ht, entries[i], at[i]))
    && (forall i, j | 0 <= i < j < |entries| :: entries[i].offset != entries[j].offset)
    && (forall i, j | 0 <= i < j < |entries| && entries[i].name == entries[j].name :: at[i] < at[j])
    && (forall t | 0 <= t < 256 && ht[t] != 0 ::
          exists i :: 0 <= i < |entries| && ht[t] == entries[i].offset && t == SlotOf(entries[i].name, at[i]))
  }

  ghost function Taken(ht: seq<int>): (r: set<nat>)
    requires |ht| == 256
  {
    set t: nat | t < 256 && ht[t] != 0
  }

  /** No more slots are taken than there are entries. */
  lemma TakenCount(ht: seq<int>, entries: seq<Entry>, at: seq<nat>)
    requires Holds(ht, entries, at)
    ensures |Taken(ht)| <= |entries|
  {
    var slots := Slots(entries, at, |entries|);
    SlotsCount(entries, at, |entries|);
    assert Taken(ht) <= slots;
    SubsetCard(Taken(ht), slots);
  }

  ghost function Slots(entries: seq<Entry>, at: seq<nat>, n: nat): (r: set<nat>)
    requires n <= |entries| == |at|
  {
    set i | 0 <= i < n :: SlotOf(entries[i].name, at[i])
  }

  lemma {:induction false} SlotsCount(entries: seq<Entry>, at: seq<nat>, n: nat)
    requires n <= |entries| == |at|
    ensures |Slots(entries, at, n)| <= n
  {
    if n > 0 {
      SlotsCount(entries, at, n - 1);
      assert Slots(entries, at, n) == Slots(entries, at, n - 1) + {SlotOf(entries[n - 1].name, at[n - 1])};
    }
  }

  lemma HoldsTable(ht: seq<int>, entries: seq<Entry>, at: seq<nat>)
    requires Holds(ht, entries, at)
    ensures |ht| == 256
  {
  }

  /** With a free slot, 256 probes cannot all find taken ones. */
  lemma SomeProbeIsFree(ht: seq<int>, entries: seq<Entry>, at: seq<nat>, name: string, n: nat)
    requires Holds(ht, entries, at) && |entries| < 256 && n <= 256
    requires forall k: nat | 1 <= k <= n :: ht[SlotOf(name, k)] != 0
    ensures n < 256
  {
    hide Slot, Pos, Step, Holds;
    HoldsTable(ht, entries, at);
    StepIsOdd(name);
    ProbedCount(Pos(name), Step(name), n);
    TakenCount(ht, entries, at);
    var probed := Probed(Pos(name), Step(name), n);
    forall t | t in probed
      ensures t in Taken(ht)
    {
      var k: nat :| 1 <= k <= n && t == Slot(Pos(name), Step(name), k);
      assert ht[SlotOf(name, k)] != 0;
    }
    SubsetCard(probed, Taken(ht));
  }

  /** The next probe. */
  lemma NextSlot(pos: nat, step: nat, k: nat)
    ensures (Slot(pos, step, k) + step) % 256 == Slot(pos, step, k + 1)
  {
    assert (k + 1) * step == k * step + step;
  }

  /** The offset is one of the kind sought, and its name is the key. */
  predicate Matches(e: Entry, name: string, local: bool) {
    e.name == name && (e.offset < 0) == local
  }

  /** Some entry of the kind sought has that name. */
  ghost predicate HasMatch(entries: seq<Entry>, name: string, local: bool) {
    exists i :: 0 <= i < |entries| && Matches(entries[i], name, local)
  }

  /** The texts are those of the entries. */
  ghost predicate Named(names: map<int, string>, entries: seq<Entry>) {
    forall i | 0 <= i < |entries| :: entries[i].offset in names && names[entries[i].offset] == entries[i].name
  }

  /** The text at this offset is not the one sought. */
  predicate Passed(names: map<int, string>, offset: int, name: string, local: bool) {
    offset in names ==> !((offset < 0) == local && names[offset] == name)
  }

  /** A new entry at its first free probe. */
  lemma InsertHolds(ht: seq<int>, entries: seq<Entry>, at: seq<nat>, e: Entry, k: nat)
    requires Holds(ht, entries, at) && e.offset != 0 && forall f | f in entries :: f.offset != e.offset
    requires 1 <= k <= 256 && ht[SlotOf(e.name, k)] == 0
    requires forall j: nat | 1 <= j < k :: ht[SlotOf(e.name, j)] != 0
    ensures Holds(ht[SlotOf(e.name, k) := e.offset], entries + [e], at + [k])
  {
    hide SlotOf;
    var u := ht[SlotOf(e.name, k) := e.offset];
    var es, ks := entries + [e], at + [k];
    forall i | 0 <= i < |es|
      ensures es[i].offset != 0 && Placed(u, es[i], ks[i])
    {
      if i < |entries| {
        PlacedStays(ht, entries[i], at[i], SlotOf(e.name, k), e.offset);
      }
    }
    forall i, j | 0 <= i < j < |es| && es[i].name == es[j].name
      ensures ks[i] < ks[j]
    {
      if j == |entries| {
        FreeIsLater(ht, entries[i], at[i], k);
      }
    }
    forall t | 0 <= t < 256 && u[t] != 0
      ensures exists i :: 0 <= i < |es| && u[t] == es[i].offset && t == SlotOf(es[i].name, ks[i])
    {
      if t == SlotOf(e.name, k) {
        assert es[|entries|] == e && ks[|entries|] == k;
      } else {
        var i :| 0 <= i < |entries| && ht[t] == entries[i].offset && t == SlotOf(entries[i].name, at[i]);
        assert es[i] == entries[i] && ks[i] == at[i];
      }
    }
  }

  /** A free probe comes after the one an entry of the same name took. */
  lemma FreeIsLater(ht: seq<int>, e: Entry, k: nat, n: nat)
    requires |ht| == 256 && e.offset != 0 && Placed(ht, e, k)
    requires n >= 1 && ht[SlotOf(e.name, n)] == 0
    ensures k < n
  {
    hide SlotOf;
  }

  /** Filling a free slot does not disturb an entry. */
  lemma PlacedStays(ht: seq<int>, e: Entry, k: nat, t: nat, offset: int)
    requires |ht| == 256 && t < 256 && ht[t] == 0 && offset != 0 && e.offset != 0 && Placed(ht, e, k)
    ensures Placed(ht[t := offset], e, k)
  {
    hide SlotOf;
  }

  /** When a probe finds an empty slot, every entry of that name came up before. */
  lemma NoneFound(names: map<int, string>, ht: seq<int>, entries: seq<Entry>, at: seq<nat>,
                  name: string, local: bool, n: nat)
    requires Holds(ht, entries, at) && Named(names, entries)
    requires n > 0 && ht[SlotOf(name, n)] == 0
    requires forall k: nat | 1 <= k < n :: Passed(names, ht[SlotOf(name, k)], name, local)
    ensures forall i | 0 <= i < |entries| :: !Matches(entries[i], name, local)
  {
    hide SlotOf;
    forall i | 0 <= i < |entries|
      ensures !Matches(entries[i], name, local)
    {
      assert Placed(ht, entries[i], at[i]);
      if entries[i].name == name && at[i] < n {
        assert Passed(names, ht[SlotOf(name, at[i])], name, local);
      }
    }
  }

  /** The first match of the probes is the first match of the entries. */
  lemma FirstFound(names: map<int, string>, ht: seq<int>, entries: seq<Entry>, at: seq<nat>,
                   name: string, local: bool, n: nat)
    requires Holds(ht, entries, at) && Named(names, entries)
    requires 1 <= n <= 256 && ht[SlotOf(name, n)] != 0
    requires ht[SlotOf(name, n)] in names && !Passed(names, ht[SlotOf(name, n)], name, local)
    requires forall k: nat | 1 <= k < n :: Passed(names, ht[SlotOf(name, k)], name, local)
    ensures exists i :: 0 <= i < |entries| && ht[SlotOf(name, n)] == entries[i].offset
                        && Matches(entries[i], name, local)
                        && forall j | 0 <= j < i :: !Matches(entries[j], name, local)
  {
    hide SlotOf;
    var t := SlotOf(name, n);
    var i :| 0 <= i < |entries| && ht[t] == entries[i].offset && t == SlotOf(entries[i].name, at[i]);
    assert entries[i].name == name;
    assert Placed(ht, entries[i], at[i]);
    SameProbe(name, at[i], n);
    forall j | 0 <= j < i
      ensures !Matches(entries[j], name, local)
    {
      if entries[j].name == name {
        assert Placed(ht, entries[j], at[j]);
        assert Passed(names, ht[SlotOf(name, at[j])], name, local);
      }
    }
  }

  lemma SlotIsNamed(names: map<int, string>, ht: seq<int>, entries: seq<Entry>, at: seq<nat>, t: nat)
    requires Holds(ht, entries, at) && Named(names, entries) && t < 256
    ensures ht[t] != 0 ==> ht[t] in names
  {
    hide SlotOf;
    if ht[t] != 0 {
      var i :| 0 <= i < |entries| && ht[t] == entries[i].offset && t == SlotOf(entries[i].name, at[i]);
    }
  }

  lemma StepIsOdd(name: string)
    ensures Step(name) % 2 == 1
  {
    hide HashOf;
  }

  lemma SameProbe(name: string, i: nat, j: nat)
    requires 1 <= i <= 256 && 1 <= j <= 256 && SlotOf(name, i) == SlotOf(name, j)
    ensures i == j
  {
    hide Slot, Pos, Step;
    StepIsOdd(name);
    if i < j {
      ProbesAreDistinct(Pos(name), Step(name), i, j);
    } else if j < i {
      ProbesAreDistinct(Pos(name), Step(name), j, i);
    }
  }

  /** A search that has passed over n probes is not at its end: a free slot or the match is among
      the first 256. */
  lemma SearchGoesOn(names: map<int, string>, ht: seq<int>, entries: seq<Entry>, at: seq<nat>,
                     name: string, local: bool, n: nat)
    requires Holds(ht, entries, at) && Named(names, entries) && n <= 256
    requires |entries| < 256 || HasMatch(entries, name, local)
    requires forall k: nat | 1 <= k <= n :: ht[SlotOf(name, k)] != 0
    requires forall k: nat | 1 <= k <= n :: Passed(names, ht[SlotOf(name, k)], name, local)
    ensures n < 256
  {
    hide SlotOf;
    if |entries| < 256 {
      SomeProbeIsFree(ht, entries, at, name, n);
    } else {
      var i :| 0 <= i < |entries| && Matches(entries[i], name, local);
      MatchStops(names, ht, entries, at, name, local, i);
    }
  }

  /** The probe at which an entry sits does not pass a search for it. */
  lemma MatchStops(names: map<int, string>, ht: seq<int>, entries: seq<Entry>, at: seq<nat>,
                   name: string, local: bool, i: nat)
    requires Holds(ht, entries, at) && Named(names, entries)
    requires i < |entries| && Matches(entries[i], name, local)
    ensures 1 <= at[i] <= 256 && !Passed(names, ht[SlotOf(name, at[i])], name, local)
  {
    hide SlotOf;
    assert Placed(ht, entries[i], at[i]);
  }

  class Table {
    /** `m_ht_offset`. */
    const ht: array<int>
    /** The text at each offset. */
    var names: map<int, string>
    ghost var entries: seq<Entry>
    ghost var at: seq<nat>

    ghost predicate Valid()
      reads this, ht
    {
      && ht.Length == 256 && Holds(ht[..], entries, at)
      && Named(names, entries)
    }

    constructor ()
      ensures Valid() && entries == [] && fresh(ht)
    {
      ht := new int[256](_ => 0);
      names := map[];
      entries, at := [], [];
    }

    /** The insertion loop: `do pos += step; while (m_ht_offset[pos] != 0)`. */
    method Insert(offset: int, name: string)
      requires Valid() && |entries| < 256
      requires offset != 0 && forall e | e in entries :: e.offset != offset
      modifies this, ht
      ensures Valid() && entries == old(entries) + [Entry(offset, name)]
    {
      var step := Step(name);
      var k := FirstFree(name, step);
      ghost var e := Entry(offset, name);
      InsertHolds(ht[..], entries, at, e, k.1);
      ht[k.0] := offset;
      names := names[offset := name];
      entries := entries + [e];
      at := at + [k.1];
    }

    method FirstFree(name: string, step: nat) returns (k: (nat, nat))
      requires Valid() && |entries| < 256 && step == Step(name)
      ensures 1 <= k.1 <= 256 && k.0 == SlotOf(name, k.1) && ht[k.0] == 0
      ensures forall j: nat | 1 <= j < k.1 :: ht[..][SlotOf(name, j)] != 0
    {
      var pos := Pos(name) % 256;
      var n := 0;
      while true
        invariant n < 256 && pos == SlotOf(name, n)
        invariant forall j: nat | 1 <= j <= n :: ht[..][SlotOf(name, j)] != 0
        decreases 256 - n
      {
        NextSlot(Pos(name), step, n);
        pos := (pos + step) % 256;
        n := n + 1;
        if ht[pos] == 0 {
          return (pos, n);
        }
        SomeProbeIsFree(ht[..], entries, at, name, n);
      }
    }

    /** The lookup loops of `HandleQuery` and `LocalSearch`: an empty slot ends the search, entries
        of the other kind or with another name are passed over. */
    method Find(name: string, local: bool) returns (r: Option<int>)
      requires Valid() && (|entries| < 256 || HasMatch(entries, name, local))
      ensures r.None? ==> forall i | 0 <= i < |entries| :: !Matches(entries[i], name, local)
      ensures r.Some? ==> exists i :: 0 <= i < |entries| && r.value == entries[i].offset
                                      && Matches(entries[i], name, local)
                                      && forall j | 0 <= j < i :: !Matches(entries[j], name, local)
    {
      hide Holds, Named, Matches, HasMatch, Pos, Step;
      var pos := Pos(name) % 256;
      var step := Step(name);
      var n := 0;
      while true
        invariant n < 256 && pos == SlotOf(name, n)
        invariant forall k: nat | 1 <= k <= n :: ht[..][SlotOf(name, k)] != 0
        invariant forall k: nat | 1 <= k <= n :: Passed(names, ht[..][SlotOf(name, k)], name, local)
        decreases 256 - n
      {
        NextSlot(Pos(name), step, n);
        pos := (pos + step) % 256;
        n := n + 1;
        SlotIsNamed(names, ht[..], entries, at, pos);
        if ht[pos] == 0 {
          NoneFound(names, ht[..], entries, at, name, local, n);
          return None;
        }
        if (ht[pos] < 0) == local && names[ht[pos]] == name {
          FirstFound(names, ht[..], entries, at, name, local, n);
          return Some(ht[pos]);
        }
        SearchGoesOn(names, ht[..], entries, at, name, local, n);
      }
    }
  }

  // ----- When the loops end -----

  /** The insertion loop meets a free slot exactly in a table of fewer than 256 entries. */
  lemma InsertEndsIff(ht: seq<int>, entries: seq<Entry>, at: seq<nat>, name: string)
    requires Holds(ht, entries, at)
    ensures (exists n: nat :: n >= 1 && ht[SlotOf(name, n)] == 0) <==> |entries| < 256
  {
    hide SlotOf, Holds;
    HoldsTable(ht, entries, at);
    if |entries| < 256 {
      if forall n: nat | 1 <= n <= 256 :: ht[SlotOf(name, n)] != 0 {
        SomeProbeIsFree(ht, entries, at, name, 256);
      }
    } else {
      forall n: nat | n >= 1
        ensures ht[SlotOf(name, n)] != 0
      {
        FullTableHasNoFreeSlot(ht, entries, at, SlotOf(name, n));
      }
    }
  }

  /** The search meets a free slot or a match exactly if there are fewer than 256 entries or one of
      them matches: in a full table the search for an absent name never ends. */
  lemma SearchEndsIff(names: map<int, string>, ht: seq<int>, entries: seq<Entry>, at: seq<nat>,
                      name: string, local: bool)
    requires Holds(ht, entries, at) && Named(names, entries)
    ensures (exists n: nat :: n >= 1
              && (ht[SlotOf(name, n)] == 0 || !Passed(names, ht[SlotOf(name, n)], name, local)))
        <==> |entries| < 256 || HasMatch(entries, name, local)
  {
    hide SlotOf, Holds, Named, Passed, Matches;
    HoldsTable(ht, entries, at);
    if |entries| < 256 || HasMatch(entries, name, local) {
      if forall n: nat | 1 <= n <= 256 ::
          ht[SlotOf(name, n)] != 0 && Passed(names, ht[SlotOf(name, n)], name, local) {
        SearchGoesOn(names, ht, entries, at, name, local, 256);
      }
    } else {
      forall n: nat | n >= 1
        ensures ht[SlotOf(name, n)] != 0 && Passed(names, ht[SlotOf(name, n)], name, local)
      {
        FullTableHasNoFreeSlot(ht, entries, at, SlotOf(name, n));
        TakenIsPassed(names, ht, entries, at, name, local, n);
      }
    }
  }

  /** Without a match every taken slot is passed over. */
  lemma TakenIsPassed(names: map<int, string>, ht: seq<int>, entries: seq<Entry>, at: seq<nat>,
                      name: string, local: bool, n: nat)
    requires Holds(ht, entries, at) && Named(names, entries) && !HasMatch(entries, name, local)
    requires ht[SlotOf(name, n)] != 0
    ensures Passed(names, ht[SlotOf(name, n)], name, local)
  {
    hide SlotOf;
    var t := SlotOf(name, n);
    var i :| 0 <= i < |entries| && ht[t] == entries[i].offset && t == SlotOf(entries[i].name, at[i]);
    assert !Matches(entries[i], name, local);
  }

  /** A table of 256 entries has no free slot. */
  lemma FullTableHasNoFreeSlot(ht: seq<int>, entries: seq<Entry>, at: seq<nat>, t: nat)
    requires Holds(ht, entries, at) && |entries| >= 256 && t < 256
    ensures ht[t] != 0
  {
    hide SlotOf;
    if ht[t] == 0 {
      var offsets := set i | 0 <= i < |entries| :: entries[i].offset;
      OffsetsCount(ht, entries, at, |entries|);
      var values := set u: nat | u < 256 && u != t :: ht[u];
      forall x | x in offsets
        ensures x in values
      {
        var i :| 0 <= i < |entries| && x == entries[i].offset;
        assert Placed(ht, entries[i], at[i]);
        assert ht[SlotOf(entries[i].name, at[i])] == x;
      }
      SubsetCard(offsets, values);
      ValuesCount(ht, t, 256);
    }
  }

  lemma {:induction false} OffsetsCount(ht: seq<int>, entries: seq<Entry>, at: seq<nat>, n: nat)
    requires Holds(ht, entries, at) && n <= |entries|
    ensures |set i | 0 <= i < n :: entries[i].offset| == n
  {
    hide SlotOf, Placed;
    var s := set i | 0 <= i < n :: entries[i].offset;
    if n > 0 {
      OffsetsCount(ht, entries, at, n - 1);
      var u := set i | 0 <= i < n - 1 :: entries[i].offset;
      var x := entries[n - 1].offset;
      forall i | 0 <= i < n - 1
        ensures entries[i].offset != x
      {
      }
      assert x !in u;
      assert s == u + {x};
    } else {
      assert s == {};
    }
  }

  lemma {:induction false} ValuesCount(ht: seq<int>, t: nat, n: nat)
    requires |ht| == 256 && n <= 256 && t < 256
    ensures |set u: nat | u < n && u != t :: ht[u]| <= if t < n then n - 1 else n
  {
    var s := set u: nat | u < n && u != t :: ht[u];
    if n > 0 {
      ValuesCount(ht, t, n - 1);
      var v := set u: nat | u < n - 1 && u != t :: ht[u];
      if n - 1 == t {
        assert s == v;
      } else {
        assert s == v + {ht[n - 1]};
      }
    } else {
      assert s == {};
    }
  }
}
