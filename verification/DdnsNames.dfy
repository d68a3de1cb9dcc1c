/** How the constructor of `src/ddns.cpp` fills the table from the allowed suffixes and the local
    names, and what the two searches then find. */
module DdnsNames {
  import opened Options
  import opened Ddns

  // ----- The allowed suffixes -----

  /** What ends a suffix: a dot, a bar, or a signed character up to the space, so every character
      outside ASCII as well. */
  predicate Separates(c: char) {
    c == '.' || c == '|' || c <= ' ' || c as int >= 128
  }

  /** The run of other characters from index i. */
  function Label(s: string, i: nat): (r: string)
    requires i <= |s|
    decreases |s| - i
  {
    if i < |s| && !Separates(s[i]) then [s[i]] + Label(s, i + 1) else ""
  }

  /** The suffixes at or after index p, from the last to the first: a non-empty run behind a dot. */
  function Suffixes(s: string, p: nat): (r: seq<Entry>)
    requires p <= |s|
    decreases |s| - p
  {
    if p == |s| then []
    else
      var rest := Suffixes(s, p + 1);
      if s[p] == '.' && Label(s, p + 1) != "" then rest + [Entry(p + 1, Label(s, p + 1))] else rest
  }

  lemma {:induction false} SuffixesAre(s: string, p: nat)
    requires p <= |s|
    ensures forall e :: e in Suffixes(s, p) <==>
      exists i :: p <= i < |s| && s[i] == '.' && Label(s, i + 1) != "" && e == Entry(i + 1, Label(s, i + 1))
    ensures |Suffixes(s, p)| <= |s| - p
    decreases |s| - p
  {
    if p < |s| {
      SuffixesAre(s, p + 1);
    }
  }

  /** The C string at index i of a buffer. */
  function StringAt(buf: string, i: nat): (r: string)
    requires i <= |buf|
    decreases |buf| - i
  {
    if i < |buf| && buf[i] != '\0' then [buf[i]] + StringAt(buf, i + 1) else ""
  }

  /** The buffer after the scan has come down to index p: separators have become NULs. */
  predicate Scanned(s: string, buf: string, p: nat) {
    && |buf| == |s| + 1 && p <= |s| && buf[|s|] == '\0'
    && (forall i | 0 <= i < p :: buf[i] == s[i])
    && (forall i | p <= i < |s| :: buf[i] == if Separates(s[i]) then '\0' else s[i])
  }

  lemma {:induction false} StringIsLabel(s: string, buf: string, p: nat, i: nat)
    requires Scanned(s, buf, p) && p <= i <= |s|
    ensures StringAt(buf, i) == Label(s, i)
    decreases |s| - i
  {
    if i < |s| {
      StringIsLabel(s, buf, p, i + 1);
    }
  }

  lemma NothingScanned(s: string)
    ensures Scanned(s, s + ['\0'], |s|) && HashOf(Label(s, |s|)) == (0, 0) && Suffixes(s, |s|) == []
  {
  }

  /** What one step of the scan, at index p, finds and must do. */
  lemma ScanStep(s: string, buf: string, p: nat)
    requires p < |s| && Scanned(s, buf, p + 1)
    ensures buf[p] == s[p] && StringAt(buf, p + 1) == Label(s, p + 1)
    ensures Separates(s[p]) ==> Scanned(s, buf[p := '\0'], p) && HashOf(Label(s, p)) == (0, 0)
    ensures !Separates(s[p]) ==> Scanned(s, buf, p) && HashOf(Label(s, p)) == NextHash(HashOf(Label(s, p + 1)), s[p])
    ensures s[p] == '.' && buf[p + 1] > ' ' ==>
      && Suffixes(s, p) == Suffixes(s, p + 1) + [Entry(p + 1, Label(s, p + 1))]
      && |Suffixes(s, p)| <= |Suffixes(s, 0)|
      && forall e | e in Suffixes(s, p + 1) :: e.offset != p + 1
    ensures !(s[p] == '.' && buf[p + 1] > ' ') ==> Suffixes(s, p) == Suffixes(s, p + 1)
  {
    hide NextHash;
    StringIsLabel(s, buf, p + 1, p + 1);
    CountGrows(s, p);
    SuffixesAre(s, p + 1);
    if !Separates(s[p]) {
      LabelGrows(s, p);
    }
  }

  // ----- The local names -----

  /** A line "name=value" of the local file. */
  datatype Record = Record(name: string, value: string)

  /** The place of record k: each takes its name, a NUL, its value and a NUL. */
  function Place(rs: seq<Record>, k: nat): (o: int)
    requires k <= |rs|
    ensures o > 0
  {
    if k == 0 then 1 else Place(rs, k - 1) + |rs[k - 1].name| + 1 + |rs[k - 1].value| + 1
  }

  function LocalEntry(rs: seq<Record>, k: nat): (r: Entry)
    requires k < |rs|
  {
    Entry(-Place(rs, k), rs[k].name)
  }

  function Locals(rs: seq<Record>, n: nat): (es: seq<Entry>)
    requires n <= |rs|
    ensures |es| == n
  {
    seq(n, k requires 0 <= k < n => LocalEntry(rs, k))
  }

  lemma {:induction false} PlacesIncrease(rs: seq<Record>, j: nat, k: nat)
    requires j < k <= |rs|
    ensures Place(rs, j) < Place(rs, k)
  {
    if j < k - 1 {
      PlacesIncrease(rs, j, k - 1);
    }
  }

  // ----- Helpers of the constructor -----

  lemma {:induction false} CountGrows(s: string, p: nat)
    requires p <= |s|
    ensures |Suffixes(s, p)| <= |Suffixes(s, 0)|
  {
    if p > 0 {
      CountGrows(s, p - 1);
    }
  }

  lemma LabelGrows(s: string, p: nat)
    requires p < |s| && !Separates(s[p])
    ensures HashOf(Label(s, p)) == NextHash(HashOf(Label(s, p + 1)), s[p])
  {
    hide NextHash;
    assert Label(s, p)[1..] == Label(s, p + 1);
  }

  lemma NewOffset(s: string, rs: seq<Record>, k: nat, e: Entry)
    requires k <= |rs| && e in Suffixes(s, 0) + Locals(rs, k)
    ensures e.offset != -Place(rs, k)
  {
    hide Suffixes, Place;
    PositiveSuffixes(s);
    PlacePositive(rs);
    if e !in Suffixes(s, 0) {
      var j :| 0 <= j < k && Locals(rs, k)[j] == e;
      PlacesIncrease(rs, j, k);
    }
  }

  /** The name was listed behind a dot. */
  ghost predicate Listed(s: string, name: string) {
    name != "" && exists i :: 0 <= i < |s| && s[i] == '.' && Label(s, i + 1) == name
  }

  lemma MatchIsListed(entries: seq<Entry>, s: string, rs: seq<Record>, name: string, i: nat)
    requires entries == Suffixes(s, 0) + Locals(rs, |rs|) && i < |entries|
    requires Matches(entries[i], name, false)
    ensures Listed(s, name)
  {
    SuffixesAre(s, 0);
    assert entries[i] in Suffixes(s, 0);
  }

  lemma ListedMatches(entries: seq<Entry>, s: string, rs: seq<Record>, i: nat)
    requires entries == Suffixes(s, 0) + Locals(rs, |rs|)
    requires i < |s| && s[i] == '.' && Label(s, i + 1) != ""
    ensures HasMatch(entries, Label(s, i + 1), false)
  {
    SuffixesAre(s, 0);
    var e := Entry(i + 1, Label(s, i + 1));
    assert e in Suffixes(s, 0);
    var k :| 0 <= k < |Suffixes(s, 0)| && Suffixes(s, 0)[k] == e;
    assert Matches(entries[k], Label(s, i + 1), false);
  }

  /** The positive entries are the suffixes. */
  lemma TldFound(entries: seq<Entry>, s: string, rs: seq<Record>, name: string)
    requires entries == Suffixes(s, 0) + Locals(rs, |rs|)
    ensures HasMatch(entries, name, false) <==> Listed(s, name)
  {
    hide Matches, Suffixes, Label;
    forall i | 0 <= i < |entries| && Matches(entries[i], name, false)
      ensures Listed(s, name)
    {
      MatchIsListed(entries, s, rs, name, i);
    }
    forall i | 0 <= i < |s| && s[i] == '.' && Label(s, i + 1) == name && name != ""
      ensures HasMatch(entries, name, false)
    {
      ListedMatches(entries, s, rs, i);
    }
  }

  /** The values of the first n records, by offset. */
  ghost predicate ValuesOf(values: map<int, string>, rs: seq<Record>, n: nat)
    requires n <= |rs|
  {
    forall k | 0 <= k < n :: -Place(rs, k) in values && values[-Place(rs, k)] == rs[k].value
  }

  lemma LocalValue(values: map<int, string>, rs: seq<Record>, k: nat)
    requires k < |rs| && ValuesOf(values, rs, |rs|)
    ensures -Place(rs, k) in values && values[-Place(rs, k)] == rs[k].value
  {
  }

  lemma NoLocals(rs: seq<Record>)
    ensures Locals(rs, 0) == [] && Place(rs, 0) == 1 && ValuesOf(map[], rs, 0)
  {
  }

  lemma OneMoreLocal(values: map<int, string>, s: string, rs: seq<Record>, k: nat)
    requires k < |rs| && ValuesOf(values, rs, k)
    ensures forall e | e in Suffixes(s, 0) + Locals(rs, k) :: e.offset != -Place(rs, k)
    ensures ValuesOf(values[-Place(rs, k) := rs[k].value], rs, k + 1)
    ensures Locals(rs, k + 1) == Locals(rs, k) + [Entry(-Place(rs, k), rs[k].name)]
    ensures Place(rs, k + 1) == Place(rs, k) + |rs[k].name| + 1 + |rs[k].value| + 1
  {
    hide Suffixes, Place;
    NextPlace(rs, k);
    forall e | e in Suffixes(s, 0) + Locals(rs, k)
      ensures e.offset != -Place(rs, k)
    {
      NewOffset(s, rs, k, e);
    }
    assert Locals(rs, k + 1) == Locals(rs, k) + [LocalEntry(rs, k)];
    forall j | 0 <= j < k
      ensures Place(rs, j) != Place(rs, k)
    {
      PlacesIncrease(rs, j, k);
    }
  }

  lemma NextPlace(rs: seq<Record>, k: nat)
    requires k < |rs|
    ensures Place(rs, k + 1) == Place(rs, k) + |rs[k].name| + 1 + |rs[k].value| + 1
  {
  }

  /** The negative entries are the local names. */
  lemma LocalFound(entries: seq<Entry>, s: string, rs: seq<Record>, name: string)
    requires entries == Suffixes(s, 0) + Locals(rs, |rs|)
    ensures HasMatch(entries, name, true) <==> exists k :: 0 <= k < |rs| && rs[k].name == name
  {
    hide Suffixes, Matches;
    forall i | 0 <= i < |entries| && Matches(entries[i], name, true)
      ensures exists k :: 0 <= k < |rs| && rs[k].name == name
    {
      MatchIsLocal(entries, s, rs, name, i);
    }
    forall k | 0 <= k < |rs| && rs[k].name == name
      ensures HasMatch(entries, name, true)
    {
      LocalMatches(entries, s, rs, k);
    }
  }

  lemma NoMatch(entries: seq<Entry>, name: string)
    requires forall i | 0 <= i < |entries| :: !Matches(entries[i], name, true)
    ensures !HasMatch(entries, name, true)
  {
  }

  lemma FirstMatch(entries: seq<Entry>, name: string, offset: int) returns (i: nat)
    requires exists i :: 0 <= i < |entries| && offset == entries[i].offset && Matches(entries[i], name, true)
                         && forall j | 0 <= j < i :: !Matches(entries[j], name, true)
    ensures i < |entries| && offset == entries[i].offset && Matches(entries[i], name, true)
    ensures forall j | 0 <= j < i :: !Matches(entries[j], name, true)
  {
    hide Matches;
    var k :| 0 <= k < |entries| && offset == entries[k].offset && Matches(entries[k], name, true)
             && forall j | 0 <= j < k :: !Matches(entries[j], name, true);
    i := k;
  }

  lemma LocalMatches(entries: seq<Entry>, s: string, rs: seq<Record>, k: nat)
    requires entries == Suffixes(s, 0) + Locals(rs, |rs|) && k < |rs|
    ensures Matches(entries[|Suffixes(s, 0)| + k], rs[k].name, true)
  {
    hide Place, Suffixes;
    PlacePositive(rs);
    assert entries[|Suffixes(s, 0)| + k] == Locals(rs, |rs|)[k];
  }

  lemma PositiveSuffixes(s: string)
    ensures forall e | e in Suffixes(s, 0) :: e.offset > 0
    ensures forall i | 0 <= i < |Suffixes(s, 0)| :: Suffixes(s, 0)[i].offset > 0
  {
    SuffixesAre(s, 0);
  }

  lemma PlacePositive(rs: seq<Record>)
    ensures forall k: nat | k <= |rs| :: Place(rs, k) > 0
  {
  }

  lemma EitherPart(a: seq<Entry>, b: seq<Entry>, i: nat)
    requires i < |a + b|
    ensures i < |a| ==> (a + b)[i] == a[i]
    ensures i >= |a| ==> (a + b)[i] == b[i - |a|]
  {
  }

  lemma MatchIsLocal(entries: seq<Entry>, s: string, rs: seq<Record>, name: string, i: nat)
    requires entries == Suffixes(s, 0) + Locals(rs, |rs|) && i < |entries|
    requires Matches(entries[i], name, true)
    ensures var k: int := i - |Suffixes(s, 0)|;
      0 <= k < |rs| && rs[k].name == name && entries[i].offset == -Place(rs, k)
  {
    hide Place, Suffixes;
    PositiveSuffixes(s);
    PlacePositive(rs);
    var n := |Suffixes(s, 0)|;
    EitherPart(Suffixes(s, 0), Locals(rs, |rs|), i);
  }

  /** The first match is the first record of the name. */
  lemma FirstLocal(entries: seq<Entry>, s: string, rs: seq<Record>, name: string, i: nat)
    returns (k: nat)
    requires entries == Suffixes(s, 0) + Locals(rs, |rs|) && i < |entries|
    requires Matches(entries[i], name, true) && forall j | 0 <= j < i :: !Matches(entries[j], name, true)
    ensures k < |rs| && rs[k].name == name && entries[i].offset == -Place(rs, k)
    ensures forall j | 0 <= j < k :: rs[j].name != name
  {
    hide Suffixes, Matches, Place;
    MatchIsLocal(entries, s, rs, name, i);
    k := i - |Suffixes(s, 0)|;
    forall j | 0 <= j < k
      ensures rs[j].name != name
    {
      LocalMatches(entries, s, rs, j);
    }
  }

  // ----- The server's table -----

  class DDns {
    const table: Table
    /** The values of the local names, by offset. */
    var values: map<int, string>
    ghost var allowed: string
    ghost var locals: seq<Record>

    ghost predicate Valid()
      reads this, table, table.ht
    {
      && table.Valid()
      && table.entries == Suffixes(allowed, 0) + Locals(locals, |locals|)
      && ValuesOf(values, locals, |locals|)
    }

    /** The part of the constructor that builds the table. */
    constructor (allowedSuff: string, rs: seq<Record>)
      requires |Suffixes(allowedSuff, 0)| + |rs| <= 256
      ensures Valid() && allowed == allowedSuff && locals == rs
      ensures fresh(table) && fresh(table.ht)
    {
      table := new Table();
      values := map[];
      allowed, locals := allowedSuff, [];
      new;
      InsertSuffixes(allowedSuff, |rs|);
      InsertLocals(rs);
    }

    /** The backward scan over the allowed suffixes. `pos` and `step` belong to the characters since
        the last separator. */
    method InsertSuffixes(s: string, ghost room: nat)
      requires table.Valid() && table.entries == [] && |Suffixes(s, 0)| + room <= 256
      modifies table, table.ht
      ensures table.Valid() && table.entries == Suffixes(s, 0)
    {
      hide Suffixes, Label, HashOf, StringAt, Scanned, NextHash;
      var buf := s + ['\0'];
      var h: (bv8, bv8) := (0, 0);
      var p: nat := |s|;
      NothingScanned(s);
      while p > 0
        invariant p <= |s| && |buf| == |s| + 1
        invariant Scanned(s, buf, p) && h == HashOf(Label(s, p))
        invariant table.Valid() && table.entries == Suffixes(s, p)
      {
        p := p - 1;
        var c := buf[p];
        ScanStep(s, buf, p);
        if c == '.' || c == '|' || c <= ' ' || c as int >= 128 {
          if c == '.' && buf[p + 1] > ' ' {
            table.Insert(p + 1, StringAt(buf, p + 1));
          }
          buf := buf[p := '\0'];
          h := (0, 0);
        } else {
          h := NextHash(h, c);
        }
      }
    }

    /** The loop over the local records. */
    method InsertLocals(rs: seq<Record>)
      requires table.Valid() && table.entries == Suffixes(allowed, 0) && |Suffixes(allowed, 0)| + |rs| <= 256
      modifies this, table, table.ht
      ensures Valid() && allowed == old(allowed) && locals == rs
    {
      hide Locals, Suffixes, Place, ValuesOf, Table.Valid;
      NoLocals(rs);
      var offset: int := 1;
      values := map[];
      assert table.entries == Suffixes(allowed, 0) + [];
      for k := 0 to |rs|
        invariant table.Valid() && table.entries == Suffixes(allowed, 0) + Locals(rs, k)
        invariant offset == Place(rs, k) && allowed == old(allowed)
        invariant ValuesOf(values, rs, k)
      {
        OneMoreLocal(values, allowed, rs, k);
        table.Insert(-offset, rs[k].name);
        values := values[-offset := rs[k].value];
        offset := offset + |rs[k].name| + 1 + |rs[k].value| + 1;
      }
      locals := rs;
    }

    /** The TLD filter of `HandleQuery`: a name passes exactly if it was listed behind a dot. */
    method AllowedTld(name: string) returns (ok: bool)
      requires Valid() && (|table.entries| < 256 || Listed(allowed, name))
      ensures ok <==> Listed(allowed, name)
    {
      hide Listed, Matches, Suffixes, Locals;
      TldFound(table.entries, allowed, locals, name);
      var r := table.Find(name, false);
      ok := r.Some?;
    }

    /** `LocalSearch`: the value of the first local record of that name, if there is one. */
    method LocalSearch(name: string) returns (r: Option<string>)
      requires Valid() && (|table.entries| < 256 || exists k :: 0 <= k < |locals| && locals[k].name == name)
      ensures r.None? <==> forall k | 0 <= k < |locals| :: locals[k].name != name
      ensures r.Some? ==> exists k :: 0 <= k < |locals| && locals[k] == Record(name, r.value)
                                      && forall j | 0 <= j < k :: locals[j].name != name
    {
      hide Locals, Suffixes, Matches, Place, ValuesOf, HasMatch;
      LocalFound(table.entries, allowed, locals, name);
      var o := table.Find(name, true);
      if o.None? {
        NoMatch(table.entries, name);
        return None;
      }
      ghost var i := FirstMatch(table.entries, name, o.value);
      ghost var k := FirstLocal(table.entries, allowed, locals, name, i);
      LocalValue(values, locals, k);
      return Some(values[o.value]);
    }
  }
}
