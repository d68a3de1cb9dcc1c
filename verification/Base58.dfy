/** Base58 and Base58Check of `src/base58.cpp`. Text is a C string: it ends at the first NUL. */
module Base58 {
  import opened Options
  import opened CText
  import opened Digits
  import opened BigNum

  // ----- The alphabet -----

  /** `pszBase58[d]`: the digits without 0, the capitals without I and O, the small letters
      without l. */
  function CharOf(d: nat): (r: char)
    requires d < 58
  {
    if d < 9 then '1' + d as char
    else if d < 17 then 'A' + (d - 9) as char
    else if d < 22 then 'J' + (d - 17) as char
    else if d < 33 then 'P' + (d - 22) as char
    else if d < 44 then 'a' + (d - 33) as char
    else 'm' + (d - 44) as char
  }

  /** `strchr(pszBase58, c)`: the first place of a character. */
  function IndexOf(c: char): (r: Option<nat>)
    ensures r.Some? ==> r.value < 58 && CharOf(r.value) == c
    ensures r.None? ==> forall d: nat | d < 58 :: CharOf(d) != c
  {
    Find(c, 0)
  }

  function Find(c: char, i: nat): (r: Option<nat>)
    requires i <= 58
    ensures r.Some? ==> i <= r.value < 58 && CharOf(r.value) == c
    ensures r.None? ==> forall d: nat | i <= d < 58 :: CharOf(d) != c
    decreases 58 - i
  {
    if i == 58 then None else if CharOf(i) == c then Some(i) else Find(c, i + 1)
  }

  predicate IsBase58(c: char) {
    IndexOf(c).Some?
  }

  /** The alphabet is in increasing order, so no character occurs twice. */
  lemma CharsIncrease(d: nat, e: nat)
    requires d < e < 58
    ensures CharOf(d) < CharOf(e)
  {
  }

  lemma IndexOfChar(d: nat)
    requires d < 58
    ensures IndexOf(CharOf(d)) == Some(d)
  {
    var e := IndexOf(CharOf(d)).value;
    if d < e {
      CharsIncrease(d, e);
    } else if e < d {
      CharsIncrease(e, d);
    }
  }

  /** An ASCII letter or digit other than 0, O, I and l. */
  predicate InAlphabet(c: char) {
    && ('0' <= c <= '9' || 'A' <= c <= 'Z' || 'a' <= c <= 'z')
    && c != '0' && c != 'O' && c != 'I' && c != 'l'
  }

  function PlaceOf(c: char): (d: nat)
    requires InAlphabet(c)
    ensures d < 58 && CharOf(d) == c
  {
    var n := c as int;
    if c <= '9' then n - '1' as int
    else if c <= 'H' then n - 'A' as int + 9
    else if c <= 'N' then n - 'J' as int + 17
    else if c <= 'Z' then n - 'P' as int + 22
    else if c <= 'k' then n - 'a' as int + 33
    else n - 'm' as int + 44
  }

  /** These are exactly the characters of the alphabet. */
  lemma AlphabetIs(c: char)
    ensures IsBase58(c) <==> InAlphabet(c)
  {
    if InAlphabet(c) {
      var d := PlaceOf(c);
      assert CharOf(d) == c;
    }
  }

  lemma SpaceIsNotBase58(c: char)
    requires IsSpace(c)
    ensures !IsBase58(c)
  {
  }

  // ----- Encoding -----

  function Chars(d: seq<nat>): (s: string)
    requires AreDigits(58, d)
    ensures |s| == |d|
  {
    seq(|d|, i requires 0 <= i < |d| => CharOf(d[i]))
  }

  /** How many zero bytes a string of bytes starts with. */
  function LeadingZeros(v: seq<Byte>): (n: nat)
    ensures n <= |v| && (forall i | 0 <= i < n :: v[i] == 0) && (n < |v| ==> v[n] != 0)
  {
    if v != [] && v[0] == 0 then 1 + LeadingZeros(v[1..]) else 0
  }

  function Ones(n: nat): (s: string)
    ensures |s| == n
  {
    seq(n, _ => '1')
  }

  function ZeroBytes(n: nat): (s: seq<Byte>)
    ensures |s| == n
  {
    seq(n, _ => 0)
  }

  /** A one for each leading zero byte, then the number in base 58. */
  function Encoded(v: seq<Byte>): (r: string) {
    Ones(LeadingZeros(v)) + Chars(DigitsOf(58, ValueOf(256, v)))
  }

  /** `EncodeBase58`: digits and ones are collected backwards. The length handed to `BN_mpi2bn`, with
      a sign byte and a header, is an `int`. */
  method EncodeBase58(v: seq<Byte>) returns (str: string)
    ensures |v| + 5 < TWO31 ==> str == Encoded(v)
  {
    hide Chars, DigitsOf, ValueOf, LeadingZeros, Ones;
    var bignum := new CBigNum();
    bignum.SetVch(Reversed(v) + [0]);
    VchIsValue(v);
    var bn := bignum.value;
    ghost var fits := |v| + 5 < TWO31;
    str := "";
    ghost var d: seq<nat> := [];
    NoDigits();
    while bn > 0
      invariant AreDigits(58, d) && str == Chars(d)
      invariant fits ==> bn >= 0 && DigitsOf(58, ValueOf(256, v)) == DigitsOf(58, bn) + d
    {
      var c := bn % 58;
      LastDigit(bn, d);
      d := [c] + d;
      str := [CharOf(c)] + str;
      bn := bn / 58;
    }
    assert [] + d == d;
    ghost var digits := str;
    var i := 0;
    assert v[0..] == v;
    LeadingStep(v, 0);
    while i < |v| && v[i] == 0
      invariant 0 <= i <= |v| && str == Ones(i) + digits
      invariant LeadingZeros(v) == i + LeadingZeros(v[i..])
    {
      LeadingStep(v, i);
      str := ['1'] + str;
      i := i + 1;
    }
    LeadingStep(v, i);
  }

  lemma LeadingStep(v: seq<Byte>, i: nat)
    requires i <= |v|
    ensures Ones(0) == "" && Ones(i + 1) == ['1'] + Ones(i)
    ensures i < |v| && v[i] == 0 ==> LeadingZeros(v[i..]) == 1 + LeadingZeros(v[i + 1..])
    ensures !(i < |v| && v[i] == 0) ==> LeadingZeros(v[i..]) == 0
  {
    if i < |v| {
      assert v[i..][1..] == v[i + 1..];
    }
  }

  lemma NoDigits()
    ensures Chars([]) == "" && DigitsOf(58, 0) == []
  {
  }

  lemma LastDigit(v: nat, d: seq<nat>)
    requires v > 0 && AreDigits(58, d)
    ensures v / 58 < v && v % 58 < 58
    ensures DigitsOf(58, v) + d == DigitsOf(58, v / 58) + ([v % 58] + d)
    ensures Chars([v % 58] + d) == [CharOf(v % 58)] + Chars(d)
  {
    hide CharOf, Chars;
    CharsOf(v % 58, d);
  }

  lemma CharsOf(c: nat, d: seq<nat>)
    requires c < 58 && AreDigits(58, d)
    ensures Chars([c] + d) == [CharOf(c)] + Chars(d)
  {
    hide CharOf;
  }

  /** The extra zero keeps the number positive. */
  lemma VchIsValue(v: seq<Byte>)
    ensures FromBody(Reversed(Reversed(v) + [0])) == ValueOf(256, v)
  {
    hide ValueOf;
    var b := Reversed(Reversed(v) + [0]);
    assert b == [0] + v;
    assert [b[0] % 128] + b[1..] == [0] + v;
    ValueOfHead(0, v);
  }

  // ----- Decoding -----

  /** The digits of the longest prefix over the alphabet. */
  function Prefix(s: string): (d: seq<nat>)
    ensures AreDigits(58, d) && |d| <= |s|
  {
    if s != [] && IsBase58(s[0]) then [IndexOf(s[0]).value] + Prefix(s[1..]) else []
  }

  function LeadingOnes(s: string): (n: nat)
    ensures n <= |s|
  {
    if s != [] && s[0] == '1' then 1 + LeadingOnes(s[1..]) else 0
  }

  /** Spaces, characters of the alphabet, spaces; a zero byte for each leading one, then the number
      in base 256. */
  function Decoded(s: string): (r: Option<seq<Byte>>) {
    var t := SkipSpaces(s);
    var d := Prefix(t);
    if SkipSpaces(t[|d|..]) == "" then Some(ZeroBytes(LeadingOnes(t)) + Bytes(ValueOf(58, d))) else None
  }

  /** The text up to the first NUL. */
  function CString(s: string): (t: string)
    ensures '\0' !in t
  {
    if s == [] || s[0] == '\0' then [] else [s[0]] + CString(s[1..])
  }

  /** It is the longest prefix without a NUL. */
  lemma {:induction false} CStringIsPrefix(s: string)
    ensures CString(s) <= s && (CString(s) == s || s[|CString(s)|] == '\0')
  {
    if s != [] && s[0] != '\0' {
      CStringIsPrefix(s[1..]);
    }
  }

  /** `DecodeBase58`. */
  method DecodeBase58(str: string) returns (r: Option<seq<Byte>>)
    ensures r == Decoded(CString(str))
  {
    hide SkipSpaces, Prefix, ValueOf, CString;
    var psz := Spaces(CString(str));
    var ok, bn, d := ReadNumber(psz);
    if !ok {
      return None;
    }
    var vchTmp := TrimmedVch(bn);
    var zeros := CountOnes(psz);
    r := Some(ZeroBytes(zeros) + Reversed(vchTmp));
    assert Reversed(Reversed(Bytes(bn))) == Bytes(bn);
  }

  /** The loop of `DecodeBase58` over the text, and what may follow it. */
  method ReadNumber(psz: string) returns (ok: bool, bn: nat, ghost d: seq<nat>)
    ensures d == Prefix(psz) && ok == (SkipSpaces(psz[|d|..]) == "")
    ensures ok ==> bn == ValueOf(58, d)
  {
    hide ValueOf, IsBase58;
    bn, d, ok := 0, [], true;
    var p := psz;
    NoValue();
    while p != []
      invariant ok && p == psz[|psz| - |p|..] && |d| == |psz| - |p|
      invariant Prefix(psz) == d + Prefix(p) && AreDigits(58, d) && bn == ValueOf(58, d)
      decreases |p|
    {
      var p1 := IndexOf(p[0]);
      if p1.None? {
        PrefixStops(p);
        assert d + [] == d;
        var rest := Spaces(p);
        return rest == "", bn, d;
      }
      PrefixGoesOn(p, d, p1.value);
      bn := bn * 58 + p1.value;
      d := d + [p1.value];
      p := p[1..];
    }
    PrefixStops(p);
    assert d + [] == d;
    assert psz[|d|..] == "";
  }

  lemma NoValue()
    ensures ValueOf(58, []) == 0
  {
  }

  lemma PrefixStops(p: string)
    requires p == [] || IndexOf(p[0]).None?
    ensures Prefix(p) == [] && SkipSpaces("") == ""
  {
  }

  lemma PrefixGoesOn(p: string, d: seq<nat>, k: nat)
    requires p != [] && IndexOf(p[0]) == Some(k)
    ensures d + Prefix(p) == (d + [k]) + Prefix(p[1..])
    ensures ValueOf(58, d + [k]) == ValueOf(58, d) * 58 + k
  {
    assert (d + [k])[..|d|] == d;
  }

  method CountOnes(psz: string) returns (n: nat)
    ensures n == LeadingOnes(psz)
  {
    n := 0;
    while n < |psz| && psz[n] == '1'
      invariant 0 <= n <= |psz| && LeadingOnes(psz) == n + LeadingOnes(psz[n..])
    {
      assert psz[n..][1..] == psz[n + 1..];
      n := n + 1;
    }
  }

  /** `getvch`, without the sign byte if it is there. */
  method TrimmedVch(bn: nat) returns (vch: seq<Byte>)
    ensures vch == Reversed(Bytes(bn))
  {
    var bignum := new CBigNum();
    bignum.value := bn;
    vch := bignum.GetVch();
    var b := Bytes(bn);
    if |vch| >= 2 && vch[|vch| - 1] == 0 && vch[|vch| - 2] >= 0x80 {
      vch := vch[..|vch| - 1];
    }
  }
}
