/** `CBigNum::ToString`, `GetHex` and `SetHex` of `src/bignum.h`: numbers as text. */
module NumberText {
  import opened Digits
  import opened CText

  const HexDigits := "0123456789abcdef"

  function DigitChar(d: nat): (r: char)
    requires d < 16
  {
    HexDigits[d]
  }

  function Chars(d: seq<nat>): (s: string)
    requires AreDigits(16, d)
    ensures |s| == |d|
  {
    seq(|d|, i requires 0 <= i < |d| => DigitChar(d[i]))
  }

  /** The text of a number: its digits, after a minus sign if it is negative. */
  function Text(x: int, b: Base): (r: string)
    requires b <= 16
  {
    if x == 0 then "0"
    else if x < 0 then "-" + Chars(DigitsOf(b, -x))
    else Chars(DigitsOf(b, x))
  }

  /** `ToString(nBase)`: the digits are produced from the last to the first, then turned round. */
  method ToString(x: int, nBase: Base) returns (str: string)
    requires nBase <= 16
    ensures str == Text(x, nBase)
  {
    hide Chars, DigitsOf;
    var bn: nat := if x < 0 then -x else x;
    if bn == 0 {
      return "0";
    }
    str := "";
    ghost var d: seq<nat> := [];
    Nothing(nBase);
    while bn > 0
      invariant AreDigits(16, d) && str == Chars(d)
      invariant DigitsOf(nBase, if x < 0 then -x else x) == DigitsOf(nBase, bn) + d
    {
      var c := bn % nBase;
      LastDigit(nBase, bn, d);
      CharsOf(c, d);
      d := [c] + d;
      str := [DigitChar(c)] + str;
      bn := bn / nBase;
    }
    assert [] + d == d;
    if x < 0 {
      str := "-" + str;
    }
  }

  lemma Nothing(b: Base)
    ensures Chars([]) == "" && DigitsOf(b, 0) == []
  {
  }

  lemma LastDigit(b: Base, v: nat, d: seq<nat>)
    requires v > 0
    ensures v / b < v && v % b < b
    ensures DigitsOf(b, v) + d == DigitsOf(b, v / b) + ([v % b] + d)
  {
    QuotientIsSmaller(b, v);
  }

  lemma CharsOf(c: nat, d: seq<nat>)
    requires c < 16 && AreDigits(16, d)
    ensures Chars([c] + d) == [DigitChar(c)] + Chars(d)
  {
    hide DigitChar;
  }

  // ----- Reading hexadecimal -----

  predicate IsHexDigit(c: char) {
    '0' <= c <= '9' || 'a' <= c <= 'f' || 'A' <= c <= 'F'
  }

  /** The table `phexdigit`. */
  function HexValue(c: char): (v: nat)
    requires IsHexDigit(c)
    ensures v < 16
  {
    if '0' <= c <= '9' then c as int - '0' as int
    else if 'a' <= c <= 'f' then c as int - 'a' as int + 10
    else c as int - 'A' as int + 10
  }

  /** The leading hexadecimal digits. */
  function HexPrefix(s: string): (d: seq<nat>)
    ensures AreDigits(16, d)
  {
    if s != [] && IsHexDigit(s[0]) then [HexValue(s[0])] + HexPrefix(s[1..]) else []
  }

  /** A prefix "0x", in either case. */
  function SkipPrefix(s: string): (r: string) {
    if |s| >= 2 && s[0] == '0' && (s[1] == 'x' || s[1] == 'X') then s[2..] else s
  }

  /** What a text denotes: spaces, a sign, a prefix, spaces, and the digits. */
  function HexNumber(s: string): (r: int) {
    var t := SkipSpaces(s);
    if t != [] && t[0] == '-' then -(ValueOf(16, HexPrefix(SkipSpaces(SkipPrefix(t[1..])))) as int)
    else ValueOf(16, HexPrefix(SkipSpaces(SkipPrefix(t))))
  }

  /** `SetHex`. */
  method SetHex(str: string) returns (value: int)
    ensures value == HexNumber(str)
  {
    hide ValueOf, HexPrefix, SkipSpaces;
    var psz := Spaces(str);
    var negative := false;
    if psz != [] && psz[0] == '-' {
      negative := true;
      psz := psz[1..];
    }
    if |psz| >= 2 && psz[0] == '0' && (psz[1] == 'x' || psz[1] == 'X') {
      psz := psz[2..];
    }
    psz := Spaces(psz);
    value := Digits16(psz);
    if negative {
      value := 0 - value;
    }
  }

  method Digits16(str: string) returns (value: nat)
    ensures value == ValueOf(16, HexPrefix(str))
  {
    var psz := str;
    value := 0;
    ghost var d: seq<nat> := [];
    while psz != [] && IsHexDigit(psz[0])
      invariant value == ValueOf(16, d) && HexPrefix(str) == d + HexPrefix(psz)
      decreases |psz|
    {
      var n := HexValue(psz[0]);
      assert (d + [n])[..|d|] == d;
      assert d + HexPrefix(psz) == (d + [n]) + HexPrefix(psz[1..]);
      d := d + [n];
      value := value * 16 + n;
      psz := psz[1..];
    }
    assert d + [] == d;
  }

  // ----- Case does not matter -----

  function Lower(c: char): (r: char) {
    if 'A' <= c <= 'Z' then c + 32 as char else c
  }

  function LowerAll(s: string): (r: string)
    ensures |r| == |s|
  {
    seq(|s|, i requires 0 <= i < |s| => Lower(s[i]))
  }

  lemma LowerTail(s: string, k: nat)
    requires k <= |s|
    ensures LowerAll(s[k..]) == LowerAll(s)[k..]
  {
  }

  lemma {:induction false} LowerSpaces(s: string)
    ensures SkipSpaces(LowerAll(s)) == LowerAll(SkipSpaces(s))
  {
    if s != [] && IsSpace(s[0]) {
      LowerTail(s, 1);
      LowerSpaces(s[1..]);
    }
  }

  lemma LowerPrefix(s: string)
    ensures SkipPrefix(LowerAll(s)) == LowerAll(SkipPrefix(s))
  {
    if |s| >= 2 {
      LowerTail(s, 2);
    }
  }

  lemma LowerDigit(c: char)
    ensures IsHexDigit(Lower(c)) <==> IsHexDigit(c)
    ensures IsHexDigit(c) ==> HexValue(Lower(c)) == HexValue(c)
  {
  }

  lemma {:induction false} LowerDigits(s: string)
    ensures HexPrefix(LowerAll(s)) == HexPrefix(s)
  {
    hide HexValue, IsHexDigit, Lower;
    if s != [] {
      LowerDigit(s[0]);
      LowerTail(s, 1);
      LowerDigits(s[1..]);
    }
  }

  /** A text denotes the same number in capitals and in small letters. */
  lemma HexIgnoresCase(s: string)
    ensures HexNumber(LowerAll(s)) == HexNumber(s)
  {
    hide ValueOf, HexPrefix, SkipSpaces, SkipPrefix;
    LowerSpaces(s);
    var t := SkipSpaces(s);
    var u := if t != [] && t[0] == '-' then t[1..] else t;
    if t != [] {
      LowerTail(t, 1);
    }
    LowerPrefix(u);
    LowerSpaces(SkipPrefix(u));
    LowerDigits(SkipSpaces(SkipPrefix(u)));
  }

  // ----- The two undo each other -----

  /** The digits of a text are 0 .. 9 and then small letters. */
  lemma DigitCharIs(d: nat)
    requires d < 16
    ensures DigitChar(d) == if d < 10 then '0' + d as char else 'a' + (d - 10) as char
  {
  }

  lemma DigitCharReads(d: nat)
    requires d < 16
    ensures IsHexDigit(DigitChar(d)) && HexValue(DigitChar(d)) == d
    ensures DigitChar(d) == '0' <==> d == 0
  {
  }

  lemma {:induction false} PrefixOfChars(d: seq<nat>)
    requires AreDigits(16, d)
    ensures HexPrefix(Chars(d)) == d
  {
    if d != [] {
      DigitCharReads(d[0]);
      PrefixOfChars(d[1..]);
      assert Chars(d)[1..] == Chars(d[1..]);
    }
  }

  /** `SetHex(GetHex(x))` is x, for every integer. */
  lemma HexRoundTrip(x: int)
    ensures HexNumber(Text(x, 16)) == x
  {
    if x == 0 {
      assert Chars([0]) == "0";
      PrefixOfChars([0]);
      OneDigit(16, 0);
    } else {
      var m: nat := if x < 0 then -x else x;
      var d := DigitsOf(16, m);
      var s := Chars(d);
      DigitCharReads(d[0]);
      assert s[0] != '0' && !IsSpace(s[0]) && s[0] != '-';
      assert SkipSpaces(SkipPrefix(s)) == s;
      PrefixOfChars(d);
      ValueOfDigits(16, m);
      if x < 0 {
        assert Text(x, 16)[1..] == s;
      }
    }
  }
}
