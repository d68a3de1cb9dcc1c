/** `CBigNum` of `src/bignum.h`, with OpenSSL's BIGNUM as an integer and its MPI format (a 4-byte
    length, then a big-endian magnitude whose top bit is the sign) written out. */
module BigNum {
  import opened Options
  import opened Arithmetic
  import opened Digits

  type Byte = b: int | 0 <= b < 256

  const TWO31: int := 0x8000_0000
  const TWO32: int := 0x1_0000_0000
  const TWO56: int := 0x100_0000_0000_0000
  const TWO63: int := 0x8000_0000_0000_0000
  const TWO64: int := 0x1_0000_0000_0000_0000

  // ----- The MPI format -----

  function Abs(x: int): (r: nat) {
    if x < 0 then -x else x
  }

  function Bytes(v: nat): (b: seq<Byte>)
    ensures Minimal(b)
  {
    DigitsOf(256, v)
  }

  /** A magnitude without leading zeros and a sign, in one string of bytes. */
  function Signed(negative: bool, b: seq<Byte>): (r: seq<Byte>) {
    if b == [] then []
    else if b[0] >= 128 then [if negative then 128 else 0] + b
    else if negative then [b[0] + 128] + b[1..]
    else b
  }

  /** What `BN_bn2mpi` writes after the length. */
  function Body(x: int): (r: seq<Byte>) {
    Signed(x < 0, Bytes(Abs(x)))
  }

  /** What `BN_mpi2bn` reads after the length. */
  function FromBody(b: seq<Byte>): (r: int) {
    if b == [] then 0
    else
      var m: int := ValueOf(256, [b[0] % 128] + b[1..]);
      if b[0] >= 128 then -m else m
  }

  /** Four bytes of length, most significant first. */
  function Header(n: nat): (r: seq<Byte>) {
    [n / 0x100_0000 % 256, n / 0x1_0000 % 256, n / 0x100 % 256, n % 256]
  }

  function Length(a: int, b: int, c: int, d: int): (r: int) {
    a * 0x100_0000 + b * 0x1_0000 + c * 0x100 + d
  }

  function Bn2mpi(x: int): (r: seq<Byte>) {
    Header(|Body(x)|) + Body(x)
  }

  /** `BN_mpi2bn`, which refuses a length that does not match. */
  function Mpi2bn(p: seq<Byte>): (r: Option<int>) {
    if |p| < 4 || Length(p[0], p[1], p[2], p[3]) != |p| - 4 then None
    else Some(FromBody(p[4..]))
  }

  /** A length converted to `int`. */
  function ToInt(n: nat): (i: int) {
    var m := n % TWO32;
    if m < TWO31 then m else m - TWO32
  }

  /** The bytes that `BN_mpi2bn` looks at, which takes the length as an `int`. */
  function Counted(p: seq<Byte>): (q: seq<Byte>) {
    if ToInt(|p|) < 0 then [] else p[..ToInt(|p|)]
  }

  lemma ValueOfHead(a: Byte, b: seq<Byte>)
    ensures ValueOf(256, [a] + b) == a * Pow(256, |b|) + ValueOf(256, b)
  {
    ValueOfConcat(256, [a], b);
    OneDigit(256, a);
  }

  /** The sign can be read off the first byte, and without it the magnitude remains. */
  lemma Unsigned(negative: bool, b: seq<Byte>)
    requires b != []
    ensures var s := Signed(negative, b);
      s != [] && (s[0] >= 128 <==> negative) && ValueOf(256, [s[0] % 128] + s[1..]) == ValueOf(256, b)
  {
    hide ValueOf;
    var s := Signed(negative, b);
    if b[0] >= 128 {
      assert [s[0] % 128] + s[1..] == [0] + b;
      ValueOfHead(0, b);
    } else {
      assert [s[0] % 128] + s[1..] == b;
    }
  }

  /** The signed form denotes the magnitude with the sign. */
  lemma FromSigned(negative: bool, b: seq<Byte>)
    ensures FromBody(Signed(negative, b)) == (if negative then -1 else 1) * ValueOf(256, b)
  {
    if b != [] {
      Unsigned(negative, b);
    }
  }

  /** Reading back what was written gives the integer. */
  lemma BodyRoundTrip(x: int)
    ensures FromBody(Body(x)) == x
  {
    FromSigned(x < 0, Bytes(Abs(x)));
    ValueOfDigits(256, Abs(x));
  }

  lemma HeaderRoundTrip(n: nat)
    requires n < TWO32
    ensures var h := Header(n);
      Length(h[0], h[1], h[2], h[3]) == n
  {
    var a, b, c := n / 0x100, n / 0x1_0000, n / 0x100_0000;
    assert n == a * 0x100 + n % 0x100;
    assert a == b * 0x100 + a % 0x100;
    assert b == c * 0x100 + b % 0x100;
    assert c % 0x100 == c;
  }

  lemma MpiRoundTrip(b: seq<Byte>)
    requires |b| + 4 < TWO31
    ensures Mpi2bn(Counted(Header(|b|) + b)) == Some(FromBody(b))
  {
    hide FromBody, ToInt, Length;
    HeaderRoundTrip(|b|);
    ShortInt(|b| + 4);
    var p := Header(|b|) + b;
    assert p[4..] == b && p[..|p|] == p;
  }

  lemma ShortInt(n: nat)
    requires n < TWO31
    ensures ToInt(n) == n
  {
  }

  lemma IntIsShort(n: nat)
    ensures ToInt(n) <= n && ToInt(n) < TWO31
  {
  }

  /** The header and the `int` length agree on how many bytes count. */
  lemma LongMpi(b: seq<Byte>)
    ensures var n := ToInt(|b| + 4);
      && n - 4 <= |b|
      && Mpi2bn(Counted(Header(|b|) + b)) == if n < 4 then None else Some(FromBody(b[..n - 4]))
  {
    hide FromBody, Length, ToInt;
    IntIsShort(|b| + 4);
    var p, n := Header(|b|) + b, ToInt(|b| + 4);
    if n >= 4 {
      HeaderWraps(|b|, n - 4);
      assert Counted(p) == p[..n] && p[..n][4..] == b[..n - 4];
      HeaderRoundTrip(n - 4);
    }
  }

  lemma HeaderWraps(n: nat, k: nat)
    requires k < TWO31 && ToInt(n + 4) == k + 4
    ensures Header(n) == Header(k)
  {
    var q := (n + 4) / TWO32;
    WrapsAround(n, k);
    ByteWraps(k, 1, 0x100_0000 * q);
    ByteWraps(k, 0x100, 0x1_0000 * q);
    ByteWraps(k, 0x1_0000, 0x100 * q);
    ByteWraps(k, 0x100_0000, q);
  }

  lemma WrapsAround(n: nat, k: nat)
    requires k < TWO31 && ToInt(n + 4) == k + 4
    ensures n == TWO32 * ((n + 4) / TWO32) + k
  {
  }

  /** A multiple of 256 x does not show in the byte at x. */
  lemma ByteWraps(k: nat, x: nat, y: nat)
    requires x > 0
    ensures (256 * x * y + k) / x % 256 == k / x % 256
  {
    var a, r := k / x, k % x;
    assert k == x * a + r;
    assert 256 * x * y + k == x * (a + 256 * y) + r;
    DivModUnique(256 * x * y + k, x, a + 256 * y, r);
    DivModUnique(a + 256 * y, 256, a / 256 + y, a % 256);
  }

  lemma ShortHeader(n: nat)
    requires n < 256
    ensures Header(n) == [0, 0, 0, n]
  {
  }

  /** One more byte of a magnitude. */
  lemma SignedGrows(negative: bool, v: nat, c: Byte)
    requires v > 0
    ensures Bytes(v * 256 + c) == Bytes(v) + [c]
    ensures Signed(negative, Bytes(v) + [c]) == Signed(negative, Bytes(v)) + [c]
  {
    DivideStep(256, v, c);
  }

  lemma FirstByte(c: Byte)
    requires c > 0
    ensures Bytes(c) == [c]
  {
    assert DigitsOf(256, c / 256) == [];
  }

  /** A magnitude of `size` bytes: its top k bytes. */
  function Top(n: nat, size: nat, k: nat): (r: nat)
    requires k <= size
  {
    n / Pow(256, size - k)
  }

  lemma TopGrows(n: nat, size: nat, k: nat)
    requires k < size
    ensures Top(n, size, k + 1) == Top(n, size, k) * 256 + Top(n, size, k + 1) % 256
  {
    DivideTwice(n, Pow(256, size - k - 1), 256);
  }

  lemma DivideTwice(n: nat, a: nat, b: nat)
    requires a > 0 && b > 0
    ensures a * b > 0 && n / a / b == n / (a * b)
  {
    var q, r := n / a, n % a;
    var q', r' := q / b, q % b;
    assert n == a * q + r;
    assert q == b * q' + r';
    DivideParts(n, a, b, r, q', r');
  }

  lemma DivideParts(n: nat, a: nat, b: nat, r: nat, q': nat, r': nat)
    requires n == a * (b * q' + r') + r && r < a && r' < b
    ensures a * b > 0 && n / (a * b) == q'
  {
    Spread(a, b, q', r');
    Fits(a, b, r', r);
    DivModUnique(n, a * b, q', a * r' + r);
  }

  lemma Spread(a: nat, b: nat, q: nat, r: nat)
    ensures a * (b * q + r) == (a * b) * q + a * r
  {
  }

  lemma Fits(a: nat, b: nat, x: nat, r: nat)
    requires x < b && r < a
    ensures a * x + r < a * b && a * b > 0
  {
    AtLeastOnce(a, b - x);
    assert a * (b - x) == a * b - a * x;
  }

  // ----- The class -----

  /** The three quantities that building a magnitude byte by byte keeps. */
  ghost predicate Builds(negative: bool, p: seq<Byte>, leading: bool, v: nat) {
    p == Signed(negative, Bytes(v)) && (leading <==> v == 0)
  }

  /** One byte of `setint64`, `setuint64` or `setuint256`: leading zeros are skipped, and the first
      other byte gets the sign, or a byte of its own for it. */
  function Append(negative: bool, p: seq<Byte>, leading: bool, c: Byte): (r: seq<Byte>) {
    if leading then
      if c == 0 then p
      else if c >= 128 then p + [if negative then 128 else 0] + [c]
      else if negative then p + [c + 128]
      else p + [c]
    else p + [c]
  }

  lemma AppendBuilds(negative: bool, p: seq<Byte>, leading: bool, v: nat, c: Byte)
    requires Builds(negative, p, leading, v)
    ensures Builds(negative, Append(negative, p, leading, c), leading && c == 0, v * 256 + c)
  {
    if v > 0 {
      SignedGrows(negative, v, c);
    } else if c > 0 {
      FirstByte(c);
    }
  }

  lemma NothingBuilt(negative: bool)
    ensures Builds(negative, [], true, 0)
  {
  }

  lemma BuiltForm(negative: bool, p: seq<Byte>, leading: bool, v: nat)
    requires Builds(negative, p, leading, v)
    ensures p == Signed(negative, Bytes(v))
  {
  }

  lemma AppendLength(negative: bool, p: seq<Byte>, leading: bool, c: Byte)
    ensures |Append(negative, p, leading, c)| <= |p| + (if !leading then 1 else if c == 0 then 0 else 2)
  {
  }

  lemma ZeroHigh(v: nat, n: nat, n0: nat)
    requires v * TWO64 + n == n0 * TWO64 && n < TWO64
    ensures v == n0
  {
  }

  class CBigNum {
    var value: int

    constructor ()
      ensures value == 0
    {
      value := 0;
    }

    /** `BN_mpi2bn` into this number; a malformed string leaves it alone. */
    method FromMpi(p: seq<Byte>)
      modifies this
      ensures value == match Mpi2bn(Counted(p)) case Some(x) => x case None => old(value)
    {
      match Mpi2bn(Counted(p))
      case Some(x) => value := x;
      case None =>
    }

    /** The end of the integer setters: the length, and the conversion. */
    method FromBuilt(p: seq<Byte>, ghost negative: bool, ghost v: nat)
      requires p == Signed(negative, Bytes(v)) && |p| + 4 < TWO31
      modifies this
      ensures value == (if negative then -1 else 1) * v
    {
      MpiRoundTrip(p);
      FromSigned(negative, Bytes(v));
      ValueOfDigits(256, v);
      FromMpi(Header(|p|) + p);
    }

    /** `setint64`. */
    method SetInt64(sn: int)
      requires -TWO63 <= sn < TWO63
      modifies this
      ensures value == sn
    {
      var negative := sn < 0;
      var n: nat := if negative then -(sn + 1) + 1 else sn;
      SetWord(n, negative);
    }

    /** `setuint64`. */
    method SetUint64(n: nat)
      requires n < TWO64
      modifies this
      ensures value == n
    {
      SetWord(n, false);
    }

    /** The loop of `setint64` and `setuint64` over the bytes of a 64-bit word. */
    method SetWord(n0: nat, negative: bool)
      requires n0 < TWO64
      modifies this
      ensures value == (if negative then -1 else 1) * n0
    {
      hide Builds, Append, Pow, Signed, Bytes, ValueOf;
      var n: nat := n0;
      var p: seq<Byte> := [];
      var leading := true;
      PowersOf256();
      NothingBuilt(negative);
      ghost var v: nat := 0;
      for i := 0 to 8
        invariant |p| <= (if leading then 0 else i + 1)
        invariant n < TWO64 && v * TWO64 + n == n0 * Pow(256, i)
        invariant Builds(negative, p, leading, v)
      {
        var c: Byte := n / TWO56 % 256;
        NextByte(v, n, n0, i);
        AppendBuilds(negative, p, leading, v, c);
        AppendLength(negative, p, leading, c);
        n := n * 256 % TWO64;
        p := Append(negative, p, leading, c);
        leading := leading && c == 0;
        v := v * 256 + c;
      }
      ZeroHigh(v, n, n0);
      BuiltForm(negative, p, leading, v);
      FromBuilt(p, negative, v);
    }

    /** `setuint256`: the bytes in memory from the last to the first. */
    method SetUint256(n: nat)
      requires n < Pow(256, 32)
      modifies this
      ensures value == n
    {
      hide Builds, Append, Pow, Signed, Bytes, ValueOf, Top;
      var p: seq<Byte> := [];
      var leading := true;
      NothingBuilt(false);
      ghost var v: nat := 0;
      TopEnds(n, 32);
      for i := 0 to 32
        invariant |p| <= (if leading then 0 else i + 1)
        invariant v == Top(n, 32, i) && Builds(false, p, leading, v)
      {
        var c := MemoryByte(n, 31 - i);
        TopGrows(n, 32, i);
        MemoryIsTop(n, i);
        AppendBuilds(false, p, leading, v, c);
        AppendLength(false, p, leading, c);
        p := Append(false, p, leading, c);
        leading := leading && c == 0;
        v := v * 256 + c;
      }
      BuiltForm(false, p, leading, v);
      FromBuilt(p, false, v);
    }

    /** The loop of `getuint64` and `getuint256`: the last `count` bytes, without the sign. */
    method GetBytes(count: nat) returns (n: nat)
      ensures n == Abs(value) % Pow(256, count)
    {
      hide Body, Pow, ValueOf;
      var vch := Body(value);
      if |vch| > 0 {
        vch := [vch[0] % 128] + vch[1..];
      }
      MaskedValue(value);
      n := 0;
      NoBytes(vch);
      var i := 0;
      while i < count && i < |vch|
        invariant 0 <= i <= count && i <= |vch|
        invariant n == ValueOf(256, vch[|vch| - i..])
      {
        NextLow(vch, i);
        n := n + vch[|vch| - 1 - i] * Pow(256, i);
        i := i + 1;
      }
      LowBytes(vch, i, count);
    }

    /** `getuint64`. */
    method GetUint64() returns (n: nat)
      ensures n == Abs(value) % TWO64
    {
      PowersOf256();
      n := GetBytes(8);
    }

    /** `getuint256`. */
    method GetUint256() returns (n: nat)
      ensures n == Abs(value) % Pow(256, 32)
    {
      n := GetBytes(32);
    }

    /** `setvch`: little-endian bytes. The length is converted to `int`: from 2^31 - 4 bytes on it
        turns negative and the number stays, and beyond 2^32 only the top bytes count. */
    method SetVch(vch: seq<Byte>)
      modifies this
      ensures var n := ToInt(|vch| + 4);
        n - 4 <= |vch| && value == if n < 4 then old(value) else FromBody(Reversed(vch)[..n - 4])
      ensures |vch| + 4 < TWO31 ==> value == FromBody(Reversed(vch))
    {
      hide FromBody, ToInt, Mpi2bn, Counted, Header;
      var b := Reversed(vch);
      LongMpi(b);
      if |vch| + 4 < TWO31 {
        ShortInt(|vch| + 4);
        assert b[..|vch|] == b;
      }
      FromMpi(Header(|vch|) + b);
    }

    /** `getvch`. */
    method GetVch() returns (vch: seq<Byte>)
      ensures vch == Reversed(Body(value))
    {
      vch := Reversed(Bn2mpi(value)[4..]);
    }

    /** `SetCompact`. */
    method SetCompact(nCompact: nat)
      requires nCompact < TWO32
      modifies this
      ensures value == CompactValue(nCompact)
    {
      hide FromBody, CompactBody, Mpi2bn, Counted;
      var size := nCompact / 0x100_0000;
      var b := CompactBody(size, nCompact / 0x1_0000 % 256, nCompact / 0x100 % 256, nCompact % 256);
      CompactLength(size, nCompact / 0x1_0000 % 256, nCompact / 0x100 % 256, nCompact % 256);
      MpiRoundTrip(b);
      ShortHeader(size);
      FromMpi([0, 0, 0, size] + b);
    }

    /** `GetCompact`. */
    method GetCompact() returns (nCompact: nat)
      ensures nCompact == Compact(value)
    {
      var vch := Body(value);
      nCompact := |vch| * 0x100_0000 % TWO32;
      if |vch| >= 1 { nCompact := nCompact + 0x1_0000 * (vch[0] as int); }
      if |vch| >= 2 { nCompact := nCompact + 0x100 * (vch[1] as int); }
      if |vch| >= 3 { nCompact := nCompact + vch[2]; }
    }
  }

  // ----- Integers in and out -----

  /** Byte k of an integer in memory, least significant first. */
  function MemoryByte(n: nat, k: nat): (r: Byte) {
    n / Pow(256, k) % 256
  }

  lemma MemoryIsTop(n: nat, i: nat)
    requires i < 32
    ensures MemoryByte(n, 31 - i) == Top(n, 32, i + 1) % 256
  {
  }

  lemma TopEnds(n: nat, size: nat)
    requires n < Pow(256, size)
    ensures Top(n, size, 0) == 0 && Top(n, size, size) == n
  {
    DivModUnique(n, Pow(256, size), 0, n);
    assert Pow(256, 0) == 1;
  }

  /** Without its sign bit, what is written is the magnitude. */
  lemma MaskedValue(x: int)
    ensures Body(x) != [] ==> ValueOf(256, [Body(x)[0] % 128] + Body(x)[1..]) == Abs(x)
    ensures Body(x) == [] ==> x == 0
  {
    var b := Bytes(Abs(x));
    ValueOfDigits(256, Abs(x));
    if b != [] {
      Unsigned(x < 0, b);
    }
  }

  lemma NextLow(b: seq<Byte>, i: nat)
    requires i < |b|
    ensures ValueOf(256, b[|b| - i - 1..]) == ValueOf(256, b[|b| - i..]) + b[|b| - 1 - i] * Pow(256, i)
  {
    hide ValueOf, Pow;
    var c := b[|b| - 1 - i];
    ValueOfHead(c, b[|b| - i..]);
    assert [c] + b[|b| - i..] == b[|b| - 1 - i..];
  }

  lemma NoBytes(b: seq<Byte>)
    ensures ValueOf(256, b[|b|..]) == 0
  {
  }

  /** The last bytes of a magnitude are its remainder. */
  lemma LowBytes(b: seq<Byte>, i: nat, count: nat)
    requires i <= |b| && i <= count && (i == count || i == |b|)
    ensures ValueOf(256, b[|b| - i..]) == ValueOf(256, b) % Pow(256, count)
  {
    hide ValueOf, Pow;
    if i == |b| {
      assert b[0..] == b;
      ValueBelow(256, b);
      PowGrows(i, count);
      DivModUnique(ValueOf(256, b), Pow(256, count), 0, ValueOf(256, b));
    } else {
      var high, low := b[..|b| - i], b[|b| - i..];
      assert b == high + low;
      ValueOfConcat(256, high, low);
      ValueBelow(256, low);
      assert ValueOf(256, high) * Pow(256, i) == Pow(256, i) * ValueOf(256, high);
      DivModUnique(ValueOf(256, b), Pow(256, i), ValueOf(256, high), ValueOf(256, low));
    }
  }

  lemma PowGrows(i: nat, count: nat)
    requires i <= count
    ensures Pow(256, i) <= Pow(256, count)
  {
    if i < count {
      PowGrows(i, count - 1);
      }
  }

  function Reversed(s: seq<Byte>): (r: seq<Byte>)
    ensures |r| == |s| && forall i | 0 <= i < |s| :: r[i] == s[|s| - 1 - i]
  {
    seq(|s|, i requires 0 <= i < |s| => s[|s| - 1 - i])
  }

  /** `setvch(getvch(x))` is x, for every integer whose bytes a 32-bit length can count. */
  lemma VchRoundTrip(x: int)
    ensures FromBody(Reversed(Reversed(Body(x)))) == x
  {
    assert Reversed(Reversed(Body(x))) == Body(x);
    BodyRoundTrip(x);
  }

  // ----- The compact format -----

  /** The bytes that `SetCompact` hands to `BN_mpi2bn`. */
  function CompactBody(size: nat, b1: Byte, b2: Byte, b3: Byte): (r: seq<Byte>) {
    if size < 3 then [b1, b2, b3][..size] else [b1, b2, b3] + seq(size - 3, _ => 0)
  }

  lemma CompactLength(size: nat, b1: Byte, b2: Byte, b3: Byte)
    ensures |CompactBody(size, b1, b2, b3)| == size
  {
  }

  function CompactValue(nCompact: nat): (r: int) {
    FromBody(CompactBody(nCompact / 0x100_0000, nCompact / 0x1_0000 % 256, nCompact / 0x100 % 256, nCompact % 256))
  }

  function ByteOr0(b: seq<Byte>, k: nat): (r: Byte) {
    if k < |b| then b[k] else 0
  }

  function Compact(x: int): (r: nat) {
    var b := Body(x);
    |b| * 0x100_0000 % TWO32 + ByteOr0(b, 0) * 0x1_0000 + ByteOr0(b, 1) * 0x100 + ByteOr0(b, 2)
  }

  lemma PowersOf256()
    ensures Pow(256, 0) == 1 && Pow(256, 8) == TWO64 && Pow(256, 32) == TWO64 * TWO64 * TWO64 * TWO64
  {
    assert Pow(256, 4) == TWO32;
    assert Pow(256, 8) == TWO64;
    assert Pow(256, 12) == TWO64 * TWO32;
    assert Pow(256, 16) == TWO64 * TWO64;
    assert Pow(256, 20) == TWO64 * TWO64 * TWO32;
    assert Pow(256, 24) == TWO64 * TWO64 * TWO64;
    assert Pow(256, 28) == TWO64 * TWO64 * TWO64 * TWO32;
  }

  lemma NextByte(v: nat, n: nat, n0: nat, i: nat)
    requires n < TWO64 && v * TWO64 + n == n0 * Pow(256, i)
    ensures (v * 256 + n / TWO56 % 256) * TWO64 + n * 256 % TWO64 == n0 * Pow(256, i + 1)
  {
    assert n / TWO56 < 256;
    assert n * 256 == n / TWO56 * TWO64 + n * 256 % TWO64;
    assert n0 * (Pow(256, i) * 256) == (n0 * Pow(256, i)) * 256;
  }
}
