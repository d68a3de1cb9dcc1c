/** The compact format of `src/bignum.h`: `SetCompact(GetCompact(x))` keeps the first three bytes of
    the signed form of x. */
module Compact {
  import opened Arithmetic
  import opened Digits
  import opened BigNum

  function ZeroDigits(k: nat): (z: seq<Byte>)
    ensures |z| == k && forall i | 0 <= i < k :: z[i] == 0
  {
    seq(k, _ => 0)
  }

  /** The bytes of the signed form that the compact format drops. */
  function Dropped(x: int): (r: nat) {
    if |Body(x)| <= 3 then 0 else |Body(x)| - 3
  }

  /** x without its dropped bytes, rounded towards zero. */
  function Truncated(x: int): (r: int) {
    var p := Pow(256, Dropped(x));
    (if x < 0 then -1 else 1) * (Abs(x) / p * p)
  }

  /** Replacing the last k digits by zeros rounds down to a multiple of the k-th power. */
  lemma DropDigits(d: seq<Byte>, k: nat)
    requires k <= |d|
    ensures ValueOf(256, d[..|d| - k] + ZeroDigits(k)) == ValueOf(256, d) / Pow(256, k) * Pow(256, k)
    ensures ValueOf(256, d[..|d| - k]) == ValueOf(256, d) / Pow(256, k)
  {
    hide ValueOf, Pow;
    var high, low := d[..|d| - k], d[|d| - k..];
    assert d == high + low;
    ValueOfConcat(256, high, low);
    ValueOfConcat(256, high, ZeroDigits(k));
    ZerosAreNothing(k);
    ValueBelow(256, low);
    assert ValueOf(256, high) * Pow(256, k) == Pow(256, k) * ValueOf(256, high);
    DivModUnique(ValueOf(256, d), Pow(256, k), ValueOf(256, high), ValueOf(256, low));
  }

  lemma ZerosAreNothing(k: nat)
    ensures ValueOf(256, ZeroDigits(k)) == 0
  {
    ValueOfZeros(256, k);
    var z: seq<nat> := seq(k, _ => 0);
    assert ZeroDigits(k) == z;
  }

  /** The signed form of the truncated number is that of x with the dropped bytes zeroed. */
  lemma TruncatedBody(x: int)
    ensures Body(Truncated(x)) == Body(x)[..|Body(x)| - Dropped(x)] + ZeroDigits(Dropped(x))
  {
    hide ValueOf, Pow, Digits.DigitsOf;
    var d, k := Bytes(Abs(x)), Dropped(x);
    ValueOfDigits(256, Abs(x));
    DropDigits(d, k);
    var e := d[..|d| - k] + ZeroDigits(k);
    if k == 0 {
      assert e == d;
      PowZero();
      assert Body(x)[..|Body(x)|] + ZeroDigits(0) == Body(x);
    } else {
      DigitsOfValue(256, e);
      assert Bytes(Abs(Truncated(x))) == e;
      assert Signed(x < 0, e) == Signed(x < 0, d)[..3] + ZeroDigits(k);
      NotZero(e);
    }
  }

  lemma PowZero()
    ensures Pow(256, 0) == 1
  {
  }

  lemma NotZero(e: seq<Byte>)
    requires e != [] && Minimal(e)
    ensures ValueOf(256, e) > 0
  {
    ValueAtLeast(256, e);
  }

  lemma CompactParts(n: nat, b1: Byte, b2: Byte, b3: Byte)
    requires n < 256
    ensures var c := n * 0x100_0000 % TWO32 + b1 * 0x1_0000 + b2 * 0x100 + b3;
      c / 0x100_0000 == n && c / 0x1_0000 % 256 == b1 && c / 0x100 % 256 == b2 && c % 256 == b3
  {
  }

  /** `SetCompact(GetCompact(x))` truncates, for a signed form of at most 255 bytes. */
  lemma CompactTruncates(x: int)
    requires |Body(x)| < 256
    ensures CompactValue(Compact(x)) == Truncated(x)
  {
    hide Body, FromBody, Truncated;
    var b := Body(x);
    CompactParts(|b|, ByteOr0(b, 0), ByteOr0(b, 1), ByteOr0(b, 2));
    TruncatedBody(x);
    assert CompactBody(|b|, ByteOr0(b, 0), ByteOr0(b, 1), ByteOr0(b, 2)) == Body(Truncated(x));
    BodyRoundTrip(Truncated(x));
  }

  /** Up to three bytes nothing is lost. */
  lemma ShortIsKept(x: int)
    requires |Body(x)| <= 3
    ensures Truncated(x) == x
  {
    PowZero();
  }

  /** A truncated number has the same compact form, so truncating again changes nothing. */
  lemma TruncatingTwice(x: int)
    ensures Compact(Truncated(x)) == Compact(x)
    ensures Truncated(Truncated(x)) == Truncated(x)
  {
    hide Body, Truncated, FromBody;
    var t := Truncated(x);
    TruncatedBody(x);
    TruncatedBody(t);
    assert |Body(t)| == |Body(x)|;
    assert Body(t)[..|Body(t)| - Dropped(t)] + ZeroDigits(Dropped(t)) == Body(t);
    BodyRoundTrip(t);
    BodyRoundTrip(Truncated(t));
  }

  // ----- Monotonicity -----

  /** The value of a first digit and n more lies in the range that digit gives it. */
  lemma LeadingDigit(d: seq<Byte>)
    requires d != []
    ensures d[0] * Pow(256, |d| - 1) <= ValueOf(256, d) < (d[0] + 1) * Pow(256, |d| - 1)
  {
    ValueOfHead(d[0], d[1..]);
    assert [d[0]] + d[1..] == d;
    ValueBelow(256, d[1..]);
    assert (d[0] + 1) * Pow(256, |d| - 1) == d[0] * Pow(256, |d| - 1) + Pow(256, |d| - 1);
  }

  /** The length of the signed form bounds a positive number on both sides. */
  lemma LengthBounds(x: nat)
    requires x > 0
    ensures var n := |Body(x)|;
      n > 0 && x < 128 * Pow(256, n - 1) && (n >= 2 ==> x >= 128 * Pow(256, n - 2))
  {
    hide ValueOf, Pow;
    var d := Bytes(x);
    ValueOfDigits(256, x);
    LeadingDigit(d);
    var p := Pow(256, |d| - 1);
    var f: nat := d[0];
    if f >= 128 {
      PowSteps(|d| - 1);
      Scaled(128, f, p);
      Scaled(f + 1, 256, p);
    } else {
      Scaled(f + 1, 128, p);
      Scaled(1, f, p);
      if |d| >= 2 {
        PowSteps(|d| - 2);
      }
    }
  }

  lemma PowSteps(n: nat)
    ensures Pow(256, n + 1) == Pow(256, n) * 256
  {
  }

  lemma Scaled(a: nat, b: nat, p: nat)
    requires a <= b
    ensures a * p <= b * p
  {
    assert b * p == a * p + (b - a) * p;
  }

  lemma RoundsDown(x: nat, p: nat)
    requires p > 0
    ensures x / p * p <= x
  {
    assert x == p * (x / p) + x % p;
  }

  /** On non-negative numbers truncation is monotone. */
  lemma TruncationIsMonotone(x: nat, y: nat)
    requires x <= y
    ensures Truncated(x) <= Truncated(y)
  {
    hide Body, ValueOf, Pow, Truncated, Dropped;
    TruncatedNat(x);
    TruncatedNat(y);
    var p := Pow(256, Dropped(x));
    RoundsDown(x, p);
    if x == 0 {
      ZeroTruncates(p);
    } else if |Body(x)| == |Body(y)| {
      SameDropped(x, y);
      DivisionIsMonotone(x, y, p);
      Scaled(x / p, y / p, p);
    } else {
      LongerIsLarger(x, y);
      LongerSurvives(x, y);
    }
  }

  lemma TruncatedNat(x: nat)
    ensures Truncated(x) == x / Pow(256, Dropped(x)) * Pow(256, Dropped(x))
  {
    hide Body, Pow;
  }

  lemma SameDropped(x: int, y: int)
    requires |Body(x)| == |Body(y)|
    ensures Dropped(x) == Dropped(y)
  {
    hide Body;
  }

  lemma LongerSurvives(x: nat, y: nat)
    requires 0 < x <= y && |Body(x)| < |Body(y)|
    ensures x <= y / Pow(256, Dropped(y)) * Pow(256, Dropped(y))
  {
    hide Body, Pow;
    LengthBounds(x);
    LengthBounds(y);
    if |Body(y)| <= 3 {
      PowZero();
    } else {
      TopSurvives(x, y, |Body(x)|, |Body(y)|);
    }
  }

  lemma ZeroTruncates(p: nat)
    requires p > 0
    ensures 0 / p * p == 0
  {
    DivModUnique(0, p, 0, 0);
  }

  lemma LongerIsLarger(x: nat, y: nat)
    requires 0 < x <= y
    ensures |Body(x)| <= |Body(y)|
  {
    hide Body, Pow;
    LengthBounds(x);
    LengthBounds(y);
    Apart(|Body(y)|, |Body(x)|);
  }

  lemma Apart(n: nat, m: nat)
    requires n > 0
    ensures m > n ==> 128 * Pow(256, n - 1) <= 128 * Pow(256, m - 2)
  {
    hide Pow;
    if m > n {
      PowGrows(n - 1, m - 2);
    }
  }

  /** A number of fewer bytes stays below the truncation of a longer one. */
  lemma TopSurvives(x: nat, y: nat, m: nat, n: nat)
    requires 0 < m < n && 3 < n && x < 128 * Pow(256, m - 1) && y >= 128 * Pow(256, n - 2)
    ensures x <= y / Pow(256, n - 3) * Pow(256, n - 3)
  {
    hide Pow;
    var q := Pow(256, n - 3);
    PowSteps(n - 3);
    PowGrows(m - 1, n - 2);
    Scaled(Pow(256, m - 1), Pow(256, n - 2), 128);
    var t := 128 * 256;
    assert 128 * Pow(256, n - 2) == q * t;
    DivModUnique(q * t, q, t, 0);
    DivisionIsMonotone(q * t, y, q);
    Scaled(t, y / q, q);
  }

  // ----- Longer numbers -----

  lemma SameLength(x: int)
    ensures |Body(x)| == |Body(Abs(x))|
  {
  }

  /** n bytes of signed form denote less than 128 times the power of the rest. */
  lemma FromBodyBelow(b: seq<Byte>)
    ensures b == [] ==> FromBody(b) == 0
    ensures b != [] ==> Abs(FromBody(b)) < 128 * Pow(256, |b| - 1)
  {
    if b != [] {
      var d: seq<Byte> := [b[0] % 128] + b[1..];
      LeadingDigit(d);
      Scaled(d[0] as int + 1, 128, Pow(256, |b| - 1));
    }
  }

  /** From 256 bytes on the length no longer fits, and the round trip never truncates. */
  lemma LongIsLost(x: int)
    requires |Body(x)| >= 256
    ensures CompactValue(Compact(x)) != Truncated(x)
  {
    hide Body, Pow, FromBody, Truncated;
    var n, t := |Body(x)|, Truncated(x);
    TruncatedBody(x);
    SameLength(t);
    NonZeroBody(t);
    LengthBounds(Abs(t));
    var c := Compact(x);
    var size := c / 0x100_0000;
    var b := CompactBody(size, c / 0x1_0000 % 256, c / 0x100 % 256, c % 256);
    CompactLength(size, c / 0x1_0000 % 256, c / 0x100 % 256, c % 256);
    FromBodyBelow(b);
    if b != [] {
      PowGrows(|b| - 1, n - 2);
    }
  }

  lemma NonZeroBody(x: int)
    requires Body(x) != []
    ensures Abs(x) > 0
  {
  }

  /** The compact format truncates exactly when the signed form has at most 255 bytes. */
  lemma CompactTruncatesIff(x: int)
    ensures CompactValue(Compact(x)) == Truncated(x) <==> |Body(x)| < 256
  {
    hide Body, CompactValue, Compact, Truncated;
    if |Body(x)| < 256 {
      CompactTruncates(x);
    } else {
      LongIsLost(x);
    }
  }
}
