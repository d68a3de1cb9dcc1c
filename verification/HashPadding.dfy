/** What the closing functions of `src/jh.c` and `src/echo.c` share: the byte that holds the extra
    bits and the first padding bit, and integers as bytes. Bits are most significant first. */
module HashPadding {
  import opened BitStrings
  import opened Arithmetic

  type Byte = bv8

  function MsbBits(b: Byte): (s: seq<bool>)
    ensures |s| == 8
  {
    [b & 128 != 0, b & 64 != 0, b & 32 != 0, b & 16 != 0, b & 8 != 0, b & 4 != 0, b & 2 != 0, b & 1 != 0]
  }

  function Bits(bytes: seq<Byte>): (s: seq<bool>)
    ensures |s| == 8 * |bytes|
  {
    if bytes == [] then [] else MsbBits(bytes[0]) + Bits(bytes[1..])
  }

  function ZeroBytes(n: nat): (s: seq<Byte>)
    ensures |s| == n
  {
    seq(n, _ => 0)
  }

  /** The n bits that the caller adds: the upper n bits of `ub`. */
  function Extra(ub: Byte, n: nat): (s: seq<bool>)
    requires n < 8
    ensures |s| == n
  {
    MsbBits(ub)[..n]
  }

  /** `z = 0x80 >> n; ((ub & -z) | z) & 0xFF`. */
  function LastByte(ub: Byte, n: nat): (r: Byte)
    requires n < 8
  {
    var z: Byte := 0x80 >> (n as bv4);
    (ub & (0 - z)) | z
  }

  /** The last byte is the extra bits, a one, and zeros. */
  lemma LastByteBits(ub: Byte, n: nat)
    requires n < 8
    ensures MsbBits(LastByte(ub, n)) == Extra(ub, n) + [true] + Zeros(7 - n)
  {
    hide MsbBits, LastByte, Extra, Zeros;
    if n < 4 {
      LastByteOfFewBits(ub, n);
    } else {
      LastByteOfManyBits(ub, n);
    }
  }

  lemma LastByteOfFewBits(ub: Byte, n: nat)
    requires n < 4
    ensures MsbBits(LastByte(ub, n)) == Extra(ub, n) + [true] + Zeros(7 - n)
  {
    match n
    case 0 => {}
    case 1 => {}
    case 2 => {}
    case _ => {}
  }

  lemma LastByteOfManyBits(ub: Byte, n: nat)
    requires 4 <= n < 8
    ensures MsbBits(LastByte(ub, n)) == Extra(ub, n) + [true] + Zeros(7 - n)
  {
    match n
    case 4 => {}
    case 5 => {}
    case 6 => {}
    case _ => {}
  }

  lemma {:induction false} BitsConcat(a: seq<Byte>, b: seq<Byte>)
    ensures Bits(a + b) == Bits(a) + Bits(b)
  {
    hide MsbBits;
    if a == [] {
      assert a + b == b;
    } else {
      BitsConcat(a[1..], b);
      assert (a + b)[0] == a[0] && (a + b)[1..] == a[1..] + b;
      var first, rest := MsbBits(a[0]), Bits(a[1..]);
      assert Bits(a + b) == first + (rest + Bits(b));
      assert first + (rest + Bits(b)) == (first + rest) + Bits(b);
    }
  }

  lemma ZeroByte()
    ensures MsbBits(0) == Zeros(8)
  {
  }

  lemma {:induction false} BitsOfZeros(k: nat)
    ensures Bits(ZeroBytes(k)) == Zeros(8 * k)
  {
    hide MsbBits;
    if k > 0 {
      BitsOfZeros(k - 1);
      assert ZeroBytes(k)[1..] == ZeroBytes(k - 1);
      ZeroByte();
      assert Zeros(8) + Zeros(8 * (k - 1)) == Zeros(8 * k);
    }
  }

  /** The last message byte and k zero bytes: the extra bits, a one and zeros. */
  lemma LastBytesBits(ub: Byte, n: nat, k: nat)
    requires n < 8
    ensures Bits([LastByte(ub, n)] + ZeroBytes(k)) == Extra(ub, n) + [true] + Zeros(7 - n + 8 * k)
  {
    hide MsbBits, Extra, LastByte;
    var b := [LastByte(ub, n)];
    BitsConcat(b, ZeroBytes(k));
    assert b[1..] == [];
    LastByteBits(ub, n);
    BitsOfZeros(k);
    assert Zeros(7 - n) + Zeros(8 * k) == Zeros(7 - n + 8 * k);
  }

  lemma PaddedParts(message: seq<Byte>, tail: seq<Byte>, length: seq<Byte>)
    ensures Bits(message + tail + length) == Bits(message) + (Bits(tail) + Bits(length))
  {
    hide Bits;
    assert message + tail + length == message + (tail + length);
    BitsConcat(message, tail + length);
    BitsConcat(tail, length);
  }

  // ----- Integers as bytes -----

  function Pow256(k: nat): (p: nat)
    ensures p > 0
  {
    if k == 0 then 1 else 256 * Pow256(k - 1)
  }

  /** The k low bytes of x, most significant first. */
  function Be(x: nat, k: nat): (b: seq<Byte>)
    ensures |b| == k
  {
    if k == 0 then [] else Be(x / 256, k - 1) + [(x % 256) as Byte]
  }

  /** The k low bytes of x, least significant first. */
  function Le(x: nat, k: nat): (b: seq<Byte>)
    ensures |b| == k
  {
    if k == 0 then [] else [(x % 256) as Byte] + Le(x / 256, k - 1)
  }

  function ByteNumber(b: Byte): (x: nat) { b as nat }

  /** The number that bytes denote, the most significant first. */
  function BeValue(b: seq<Byte>): (x: nat) {
    if b == [] then 0 else 256 * BeValue(b[..|b| - 1]) + ByteNumber(b[|b| - 1])
  }

  /** The number that bytes denote, the least significant first. */
  function LeValue(b: seq<Byte>): (x: nat) {
    if b == [] then 0 else ByteNumber(b[0]) + 256 * LeValue(b[1..])
  }

  /** The k bytes denote x modulo 256^k. */
  lemma {:induction false} BeDenotes(x: nat, k: nat)
    ensures BeValue(Be(x, k)) == x % Pow256(k)
    decreases k
  {
    hide ByteNumber;
    if k > 0 {
      BeDenotes(x / 256, k - 1);
      assert Be(x, k)[..k - 1] == Be(x / 256, k - 1);
      ByteValue(x % 256);
      LowDigits(x, Pow256(k - 1));
    }
  }

  lemma {:induction false} LeDenotes(x: nat, k: nat)
    ensures LeValue(Le(x, k)) == x % Pow256(k)
    decreases k
  {
    hide ByteNumber;
    if k > 0 {
      LeDenotes(x / 256, k - 1);
      assert Le(x, k)[1..] == Le(x / 256, k - 1);
      ByteValue(x % 256);
      LowDigits(x, Pow256(k - 1));
    }
  }

  lemma ByteValue(x: nat)
    requires x < 256
    ensures ByteNumber(x as Byte) == x
  {
  }

  lemma LowDigits(x: nat, p: nat)
    requires p > 0
    ensures x % (256 * p) == 256 * (x / 256 % p) + x % 256
  {
    var y := x / 256;
    var q, r := y / p, y % p;
    assert y == p * q + r && x == 256 * y + x % 256;
    assert x == (256 * p) * q + (256 * r + x % 256);
    DivModUnique(x, 256 * p, q, 256 * r + x % 256);
  }

  /** Two encodings in a row are one encoding of the combined integer. */
  lemma {:induction false} BeConcat(x: nat, j: nat, y: nat, k: nat)
    requires y < Pow256(k)
    ensures Be(x, j) + Be(y, k) == Be(x * Pow256(k) + y, j + k)
    decreases k
  {
    if k == 0 {
      assert Be(x, j) + [] == Be(x, j);
    } else {
      BeConcat(x, j, y / 256, k - 1);
      var z := x * Pow256(k) + y;
      Shifted(x, Pow256(k - 1), y);
      assert Be(x, j) + Be(y, k) == (Be(x, j) + Be(y / 256, k - 1)) + [(y % 256) as Byte];
    }
  }

  lemma Shifted(x: nat, p: nat, y: nat)
    ensures (x * (256 * p) + y) / 256 == x * p + y / 256
    ensures (x * (256 * p) + y) % 256 == y % 256
  {
    assert x * (256 * p) == 256 * (x * p);
  }

  lemma {:induction false} LeConcat(x: nat, j: nat, y: nat, k: nat)
    requires x < Pow256(j)
    ensures Le(x, j) + Le(y, k) == Le(x + Pow256(j) * y, j + k)
    decreases j
  {
    if j == 0 {
      assert [] + Le(y, k) == Le(y, k);
    } else {
      LeConcat(x / 256, j - 1, y, k);
      Shifted(y, Pow256(j - 1), x);
      assert y * (256 * Pow256(j - 1)) == Pow256(j) * y;
      assert y * Pow256(j - 1) == Pow256(j - 1) * y;
      assert Le(x, j) + Le(y, k) == [(x % 256) as Byte] + (Le(x / 256, j - 1) + Le(y, k));
    }
  }
}
