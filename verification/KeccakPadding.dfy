/** The padding of `DEFCLOSE` in `src/keccak.c` is pad10*1 of section 5.1 of FIPS 202, on the
    message bytes followed by n more bits. */
module KeccakPadding {
  import opened KeccakLanes
  import opened BitStrings
  import opened Arithmetic

  /** The bits of a byte, least significant first, as FIPS 202 orders them (section B.1). */
  function BitsOf(b: Byte): (s: seq<bool>)
    ensures |s| == 8
  {
    [b & 1 != 0, b & 2 != 0, b & 4 != 0, b & 8 != 0, b & 16 != 0, b & 32 != 0, b & 64 != 0, b & 128 != 0]
  }

  function Bits(bytes: seq<Byte>): (s: seq<bool>)
    ensures |s| == 8 * |bytes|
  {
    if bytes == [] then [] else BitsOf(bytes[0]) + Bits(bytes[1..])
  }

  lemma {:induction false} BitsConcat(a: seq<Byte>, b: seq<Byte>)
    ensures Bits(a + b) == Bits(a) + Bits(b)
  {
    hide BitsOf;
    if a == [] {
      assert a + b == b;
    } else {
      BitsConcat(a[1..], b);
      assert (a + b)[0] == a[0] && (a + b)[1..] == a[1..] + b;
      var first, rest := BitsOf(a[0]), Bits(a[1..]);
      assert Bits(a + b) == first + (rest + Bits(b));
      assert first + (rest + Bits(b)) == (first + rest) + Bits(b);
    }
  }

  /** The n bits that the caller adds: the upper n bits of `ub`. */
  function Extra(ub: Byte, n: nat): (s: seq<bool>)
    requires n < 8
    ensures |s| == n
  {
    BitsOf(ub)[8 - n..]
  }

  /** `eb`: the n extra bits and the first padding bit. */
  function Eb(ub: Byte, n: nat): (r: Byte)
    requires n < 8
  {
    ((0x100 | (ub as bv16)) >> (8 - n as bv4)) as Byte
  }

  /** The bytes that `keccak_close` gives to `keccak_core`. */
  function Tail(lim: nat, ptr: nat, ub: Byte, n: nat): (tmp: seq<Byte>)
    requires ptr < lim && 1 < lim && n < 8
  {
    var eb := Eb(ub, n);
    if ptr == lim - 1 then
      if n == 7 then [eb] + seq(lim - 1, _ => 0) + [0x80] else [eb | 0x80]
    else
      [eb] + seq(lim - ptr - 2, _ => 0) + [0x80]
  }

  lemma EbOfFewBits(ub: Byte, n: nat)
    requires n < 4
    ensures BitsOf(Eb(ub, n)) == Extra(ub, n) + [true] + Zeros(7 - n)
  {
    match n
    case 0 => {}
    case 1 => {}
    case 2 => {}
    case _ => {}
  }

  lemma EbOfSomeBits(ub: Byte, n: nat)
    requires 4 <= n < 6
    ensures BitsOf(Eb(ub, n)) == Extra(ub, n) + [true] + Zeros(7 - n)
  {
    match n
    case 4 => {}
    case _ => {}
  }

  lemma EbOfManyBits(ub: Byte, n: nat)
    requires 6 <= n < 8
    ensures BitsOf(Eb(ub, n)) == Extra(ub, n) + [true] + Zeros(7 - n)
  {
    match n
    case 6 => {}
    case _ => {}
  }

  lemma TopBit(b: Byte)
    ensures BitsOf(b | 0x80) == BitsOf(b)[..7] + [true]
  {
  }

  /** `eb` is the n extra bits, a one and zeros, and `eb | 0x80` ends with a one. */
  lemma EbBits(ub: Byte, n: nat)
    requires n < 8
    ensures BitsOf(Eb(ub, n)) == Extra(ub, n) + [true] + Zeros(7 - n)
    ensures n < 7 ==> BitsOf(Eb(ub, n) | 0x80) == Extra(ub, n) + [true] + Zeros(6 - n) + [true]
  {
    hide BitsOf, Eb, Extra;
    if n < 4 {
      EbOfFewBits(ub, n);
    } else if n < 6 {
      EbOfSomeBits(ub, n);
    } else {
      EbOfManyBits(ub, n);
    }
    TopBit(Eb(ub, n));
  }

  lemma {:induction false} BitsOfZeros(k: nat)
    ensures Bits(seq(k, _ => 0)) == Zeros(8 * k)
  {
    if k > 0 {
      BitsOfZeros(k - 1);
      var z: seq<Byte> := seq(k, _ => 0);
      assert z[1..] == seq(k - 1, _ => 0);
      ZeroByte();
      assert Zeros(8) + Zeros(8 * (k - 1)) == Zeros(8 * k);
    }
  }

  lemma ZeroByte()
    ensures BitsOf(0) == Zeros(8)
  {
  }

  lemma LastByte()
    ensures BitsOf(0x80) == Zeros(7) + [true]
  {
  }

  lemma OneByte(b: Byte)
    ensures Bits([b]) == BitsOf(b)
  {
    hide BitsOf;
    assert [b][1..] == [];
  }

  /** A first byte, k zero bytes and 0x80. */
  lemma LongTail(b: Byte, k: nat)
    ensures Bits([b] + seq(k, _ => 0) + [0x80]) == BitsOf(b) + Zeros(8 * k + 7) + [true]
  {
    hide BitsOf, Bits;
    var z: seq<Byte> := seq(k, _ => 0);
    BitsConcat([b] + z, [0x80]);
    BitsConcat([b], z);
    OneByte(b);
    OneByte(0x80);
    LastByte();
    BitsOfZeros(k);
    assert Zeros(8 * k) + Zeros(7) == Zeros(8 * k + 7);
  }

  /** pad10*1 for a message of m bits at rate x: a one, zeros, a one. */
  function Pad10Star1(x: nat, m: nat): (r: seq<bool>)
    requires x > 0
  {
    [true] + Zeros((-(m as int) - 2) % x) + [true]
  }

  /** The number of zeros is the least that completes a block. */
  lemma ZerosComplete(x: nat, m: nat, z: nat, q: nat)
    requires x > 0 && z < x && m + z + 2 == x * q
    ensures (-(m as int) - 2) % x == z
  {
    var t: int := -(m as int) - 2;
    var k: int := 0 - q;
    assert x * k == -(x * q);
    DivModUnique(t, x, k, z);
  }

  /** Whole blocks before the message's end do not change its padding. */
  lemma PadSkipsBlocks(x: nat, m: nat, k: nat)
    requires x >= 2
    ensures Pad10Star1(x, x * k + m) == Pad10Star1(x, m)
  {
    var t: int := -(m as int) - 2;
    var z := t % x;
    assert t == x * (t / x) + z;
    var d: int := t / x - k;
    assert x * d == x * (t / x) - x * k;
    DivModUnique(-((x * k + m) as int) - 2, x, d, z);
  }

  lemma PadIs(x: nat, m: nat, z: nat, q: nat)
    requires x > 0 && z < x && m + z + 2 == x * q
    ensures Pad10Star1(x, m) == [true] + Zeros(z) + [true]
  {
    ZerosComplete(x, m, z, q);
  }

  lemma Regroup(e: seq<bool>, a: nat, b: nat)
    ensures (e + [true] + Zeros(a)) + Zeros(b) + [true] == e + ([true] + Zeros(a + b) + [true])
  {
    assert Zeros(a) + Zeros(b) == Zeros(a + b);
  }

  lemma OverflowingTail(lim: nat, ub: Byte)
    requires 1 < lim
    ensures Bits([Eb(ub, 7)] + seq(lim - 1, _ => 0) + [0x80]) == Extra(ub, 7) + Pad10Star1(8 * lim, 8 * lim - 1)
  {
    hide BitsOf, Bits, Extra, Eb, Pad10Star1;
    EbBits(ub, 7);
    LongTail(Eb(ub, 7), lim - 1);
    PadIs(8 * lim, 8 * lim - 1, 8 * lim - 1, 2);
    Regroup(Extra(ub, 7), 0, 8 * lim - 1);
  }

  lemma OneByteTail(lim: nat, ub: Byte, n: nat)
    requires 1 < lim && n < 7
    ensures Bits([Eb(ub, n) | 0x80]) == Extra(ub, n) + Pad10Star1(8 * lim, 8 * lim - 8 + n)
  {
    hide BitsOf, Bits, Extra, Eb, Pad10Star1;
    EbBits(ub, n);
    OneByte(Eb(ub, n) | 0x80);
    PadIs(8 * lim, 8 * lim - 8 + n, 6 - n, 1);
    assert Extra(ub, n) + [true] + Zeros(6 - n) + [true] == Extra(ub, n) + ([true] + Zeros(6 - n) + [true]);
  }

  lemma OrdinaryTail(lim: nat, ptr: nat, ub: Byte, n: nat)
    requires ptr + 1 < lim && n < 8
    ensures Bits([Eb(ub, n)] + seq(lim - ptr - 2, _ => 0) + [0x80])
         == Extra(ub, n) + Pad10Star1(8 * lim, 8 * ptr + n)
  {
    hide BitsOf, Bits, Extra, Eb, Pad10Star1;
    var k := lim - ptr - 2;
    EbBits(ub, n);
    LongTail(Eb(ub, n), k);
    PadIs(8 * lim, 8 * ptr + n, 8 * k + 14 - n, 1);
    Regroup(Extra(ub, n), 7 - n, 8 * k + 7);
  }

  /** Behind `ptr` pending bytes of a block of `lim` bytes, the tail is the extra bits followed by
      pad10*1, and it ends a block. */
  lemma TailIsPad10Star1(lim: nat, ptr: nat, ub: Byte, n: nat)
    requires ptr < lim && 1 < lim && n < 8
    ensures Bits(Tail(lim, ptr, ub, n)) == Extra(ub, n) + Pad10Star1(8 * lim, 8 * ptr + n)
    ensures |Tail(lim, ptr, ub, n)| == if ptr == lim - 1 && n == 7 then 1 + lim else lim - ptr
  {
    hide BitsOf, Bits, Extra, Eb, Pad10Star1;
    if ptr < lim - 1 {
      OrdinaryTail(lim, ptr, ub, n);
    } else if n == 7 {
      OverflowingTail(lim, ub);
    } else {
      OneByteTail(lim, ub, n);
    }
  }
}
