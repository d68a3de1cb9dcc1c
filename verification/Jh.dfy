/** The streaming, padding and block counting of `src/jh.c`. The permutation E8 with the additions
    of the block before and after it is a parameter, as is the output of the second half of the
    state. */
module Jh {
  import opened HashPadding
  import opened BitStrings
  import opened Streaming

  const TWO32 := 0x1_0000_0000
  const TWO64 := 0x1_0000_0000_0000_0000

  // ----- The block counter, in both word sizes -----

  /** `block_count`, or `block_count_high` and `block_count_low` where there is no 64-bit type. */
  datatype Count = Count64(n: nat) | Count32(high: nat, low: nat)
  {
    predicate Valid() {
      match this
      case Count64(n) => n < TWO64
      case Count32(high, low) => high < TWO32 && low < TWO32
    }

    function Value(): (r: nat) {
      match this
      case Count64(n) => n
      case Count32(high, low) => high * TWO32 + low
    }

    /** The increment in `jh_core`. */
    function Next(): (r: Count) {
      match this
      case Count64(n) => Count64((n + 1) % TWO64)
      case Count32(high, low) =>
        var l := (low + 1) % TWO32;
        Count32(if l == 0 then (high + 1) % TWO32 else high, l)
    }

    function Zero(): (r: Count) {
      match this
      case Count64(_) => Count64(0)
      case Count32(_, _) => Count32(0, 0)
    }

    /** The 16 bytes of the length in `jh_close`. */
    function LengthField(ptr: nat, n: nat): (b: seq<Byte>)
      ensures |b| == 16
    {
      match this
      case Count64(c) =>
        var l0 := ((c * 512) % TWO64 + 8 * ptr + n) % TWO64;
        var l1 := c / 0x80_0000_0000_0000;
        Be(l1, 8) + Be(l0, 8)
      case Count32(high, low) =>
        var l0 := ((low * 512) % TWO32 + 8 * ptr + n) % TWO32;
        var l1 := (low / 0x80_0000 + (high * 512) % TWO32) % TWO32;
        var l2 := high / 0x80_0000;
        Be(0, 4) + Be(l2, 4) + Be(l1, 4) + Be(l0, 4)
    }
  }

  lemma NextCounts(c: Count)
    requires c.Valid()
    ensures c.Next().Valid() && c.Next().Value() == (c.Value() + 1) % TWO64
  {
  }

  lemma Pow256Values()
    ensures Pow256(4) == TWO32 && Pow256(8) == TWO64
  {
    assert Pow256(2) == 65536;
    assert Pow256(4) == 65536 * 65536;
  }

  lemma Field64(k: nat, e: nat, l0: nat, l1: nat)
    requires k < TWO64 && e < 512
    requires l0 == ((k * 512) % TWO64 + e) % TWO64 && l1 == k / 0x80_0000_0000_0000
    ensures Be(l1, 8) + Be(l0, 8) == Be(512 * k + e, 16)
  {
    hide Be;
    Pow256Values();
    Low64(k, e);
    BeConcat(l1, 8, l0, 8);
  }

  lemma Field32(high: nat, low: nat, e: nat, l0: nat, l1: nat, l2: nat)
    requires high < TWO32 && low < TWO32 && e < 512
    requires l0 == ((low * 512) % TWO32 + e) % TWO32
    requires l1 == (low / 0x80_0000 + (high * 512) % TWO32) % TWO32
    requires l2 == high / 0x80_0000
    ensures Be(0, 4) + Be(l2, 4) + Be(l1, 4) + Be(l0, 4) == Be(512 * (high * TWO32 + low) + e, 16)
  {
    hide Be;
    Pow256Values();
    Low32(low, e);
    Low32(high, low / 0x80_0000);
    BeConcat(0, 4, l2, 4);
    BeConcat(l2, 8, l1, 4);
    BeConcat(l2 * TWO32 + l1, 12, l0, 4);
  }

  /** In both word sizes the length field is the 128-bit number of message bits. */
  lemma LengthFieldIsBitCount(c: Count, ptr: nat, n: nat)
    requires c.Valid() && ptr < 64 && n < 8
    ensures c.LengthField(ptr, n) == Be(512 * c.Value() + 8 * ptr + n, 16)
    ensures BeValue(c.LengthField(ptr, n)) == 512 * c.Value() + 8 * ptr + n
  {
    hide Be;
    BitsFit(512 * c.Value() + 8 * ptr + n);
    match c
    case Count64(k) =>
      Field64(k, 8 * ptr + n, ((k * 512) % TWO64 + 8 * ptr + n) % TWO64, k / 0x80_0000_0000_0000);
    case Count32(high, low) =>
      Field32(high, low, 8 * ptr + n, ((low * 512) % TWO32 + 8 * ptr + n) % TWO32,
              (low / 0x80_0000 + (high * 512) % TWO32) % TWO32, high / 0x80_0000);
  }

  /** A number below 2^128 is the value of its 16 bytes. */
  lemma BitsFit(x: nat)
    requires x < TWO64 * TWO64
    ensures BeValue(Be(x, 16)) == x
  {
    hide Be, BeValue;
    BeDenotes(x, 16);
    Pow256Values();
    assert Pow256(16) == TWO64 * Pow256(8);
  }

  lemma Low64(k: nat, e: nat)
    requires k < TWO64 && e < 512
    ensures (k * 512) % TWO64 + e < TWO64
    ensures k / 0x80_0000_0000_0000 * TWO64 + ((k * 512) % TWO64 + e) == 512 * k + e
  {
  }

  lemma Low32(k: nat, e: nat)
    requires k < TWO32 && e < 512
    ensures (k * 512) % TWO32 + e < TWO32
    ensures k / 0x80_0000 * TWO32 + ((k * 512) % TWO32 + e) == 512 * k + e
  {
  }

  // ----- The padding -----

  /** The bytes that `jh_close` gives to `jh_core`. */
  function Tail(c: Count, ptr: nat, ub: Byte, n: nat): (r: seq<Byte>)
    requires ptr < 64 && n < 8
  {
    var numz := if ptr == 0 && n == 0 then 47 else 111 - ptr;
    [LastByte(ub, n)] + ZeroBytes(numz) + c.LengthField(ptr, n)
  }

  /** The least number of zero bits, at least 383, that completes a block of 512 bits behind a
      message of m bits, a one, and 128 bits of length. */
  function ZeroBits(m: nat): (r: nat) {
    383 + (-(m as int)) % 512
  }

  lemma ZerosFill(k: nat, e: nat)
    requires e < 512
    ensures ZeroBits(512 * k + e) == if e == 0 then 383 else 895 - e
  {
  }

  // ----- The context -----

  /** The message, the extra bits and the padding; the length field holds the number of message
      bits, which the 64-bit block counter carries modulo 2^73. */
  function Padded(message: seq<Byte>, ub: Byte, n: nat): (r: seq<Byte>)
    requires n < 8
  {
    var total := 8 * |message| + n;
    message + ([LastByte(ub, n)] + ZeroBytes((ZeroBits(total) + n - 7) / 8)) + Be(total % (512 * TWO64), 16)
  }

  /** The padded message is whole blocks: message, extra bits, a one, zeros, and the length. */
  lemma PaddedMessage(message: seq<Byte>, ub: Byte, n: nat)
    requires n < 8
    ensures var total := 8 * |message| + n;
      && Bits(Padded(message, ub, n))
         == Bits(message) + (Extra(ub, n) + [true] + Zeros(ZeroBits(total)) + Bits(Be(total % (512 * TWO64), 16)))
      && |Padded(message, ub, n)| % 64 == 0
      && BeValue(Padded(message, ub, n)[|Padded(message, ub, n)| - 16..]) == total % (512 * TWO64)
  {
    hide Bits, Extra, LastByte, Be, BeValue, ZeroBits;
    var k := Blocks(64, |message|);
    var ptr := |message| - 64 * k;
    var total := 8 * |message| + n;
    assert total == 512 * k + (8 * ptr + n);
    ZeroBytesFill(k, ptr, n);
    var zeros := (ZeroBits(total) + n - 7) / 8;
    var tail := [LastByte(ub, n)] + ZeroBytes(zeros);
    var length := Be(total % (512 * TWO64), 16);
    PaddedParts(message, tail, length);
    LastBytesBits(ub, n, zeros);
    assert 7 - n + 8 * zeros == ZeroBits(total);
    WholeBlocks(k, ptr, n, zeros);
    BitsFit(total % (512 * TWO64));
    assert (message + tail + length)[|message + tail|..] == length;
  }

  lemma WholeBlocks(k: nat, ptr: nat, n: nat, zeros: nat)
    requires ptr < 64 && n < 8 && zeros == if ptr == 0 && n == 0 then 47 else 111 - ptr
    ensures (64 * k + ptr + (1 + zeros) + 16) % 64 == 0
  {
    assert 64 * k + ptr + 17 + zeros == 64 * (if ptr == 0 && n == 0 then k + 1 else k + 2);
  }

  /** The code's tail, with the block counter modulo 2^64, pads the message. */
  lemma TailPads(c: Count, message: seq<Byte>, ub: Byte, n: nat)
    requires n < 8 && c.Valid() && c.Value() == Blocks(64, |message|) % TWO64
    ensures message + Tail(c, |message| - 64 * Blocks(64, |message|), ub, n) == Padded(message, ub, n)
  {
    hide LastByte, Be, Count.Value, Count.LengthField, ZeroBits, Tail, Padded;
    var k := Blocks(64, |message|);
    var ptr := |message| - 64 * k;
    var total := 8 * |message| + n;
    assert total == 512 * k + (8 * ptr + n);
    LengthFieldIsBitCount(c, ptr, n);
    CountWraps(k, 8 * ptr + n);
    assert c.LengthField(ptr, n) == Be(total % (512 * TWO64), 16);
    ZeroBytesFill(k, ptr, n);
    TailShape(c, message, ptr, ub, n);
  }

  lemma TailShape(c: Count, message: seq<Byte>, ptr: nat, ub: Byte, n: nat)
    requires n < 8 && ptr < 64
    requires c.LengthField(ptr, n) == Be((8 * |message| + n) % (512 * TWO64), 16)
    requires (ZeroBits(8 * |message| + n) + n - 7) / 8 == if ptr == 0 && n == 0 then 47 else 111 - ptr
    ensures message + Tail(c, ptr, ub, n) == Padded(message, ub, n)
  {
    hide LastByte, Be, Count.LengthField, ZeroBits;
  }

  lemma ZeroBytesFill(k: nat, ptr: nat, n: nat)
    requires ptr < 64 && n < 8
    ensures (ZeroBits(512 * k + (8 * ptr + n)) + n - 7) / 8 == if ptr == 0 && n == 0 then 47 else 111 - ptr
    ensures (ZeroBits(512 * k + (8 * ptr + n)) + n - 7) % 8 == 0
  {
    hide ZeroBits;
    ZerosFill(k, 8 * ptr + n);
  }

  lemma CountWraps(k: nat, e: nat)
    requires e < 512
    ensures (512 * k + e) % (512 * TWO64) == 512 * (k % TWO64) + e
  {
    var q, r := k / TWO64, k % TWO64;
    assert k == TWO64 * q + r;
    assert 512 * k + e == (512 * TWO64) * q + (512 * r + e);
  }

  /** The digest: the last 4w bytes of the 64 that the upper half of the state makes. */
  function Digest<S>(f8: (S, seq<Byte>) -> S, upper: S -> seq<Byte>, iv: S, w: nat,
                     message: seq<Byte>, ub: Byte, n: nat): (r: seq<Byte>)
    requires n < 8 && w <= 16
  {
    LastBytes(upper(Absorb(f8, 64, iv, Padded(message, ub, n)).0), 4 * w)
  }

  function LastBytes(b: seq<Byte>, k: nat): (r: seq<Byte>) {
    if k <= |b| then b[|b| - k..] else b
  }

  /** Byte i of the digest is byte 64 - 4w + i of the upper half. */
  lemma DigestBytes<S>(f8: (S, seq<Byte>) -> S, upper: S -> seq<Byte>, iv: S, w: nat,
                       message: seq<Byte>, ub: Byte, n: nat, i: nat)
    requires n < 8 && w <= 16 && i < 4 * w
    requires |upper(Absorb(f8, 64, iv, Padded(message, ub, n)).0)| == 64
    ensures var half := upper(Absorb(f8, 64, iv, Padded(message, ub, n)).0);
      var d := Digest(f8, upper, iv, w, message, ub, n);
      |d| == 4 * w && |half| == 64 && d[i] == half[64 - 4 * w + i]
  {
    hide Absorb, Padded;
  }

  lemma ZeroCount(c: Count)
    ensures c.Zero().Valid() && c.Zero().Value() == 0
  {
  }

  lemma BlocksAreQuotient(n: nat)
    ensures Blocks(64, n) == n / 64
  {
    hide Blocks;
  }

  lemma CountStep(a: nat, clen: nat)
    ensures (a / 64 % TWO64 + (a % 64 + clen) / 64) % TWO64 == (a + clen) / 64 % TWO64
    ensures (a % 64 + clen) % 64 == (a + clen) % 64
  {
    var q, r := a / 64, a % 64;
    var q', r' := (r + clen) / 64, (r + clen) % 64;
    assert a + clen == 64 * (q + q') + r';
    assert (a + clen) / 64 == q + q';
    var d, m := q / TWO64, q % TWO64;
    assert q + q' == TWO64 * d + (m + q');
  }

  class Context<S(!new)> {
    /** `INPUT_BUF1; E8; INPUT_BUF2;` */
    const f8: (S, seq<Byte>) -> S
    /** The upper half of the state as 64 bytes. */
    const upper: S -> seq<Byte>
    const iv: S
    const w: nat
    const buf: array<Byte>
    var ptr: nat
    var h: S
    var blocks: Count
    /** Everything fed since the last `jh_init`. */
    ghost var message: seq<Byte>

    ghost predicate Shape()
      reads this
    {
      && buf.Length == 64 && ptr <= 64 && w <= 16 && blocks.Valid()
      && (forall s :: |upper(s)| == 64)
    }

    /** State, pending bytes and block count are functions of the message, however it was cut. */
    ghost predicate Valid()
      reads this, buf
    {
      && Shape() && ptr < 64
      && (h, buf[..ptr]) == Absorb(f8, 64, iv, message)
      && blocks.Value() == Blocks(64, |message|) % TWO64
    }

    /** `jh_init`. */
    constructor (f8: (S, seq<Byte>) -> S, upper: S -> seq<Byte>, iv: S, w: nat, zero: Count)
      requires w <= 16 && zero.Valid() && zero.Value() == 0 && forall s :: |upper(s)| == 64
      ensures Valid() && fresh(buf) && message == []
      ensures this.f8 == f8 && this.upper == upper && this.iv == iv && this.w == w
    {
      this.f8, this.upper, this.iv, this.w := f8, upper, iv, w;
      buf := new Byte[64](_ => 0);
      ptr := 0;
      h := iv;
      blocks := zero;
      message := [];
    }

    method Copy(data: seq<Byte>)
      requires ptr + |data| <= buf.Length
      modifies buf
      ensures buf[..ptr + |data|] == old(buf[..ptr]) + data
    {
      forall k | 0 <= k < |data| {
        buf[ptr + k] := data[k];
      }
    }

    /** One turn of the loop of `jh_core`. */
    method Take(data: seq<Byte>) returns (clen: nat)
      requires Shape() && ptr < 64 && data != []
      modifies this`ptr, this`h, this`blocks, buf
      ensures Shape() && ptr < 64 && 0 < clen <= |data|
      ensures Absorb(f8, 64, h, buf[..ptr] + data[clen..]) == Absorb(f8, 64, old(h), old(buf[..ptr]) + data)
      ensures blocks.Value() == (old(blocks.Value()) + (old(ptr) + clen) / 64) % TWO64
      ensures ptr == (old(ptr) + clen) % 64
    {
      hide Absorb;
      ghost var v, pending := h, buf[..ptr];
      clen := 64 - ptr;
      if clen > |data| {
        clen := |data|;
      }
      Copy(data[..clen]);
      ptr := ptr + clen;
      assert pending + data == buf[..ptr] + data[clen..];
      if ptr == 64 {
        AbsorbBlock(f8, 64, v, buf[..64], data[clen..]);
        h := f8(h, buf[..64]);
        NextCounts(blocks);
        blocks := blocks.Next();
        ptr := 0;
        assert buf[..0] + data[clen..] == data[clen..];
      }
    }

    /** `jh_core`. */
    method Core(data: seq<Byte>)
      requires Valid()
      modifies this`ptr, this`h, this`blocks, this`message, buf
      ensures Valid() && message == old(message) + data
    {
      hide Absorb, Blocks, Count.Value, Count.Valid;
      AbsorbInParts(f8, 64, iv, message, data);
      PendingIsTheEnd(f8, 64, iv, message);
      ghost var fed := |message|;
      BlocksAreQuotient(fed);
      BlocksAreQuotient(fed + |data|);
      message := message + data;
      if |data| < 64 - ptr {
        NothingFull(f8, 64, h, buf[..ptr] + data);
        Copy(data);
        ptr := ptr + |data|;
        return;
      }
      var i := 0;
      assert data[0..] == data;
      while i < |data|
        invariant Shape() && ptr < 64 && 0 <= i <= |data|
        invariant Absorb(f8, 64, h, buf[..ptr] + data[i..]) == Absorb(f8, 64, iv, message)
        invariant message == old(message) + data
        invariant ptr == (fed + i) % 64 && blocks.Value() == ((fed + i) / 64) % TWO64
      {
        var clen := Take(data[i..]);
        CountStep(fed + i, clen);
        assert data[i..][clen..] == data[i + clen..];
        i := i + clen;
      }
      assert buf[..ptr] + data[i..] == buf[..ptr];
      NothingFull(f8, 64, h, buf[..ptr]);
    }

    /** The end of `jh_close`. */
    method Upper() returns (dst: seq<Byte>)
      requires Shape()
      ensures dst == LastBytes(upper(h), 4 * w)
    {
      var out := upper(h);
      dst := out[(16 - w) * 4..];
    }

    /** `jh_close`. */
    method Close(ub: Byte, n: nat) returns (dst: seq<Byte>)
      requires Valid() && n < 8
      modifies this`ptr, this`h, this`blocks, this`message, buf
      ensures dst == Digest(f8, upper, iv, w, old(message), ub, n)
      ensures Valid() && message == []
    {
      hide Absorb, Tail, Padded, LastBytes, Count.Value, Count.Valid;
      PendingIsTheEnd(f8, 64, iv, message);
      TailPads(blocks, message, ub, n);
      Core(Tail(blocks, ptr, ub, n));
      dst := Upper();
      h := iv;
      ptr := 0;
      ZeroCount(blocks);
      blocks := blocks.Zero();
      message := [];
      NothingFull(f8, 64, iv, []);
      assert buf[..0] == [];
    }
  }
}
