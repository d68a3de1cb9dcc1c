/** The streaming, padding and bit counting of `src/echo.c`, for the small (192-byte blocks) and
    the big (128-byte blocks) variant. The compression of one block under a counter value is a
    parameter, as is the output of the chaining value. */
module Echo {
  import opened HashPadding
  import opened BitStrings
  import opened Streaming

  const TWO32 := 0x1_0000_0000
  const TWO128 := 0x1_0000_0000_0000_0000_0000_0000_0000_0000

  // ----- The counter -----

  /** `C0` .. `C3`. */
  datatype Counter = Counter(c0: nat, c1: nat, c2: nat, c3: nat)
  {
    predicate Valid() {
      c0 < TWO32 && c1 < TWO32 && c2 < TWO32 && c3 < TWO32
    }

    function Value(): (r: nat) {
      c0 + TWO32 * (c1 + TWO32 * (c2 + TWO32 * c3))
    }

    /** `INCR_COUNTER(sc, val)`. */
    function Plus(val: nat): (r: Counter) {
      var d0 := (c0 + val) % TWO32;
      if d0 < val then
        var d1 := (c1 + 1) % TWO32;
        if d1 == 0 then
          var d2 := (c2 + 1) % TWO32;
          if d2 == 0 then Counter(d0, d1, d2, (c3 + 1) % TWO32) else Counter(d0, d1, d2, c3)
        else Counter(d0, d1, c2, c3)
      else Counter(d0, c1, c2, c3)
    }

    /** Four calls of `sph_enc32le`. */
    function Field(): (r: seq<Byte>) {
      Le(c0, 4) + Le(c1, 4) + Le(c2, 4) + Le(c3, 4)
    }
  }

  const ZERO := Counter(0, 0, 0, 0)

  /** `INCR_COUNTER` is addition modulo 2^128. */
  lemma PlusAdds(c: Counter, val: nat)
    requires c.Valid() && val < TWO32
    ensures c.Plus(val).Valid()
    ensures c.Plus(val).Value() == (c.Value() + val) % TWO128
  {
    hide Counter.Plus, Counter.Value, High;
    ValueHigh(c);
    ValueHigh(c.Plus(val));
    var h := High(c.c1, c.c2, c.c3);
    HighBound(c.c1, c.c2, c.c3);
    if c.c0 + val < TWO32 {
      LowWord(c.c0 + val, h);
      PlusLow(c, val);
    } else {
      LowWord(c.c0 + val - TWO32, h + 1);
      HighIncrements(c.c1, c.c2, c.c3);
      PlusCarry(c, val);
    }
  }

  lemma ValueHigh(c: Counter)
    ensures c.Value() == c.c0 + TWO32 * High(c.c1, c.c2, c.c3)
  {
  }

  lemma PlusLow(c: Counter, val: nat)
    requires c.Valid() && c.c0 + val < TWO32
    ensures c.Plus(val) == Counter(c.c0 + val, c.c1, c.c2, c.c3)
  {
  }

  lemma PlusCarry(c: Counter, val: nat)
    requires c.Valid() && val < TWO32 <= c.c0 + val
    ensures var d1 := (c.c1 + 1) % TWO32;
      var d2 := if d1 == 0 then (c.c2 + 1) % TWO32 else c.c2;
      var d3 := if d1 == 0 && d2 == 0 then (c.c3 + 1) % TWO32 else c.c3;
      c.Plus(val) == Counter(c.c0 + val - TWO32, d1, d2, d3)
  {
  }

  lemma LowWord(l: nat, h: nat)
    requires l < TWO32
    ensures (l + TWO32 * h) % TWO128 == l + TWO32 * (h % TWO96)
  {
    var q, r := h / TWO96, h % TWO96;
    assert l + TWO32 * h == TWO128 * q + (l + TWO32 * r);
  }

  lemma HighBound(c1: nat, c2: nat, c3: nat)
    requires c1 < TWO32 && c2 < TWO32 && c3 < TWO32
    ensures High(c1, c2, c3) < TWO96
  {
  }

  const TWO96 := 0x1_0000_0000_0000_0000_0000_0000

  function High(c1: nat, c2: nat, c3: nat): (r: nat) {
    c1 + TWO32 * (c2 + TWO32 * c3)
  }

  /** The carry runs through the upper three words. */
  lemma HighIncrements(c1: nat, c2: nat, c3: nat)
    requires c1 < TWO32 && c2 < TWO32 && c3 < TWO32
    ensures var d1 := (c1 + 1) % TWO32;
      var d2 := if d1 == 0 then (c2 + 1) % TWO32 else c2;
      var d3 := if d1 == 0 && d2 == 0 then (c3 + 1) % TWO32 else c3;
      High(d1, d2, d3) == (High(c1, c2, c3) + 1) % TWO96
  {
  }

  lemma FieldIsValue(c: Counter)
    requires c.Valid()
    ensures c.Field() == Le(c.Value(), 16) && LeValue(c.Field()) == c.Value()
  {
    hide Le, LeValue;
    CountFits(c.Value());
    assert Pow256(2) == 65536;
    assert Pow256(4) == TWO32;
    assert Le(c.c0, 4) + Le(c.c1, 4) + Le(c.c2, 4) + Le(c.c3, 4)
        == Le(c.c0, 4) + (Le(c.c1, 4) + (Le(c.c2, 4) + Le(c.c3, 4)));
    LeConcat(c.c2, 4, c.c3, 4);
    LeConcat(c.c1, 4, c.c2 + TWO32 * c.c3, 8);
    LeConcat(c.c0, 4, c.c1 + TWO32 * (c.c2 + TWO32 * c.c3), 12);
  }

  lemma Pow256Values()
    ensures Pow256(2) == 65536 && Pow256(16) == TWO128
  {
    assert Pow256(4) == TWO32;
    assert Pow256(8) == TWO32 * TWO32;
    assert Pow256(12) == TWO96;
  }

  lemma CountFits(x: nat)
    requires x < TWO128
    ensures LeValue(Le(x, 16)) == x
  {
    hide Le, LeValue;
    LeDenotes(x, 16);
    Pow256Values();
  }

  // ----- The hash, by its definition -----

  /** The counter that block i must see, for a message of `total` bits: the number of message bits
      up to its end, or zero when it holds none. */
  function BlockCount(size: nat, total: nat, i: nat): (r: nat) {
    if 8 * size * i >= total then 0
    else if 8 * size * (i + 1) <= total then 8 * size * (i + 1) % TWO128
    else total % TWO128
  }

  /** Blocks i, i + 1, ... of a message of `total` bits, compressed under their counts. */
  function Chain<S>(f: (S, nat, seq<Byte>) -> S, size: nat, total: nat, v: S, bytes: seq<Byte>, i: nat): (r: S)
    requires size > 0
    decreases |bytes|
  {
    if |bytes| < size then v
    else Chain(f, size, total, f(v, BlockCount(size, total, i), bytes[..size]), bytes[size..], i + 1)
  }

  /** How many bytes are left behind the full blocks. */
  function Rest(size: nat, n: nat): (k: nat)
    requires size > 0
    ensures k < size
  {
    n - size * Blocks(size, n)
  }

  /** Zero bytes between the last message byte and the 18 bytes of lengths. */
  function Gap(size: nat, ptr: nat): (r: nat)
    requires ptr < size && 19 <= size
  {
    if ptr + 19 <= size then size - ptr - 19 else 2 * size - ptr - 19
  }

  /** The extra bits, a one, zeros, the digest length in 16 bits and the message length in 128. */
  function Tail(size: nat, ptr: nat, w: nat, total: nat, ub: Byte, n: nat): (r: seq<Byte>)
    requires ptr < size && 19 <= size && n < 8
  {
    [LastByte(ub, n)] + ZeroBytes(Gap(size, ptr)) + (Le(32 * w, 2) + Le(total % TWO128, 16))
  }

  function Padded(size: nat, w: nat, message: seq<Byte>, ub: Byte, n: nat): (r: seq<Byte>)
    requires 19 <= size && n < 8
  {
    message + Tail(size, Rest(size, |message|), w, 8 * |message| + n, ub, n)
  }

  function Digest<S>(f: (S, nat, seq<Byte>) -> S, output: S -> seq<Byte>, iv: S, size: nat, w: nat,
                     message: seq<Byte>, ub: Byte, n: nat): (r: seq<Byte>)
    requires 19 <= size && n < 8
  {
    First(output(Chain(f, size, 8 * |message| + n, iv, Padded(size, w, message, ub, n), 0)), 4 * w)
  }

  function First(b: seq<Byte>, k: nat): (r: seq<Byte>) {
    if k <= |b| then b[..k] else b
  }

  /** Byte i of the digest is byte i of the last chaining value. */
  lemma DigestBytes<S>(f: (S, nat, seq<Byte>) -> S, output: S -> seq<Byte>, iv: S, size: nat, w: nat,
                       message: seq<Byte>, ub: Byte, n: nat, i: nat)
    requires 19 <= size && n < 8 && i < 4 * w && forall s :: 4 * w <= |output(s)|
    ensures var out := output(Chain(f, size, 8 * |message| + n, iv, Padded(size, w, message, ub, n), 0));
      var d := Digest(f, output, iv, size, w, message, ub, n);
      |d| == 4 * w <= |out| && d[i] == out[i]
  {
    var out := output(Chain(f, size, 8 * |message| + n, iv, Padded(size, w, message, ub, n), 0));
    hide Chain, Padded;
    assert 4 * w <= |out|;
  }

  /** The padded message ends on a block boundary, and its bits are the message, the extra bits, a
      one, zeros, and the two lengths. */
  lemma PaddedMessage(size: nat, w: nat, message: seq<Byte>, ub: Byte, n: nat)
    requires 19 <= size && n < 8
    ensures var gap := Gap(size, Rest(size, |message|));
      Bits(Padded(size, w, message, ub, n))
      == Bits(message) + (Extra(ub, n) + [true] + Zeros(7 - n + 8 * gap)
         + Bits(Le(32 * w, 2) + Le((8 * |message| + n) % TWO128, 16)))
    ensures exists k :: |Padded(size, w, message, ub, n)| == size * k
    // The last 18 bytes denote the digest length in bits and the message length in bits.
    ensures var p := Padded(size, w, message, ub, n);
      && LeValue(p[|p| - 18..|p| - 16]) == 32 * w % 65536
      && LeValue(p[|p| - 16..]) == (8 * |message| + n) % TWO128
  {
    hide Bits, Extra, LastByte, Le, LeValue;
    var k, ptr := Blocks(size, |message|), Rest(size, |message|);
    var gap := Gap(size, ptr);
    var total := 8 * |message| + n;
    var body := [LastByte(ub, n)] + ZeroBytes(gap);
    var lengths := Le(32 * w, 2) + Le(total % TWO128, 16);
    PaddedParts(message, body, lengths);
    assert message + body + lengths == message + (body + lengths);
    LastBytesBits(ub, n, gap);
    PaddedLength(size, k, ptr);
    assert |Padded(size, w, message, ub, n)| == size * (if ptr + 19 <= size then k + 1 else k + 2);
    LengthsDenote(message + body, w, total % TWO128);
  }

  lemma LengthsDenote(front: seq<Byte>, w: nat, total: nat)
    requires total < TWO128
    ensures var p := front + (Le(32 * w, 2) + Le(total, 16));
      LeValue(p[|p| - 18..|p| - 16]) == 32 * w % 65536 && LeValue(p[|p| - 16..]) == total
  {
    hide Le, LeValue;
    Pow256Values();
    LeDenotes(32 * w, 2);
    CountFits(total);
    var p := front + (Le(32 * w, 2) + Le(total, 16));
    assert p[|p| - 18..|p| - 16] == Le(32 * w, 2);
    assert p[|p| - 16..] == Le(total, 16);
  }

  lemma PaddedLength(size: nat, k: nat, ptr: nat)
    requires ptr < size && 19 <= size
    ensures size * k + ptr + 1 + Gap(size, ptr) + 18 == size * (if ptr + 19 <= size then k + 1 else k + 2)
  {
  }

  // ----- The code's blocks, on values -----

  /** The chaining value and the counter. */
  datatype State<S> = State(v: S, count: nat)

  /** A full block in `echo_*_core`: the counter is advanced, then the block compressed. */
  function Step<S>(f: (S, nat, seq<Byte>) -> S, size: nat, s: State<S>, block: seq<Byte>): (r: State<S>) {
    var t := (s.count + 8 * size) % TWO128;
    State(f(s.v, t, block), t)
  }

  function Stepper<S>(f: (S, nat, seq<Byte>) -> S, size: nat): (r: (State<S>, seq<Byte>) -> State<S>) {
    (s: State<S>, block: seq<Byte>) => Step(f, size, s, block)
  }

  lemma StepperSteps<S>(f: (S, nat, seq<Byte>) -> S, size: nat, s: State<S>, block: seq<Byte>)
    ensures Stepper(f, size)(s, block) == Step(f, size, s, block)
  {
  }

  /** Every full block of the message sees the number of message bits up to its end. */
  lemma {:induction false} ChainFollowsCore<S>(
    f: (S, nat, seq<Byte>) -> S, size: nat, total: nat, v: S, message: seq<Byte>, tail: seq<Byte>, i: nat)
    requires size > 0 && 8 * size * i + 8 * |message| <= total
    ensures var r := Absorb(Stepper(f, size), size, State(v, 8 * size * i % TWO128), message);
      var k := i + Blocks(size, |message|);
      && Chain(f, size, total, v, message + tail, i) == Chain(f, size, total, r.0.v, r.1 + tail, k)
      && r.0.count == 8 * size * k % TWO128
    decreases |message|
  {
    if |message| >= size {
      NextCount(size, i);
      assert 8 * size * (i + 1) == 8 * size * i + 8 * size;
      assert BlockCount(size, total, i) == 8 * size * (i + 1) % TWO128;
      var v' := f(v, BlockCount(size, total, i), message[..size]);
      assert (message + tail)[..size] == message[..size];
      assert (message + tail)[size..] == message[size..] + tail;
      ChainFollowsCore(f, size, total, v', message[size..], tail, i + 1);
    }
  }

  lemma NextCount(size: nat, i: nat)
    ensures (8 * size * i % TWO128 + 8 * size) % TWO128 == 8 * size * (i + 1) % TWO128
  {
    ModAdds(8 * size * i, 8 * size);
    assert 8 * size * (i + 1) == 8 * size * i + 8 * size;
  }

  lemma ModAdds(a: nat, b: nat)
    ensures (a % TWO128 + b) % TWO128 == (a + b) % TWO128
  {
  }

  // ----- The context -----

  class Context<S(!new)> {
    /** The compression of a block under a counter value. */
    const f: (S, nat, seq<Byte>) -> S
    /** The chaining value as bytes. */
    const output: S -> seq<Byte>
    const iv: S
    const size: nat
    const w: nat
    const buf: array<Byte>
    var ptr: nat
    var v: S
    var c: Counter
    /** Everything fed since the last `echo_*_init`. */
    ghost var message: seq<Byte>

    ghost predicate Shape()
      reads this
    {
      && (size == 192 || size == 128) && buf.Length == size && ptr <= size && c.Valid()
      && (forall s :: 4 * w <= |output(s)|)
    }

    /** Chaining value, counter and pending bytes are functions of the message, however it was cut. */
    ghost predicate Valid()
      reads this, buf
    {
      && Shape() && ptr < size
      && (State(v, c.Value()), buf[..ptr]) == Absorb(Stepper(f, size), size, State(iv, 0), message)
    }

    /** `echo_small_init` and `echo_big_init`. */
    constructor (f: (S, nat, seq<Byte>) -> S, output: S -> seq<Byte>, iv: S, size: nat, w: nat)
      requires size == 192 || size == 128
      requires forall s :: 4 * w <= |output(s)|
      ensures Valid() && fresh(buf) && message == []
      ensures this.f == f && this.output == output && this.iv == iv && this.size == size && this.w == w
    {
      this.f, this.output, this.iv, this.size, this.w := f, output, iv, size, w;
      buf := new Byte[size](_ => 0);
      ptr := 0;
      v := iv;
      c := ZERO;
      message := [];
    }

    method Copy(data: seq<Byte>)
      requires ptr + |data| <= buf.Length
      modifies buf
      ensures buf[..ptr + |data|] == old(buf[..ptr]) + data
    {
      forall k | 0 <= k < |data| {
        buf[ptr + k] := data[k];
      }
    }

    /** `INCR_COUNTER(sc, val)`. */
    method Increase(val: nat)
      requires Shape() && val < TWO32
      modifies this`c
      ensures Shape() && c.Value() == (old(c.Value()) + val) % TWO128
    {
      PlusAdds(c, val);
      c := c.Plus(val);
    }

    /** One turn of the loop of `echo_*_core`. */
    method Take(data: seq<Byte>) returns (clen: nat)
      requires Shape() && ptr < size && data != []
      modifies this`ptr, this`v, this`c, buf
      ensures Shape() && ptr < size && 0 < clen <= |data|
      ensures Absorb(Stepper(f, size), size, State(v, c.Value()), buf[..ptr] + data[clen..])
           == Absorb(Stepper(f, size), size, old(State(v, c.Value())), old(buf[..ptr]) + data)
    {
      hide Absorb, Counter.Value, Stepper;
      ghost var s, pending := State(v, c.Value()), buf[..ptr];
      clen := size - ptr;
      if clen > |data| {
        clen := |data|;
      }
      Copy(data[..clen]);
      ptr := ptr + clen;
      assert pending + data == buf[..ptr] + data[clen..];
      if ptr == size {
        AbsorbBlock(Stepper(f, size), size, s, buf[..size], data[clen..]);
        StepperSteps(f, size, s, buf[..size]);
        Increase(8 * size);
        v := f(v, c.Value(), buf[..size]);
        ptr := 0;
        assert buf[..0] + data[clen..] == data[clen..];
      }
    }

    /** `echo_small_core` and `echo_big_core`. */
    method Core(data: seq<Byte>)
      requires Valid()
      modifies this`ptr, this`v, this`c, this`message, buf
      ensures Valid() && message == old(message) + data
    {
      hide Absorb, Counter.Value, Stepper;
      ghost var step := Stepper(f, size);
      AbsorbInParts(step, size, State(iv, 0), message, data);
      message := message + data;
      if |data| < size - ptr {
        NothingFull(step, size, State(v, c.Value()), buf[..ptr] + data);
        Copy(data);
        ptr := ptr + |data|;
        return;
      }
      var i := 0;
      assert data[0..] == data;
      while i < |data|
        invariant Shape() && ptr < size && 0 <= i <= |data|
        invariant Absorb(step, size, State(v, c.Value()), buf[..ptr] + data[i..])
               == Absorb(step, size, State(iv, 0), message)
        invariant message == old(message) + data
      {
        var clen := Take(data[i..]);
        assert data[i..][clen..] == data[i + clen..];
        i := i + clen;
      }
      assert buf[..ptr] + data[i..] == buf[..ptr];
      NothingFull(step, size, State(v, c.Value()), buf[..ptr]);
    }

    /** The number of message bits is written down, and becomes zero for an empty last block. */
    method CountLast(n: nat, ghost k: nat, ghost total: nat) returns (count: seq<Byte>)
      requires Shape() && ptr < size && n < 8
      requires c.Value() == 8 * size * k % TWO128 && total == 8 * size * k + 8 * ptr + n
      modifies this`c
      ensures Shape() && count == Le(total % TWO128, 16) && c.Value() == BlockCount(size, total, k)
    {
      hide Counter.Value, Counter.Field, Le, BlockCount;
      var elen := 8 * ptr + n;
      Increase(elen);
      ModAdds(8 * size * k, elen);
      count := c.Field();
      FieldIsValue(c);
      if elen == 0 {
        c := ZERO;
      }
      ZeroValue();
      LastCounts(size, total, k, elen);
    }

    /** The lengths are written at the end of the buffer, and the last block compressed. */
    method PutLengths(lengths: seq<Byte>)
      requires Shape() && |lengths| == 18
      modifies this`ptr, this`v, buf
      ensures Shape() && v == f(old(v), c.Value(), old(buf[..size - 18]) + lengths)
    {
      hide Counter.Value;
      ptr := size - 18;
      Copy(lengths);
      v := f(v, c.Value(), buf[..size]);
    }

    /** The last one or two blocks of `echo_*_close`, with the counters they must see. */
    method LastBlocks(ub: Byte, n: nat, ghost k: nat, ghost total: nat)
      requires Shape() && ptr < size && n < 8
      requires c.Value() == 8 * size * k % TWO128 && total == 8 * size * k + 8 * ptr + n
      modifies this`ptr, this`v, this`c, buf
      ensures v == Chain(f, size, total, old(v), old(buf[..ptr]) + Tail(size, old(ptr), w, total, ub, n), k)
      ensures Shape()
    {
      hide Counter.Value, LastByte, Le, Chain, BlockCount, Tail;
      ghost var pending, p := buf[..ptr], ptr;
      LastCounts(size, total, k, 8 * ptr + n);
      var count := CountLast(n, k, total);
      Copy([LastByte(ub, n)] + ZeroBytes(size - ptr - 1));
      ghost var block := buf[..size];
      assert block == pending + ([LastByte(ub, n)] + ZeroBytes(size - p - 1));
      ptr := ptr + 1;
      if ptr > size - 18 {
        LastTwo(f, size, total, v, k, pending, w, ub, n, Le(32 * w, 2) + count);
        v := f(v, c.Value(), buf[..size]);
        c := ZERO;
        ZeroValue();
        ptr := 0;
        Copy(ZeroBytes(size));
        assert buf[..size] == ZeroBytes(size);
        assert buf[..size - 18] == buf[..size][..size - 18] == ZeroBytes(size - 18);
      } else {
        LastOne(f, size, total, v, k, pending, w, ub, n, Le(32 * w, 2) + count);
        assert buf[..size - 18] == block[..size - 18];
      }
      PutLengths(Le(32 * w, 2) + count);
    }

    /** `echo_small_close` and `echo_big_close`. */
    method Close(ub: Byte, n: nat) returns (dst: seq<Byte>)
      requires Valid() && n < 8
      modifies this`ptr, this`v, this`c, this`message, buf
      ensures dst == Digest(f, output, iv, size, w, old(message), ub, n)
      ensures Valid() && message == []
    {
      hide Absorb, Tail, Chain, Counter.Value, Stepper;
      ghost var k, total := Blocks(size, |message|), 8 * |message| + n;
      PendingIsTheEnd(Stepper(f, size), size, State(iv, 0), message);
      ghost var tail := Tail(size, ptr, w, total, ub, n);
      ChainFollowsCore(f, size, total, iv, message, tail, 0);
      TotalBits(size, k, ptr, n);
      LastBlocks(ub, n, k, total);
      var out := output(v);
      dst := out[..4 * w];
      v := iv;
      ptr := 0;
      c := ZERO;
      ZeroValue();
      message := [];
      NothingFull(Stepper(f, size), size, State(iv, 0), []);
      assert buf[..0] == [];
    }
  }

  lemma ZeroValue()
    ensures ZERO.Valid() && ZERO.Value() == 0
  {
  }

  lemma TotalBits(size: nat, k: nat, ptr: nat, n: nat)
    ensures 8 * (size * k + ptr) + n == 8 * size * k + 8 * ptr + n
  {
  }

  /** The last block with message bits sees their number, or zero if there is none; a block of
      padding alone sees zero. */
  lemma LastCounts(size: nat, total: nat, k: nat, elen: nat)
    requires elen < 8 * size && total == 8 * size * k + elen
    ensures BlockCount(size, total, k) == if elen == 0 then 0 else total % TWO128
    ensures BlockCount(size, total, k + 1) == 0
  {
    assert 8 * size * (k + 1) == 8 * size * k + 8 * size;
  }

  lemma LastOne<S>(f: (S, nat, seq<Byte>) -> S, size: nat, total: nat, v: S, k: nat,
                   pending: seq<Byte>, w: nat, ub: Byte, n: nat, lengths: seq<Byte>)
    requires |pending| + 19 <= size && n < 8 && lengths == Le(32 * w, 2) + Le(total % TWO128, 16)
    ensures Chain(f, size, total, v, pending + Tail(size, |pending|, w, total, ub, n), k)
         == f(v, BlockCount(size, total, k),
              (pending + ([LastByte(ub, n)] + ZeroBytes(size - |pending| - 1)))[..size - 18] + lengths)
  {
    hide LastByte, Le;
    var all := pending + Tail(size, |pending|, w, total, ub, n);
    var block := pending + ([LastByte(ub, n)] + ZeroBytes(size - |pending| - 1));
    assert |all| == size;
    assert all == block[..size - 18] + lengths;
    assert all[..size] == all && all[size..] == [];
  }

  lemma LastTwo<S>(f: (S, nat, seq<Byte>) -> S, size: nat, total: nat, v: S, k: nat,
                   pending: seq<Byte>, w: nat, ub: Byte, n: nat, lengths: seq<Byte>)
    requires |pending| < size < |pending| + 19 <= 2 * size && n < 8
    requires 19 <= size && lengths == Le(32 * w, 2) + Le(total % TWO128, 16)
    ensures Chain(f, size, total, v, pending + Tail(size, |pending|, w, total, ub, n), k)
         == f(f(v, BlockCount(size, total, k), pending + ([LastByte(ub, n)] + ZeroBytes(size - |pending| - 1))),
              BlockCount(size, total, k + 1), ZeroBytes(size - 18) + lengths)
  {
    hide LastByte, Le, BlockCount;
    var all := pending + Tail(size, |pending|, w, total, ub, n);
    var block := pending + ([LastByte(ub, n)] + ZeroBytes(size - |pending| - 1));
    var last := ZeroBytes(size - 18) + lengths;
    assert |all| == 2 * size;
    assert all == block + last;
    assert all[..size] == block && all[size..] == last;
    assert last[..size] == last && last[size..] == [];
    var v' := f(v, BlockCount(size, total, k), block);
    assert Chain(f, size, total, v, all, k) == Chain(f, size, total, v', last, k + 1);
    assert Chain(f, size, total, v', last, k + 1)
        == Chain(f, size, total, f(v', BlockCount(size, total, k + 1), last), [], k + 2);
  }
}
