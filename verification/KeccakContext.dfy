/** The streaming context of `src/keccak.c`. Whatever the chunks, the lane representation and the
    unroll count, closing it yields the Keccak digest of the message fed so far. */
module KeccakContext {
  import opened KeccakLanes
  import opened KeccakCode
  import opened KeccakComplement
  import opened KeccakLabels
  import opened KeccakPermutation
  import opened KeccakBytes
  import opened KeccakPadding
  import opened KeccakSponge
  import opened Streaming

  /** The digest lengths of `DEFCLOSE`, with their block lengths. */
  predicate IsSize(d: nat, lim: nat) {
    (d == 28 && lim == 144) || (d == 32 && lim == 136) || (d == 48 && lim == 104) || (d == 64 && lim == 72)
  }

  /** How many bytes of a message of n bytes are left behind its full blocks. */
  function Rest(lim: nat, n: nat): (k: nat)
    requires lim > 0
    ensures k < lim
  {
    n - lim * Blocks(lim, n)
  }

  function Padded(lim: nat, message: seq<Byte>, ub: Byte, n: nat): (r: seq<Byte>)
    requires 1 < lim && n < 8
  {
    message + Tail(lim, Rest(lim, |message|), ub, n)
  }

  /** The first d bytes of the plain sponge over the padded message. */
  function Digest(d: nat, lim: nat, message: seq<Byte>, ub: Byte, n: nat): (r: seq<Byte>)
    requires IsSize(d, lim) && n < 8
  {
    Truncated(Absorb(PlainStepper(), lim, ZeroState(), Padded(lim, message, ub, n)).0, d)
  }

  function Truncated(s: seq<bv64>, d: nat): (r: seq<Byte>)
    requires d <= 64
  {
    var out := if |s| == 25 then Output(s, (d + 7) / 8) else [];
    if d <= |out| then out[..d] else out
  }

  /** The padded message is the message bits, the extra bits and pad10*1, in whole blocks. */
  lemma PaddedMessage(lim: nat, message: seq<Byte>, ub: Byte, n: nat)
    requires 1 < lim && n < 8
    ensures Bits(Padded(lim, message, ub, n))
         == Bits(message) + Extra(ub, n) + Pad10Star1(8 * lim, 8 * |message| + n)
    ensures Rest(lim, |Padded(lim, message, ub, n)|) == 0
  {
    hide Bits, Extra, Pad10Star1, Tail;
    var k, p := Blocks(lim, |message|), Rest(lim, |message|);
    TailIsPad10Star1(lim, p, ub, n);
    BitsConcat(message, Tail(lim, p, ub, n));
    TotalBits(lim, k, p, n);
    PadSkipsBlocks(8 * lim, 8 * p + n, k);
    assert |message| == lim * k + p;
    assert Bits(message) + (Extra(ub, n) + Pad10Star1(8 * lim, 8 * |message| + n))
        == Bits(message) + Extra(ub, n) + Pad10Star1(8 * lim, 8 * |message| + n);
    PaddedLength(lim, message, ub, n);
  }

  lemma TotalBits(lim: nat, k: nat, p: nat, n: nat)
    ensures 8 * (lim * k + p) + n == (8 * lim) * k + (8 * p + n)
  {
  }

  lemma PaddedLength(lim: nat, message: seq<Byte>, ub: Byte, n: nat)
    requires 1 < lim && n < 8
    ensures Rest(lim, |Padded(lim, message, ub, n)|) == 0
  {
    hide Bits, Extra, Pad10Star1, Tail;
    var k, p := Blocks(lim, |message|), Rest(lim, |message|);
    TailIsPad10Star1(lim, p, ub, n);
    var blocks := if p == lim - 1 && n == 7 then 2 else 1;
    NextBlocks(lim, k, blocks);
    BlocksOfMultiple(lim, k + blocks);
  }

  lemma NextBlocks(lim: nat, k: nat, n: nat)
    ensures lim * (k + n) == lim * k + lim * n
  {
  }

  lemma {:induction false} BlocksOfMultiple(lim: nat, k: nat)
    requires lim > 0
    ensures Blocks(lim, lim * k) == k
  {
    if k > 0 {
      assert lim * k == lim + lim * (k - 1);
      BlocksOfMultiple(lim, k - 1);
    }
  }

  class Context<L(==,!new)> {
    const r: Rep<L>
    const unroll: nat
    const d: nat
    const lim: nat
    const buf: array<Byte>
    var ptr: nat
    var u: seq<L>
    /** Everything fed since the last `keccak_init`. */
    ghost var message: seq<Byte>

    ghost predicate Shape()
      reads this
    {
      && IsUnroll(unroll) && IsSize(d, lim) && |r.rc| == 24
      && buf.Length == 144 && |u| == 25 && ptr <= lim
    }

    /** The state between calls is a function of the message, however it was cut. */
    ghost predicate Valid()
      reads this, buf
    {
      && Shape() && ptr < lim
      && (View(u, Words(0)), buf[..ptr]) == Absorb(StepperCode(r), lim, InitLanes(r), message)
    }

    /** `keccak_init`. */
    constructor (r: Rep<L>, unroll: nat, d: nat, lim: nat)
      requires IsUnroll(unroll) && IsSize(d, lim) && |r.rc| == 24
      ensures Valid() && fresh(buf) && message == []
      ensures this.r == r && this.unroll == unroll && this.d == d && this.lim == lim
    {
      hide View, Words, InitLanes;
      this.r, this.unroll, this.d, this.lim := r, unroll, d, lim;
      buf := new Byte[144](_ => 0);
      ptr := 0;
      u := InitWords(r);
      message := [];
      new;
      InitWordsView(r);
    }

    /** `INPUT_BUF(lim)`. */
    method InputBuf()
      requires Shape()
      modifies this`u
      ensures Shape() && View(u, Words(0)) == AddBlockCode(r, old(View(u, Words(0))), buf[..lim])
    {
      hide Words, BlockWord;
      ghost var v := View(u, Words(0));
      var block := buf[..lim];
      for j := 0 to lim / 8
        invariant |u| == 25
        invariant forall k | 0 <= k < 25 ::
          u[k] == if k < j then r.ops.xor(old(u)[k], r.load(BlockWord(block, k))) else old(u)[k]
      {
        u := u[j := r.ops.xor(u[j], r.load(BlockWord(block, j)))];
      }
      FirstWords();
    }

    /** `INPUT_BUF(lim); KECCAK_F_1600;` */
    method Compress()
      requires Shape()
      modifies this`u
      ensures Shape() && View(u, Words(0)) == StepCode(r, old(View(u, Words(0))), buf[..lim])
    {
      hide View, Words, AddBlockCode, RoundsCode;
      InputBuf();
      u := KeccakF(r.ops, unroll, u, r.rc);
    }

    /** One turn of the loop of `keccak_core`: at most a block's rest of the data is buffered, and
        a full buffer is absorbed. */
    method Take(data: seq<Byte>) returns (clen: nat)
      requires Shape() && ptr < lim && data != []
      modifies this`ptr, this`u, buf
      ensures Shape() && ptr < lim && 0 < clen <= |data|
      ensures Absorb(StepperCode(r), lim, View(u, Words(0)), buf[..ptr] + data[clen..])
           == Absorb(StepperCode(r), lim, old(View(u, Words(0))), old(buf[..ptr]) + data)
    {
      hide View, Words, StepCode, Absorb;
      ghost var v, pending := View(u, Words(0)), buf[..ptr];
      clen := lim - ptr;
      if clen > |data| {
        clen := |data|;
      }
      Copy(data[..clen]);
      ptr := ptr + clen;
      assert pending + data == buf[..ptr] + data[clen..];
      if ptr == lim {
        AbsorbBlock(StepperCode(r), lim, v, buf[..lim], data[clen..]);
        Compress();
        ptr := 0;
        assert buf[..0] + data[clen..] == data[clen..];
      }
    }

    /** `memcpy(buf + ptr, data, len)`. */
    method Copy(data: seq<Byte>)
      requires ptr + |data| <= buf.Length
      modifies buf
      ensures buf[..ptr + |data|] == old(buf[..ptr]) + data
    {
      forall k | 0 <= k < |data| {
        buf[ptr + k] := data[k];
      }
    }

    /** `keccak_core`. */
    method Core(data: seq<Byte>)
      requires Valid()
      modifies this`ptr, this`u, this`message, buf
      ensures Valid() && message == old(message) + data
    {
      hide View, Words, StepCode, InitLanes, Absorb;
      ghost var step := StepperCode(r);
      AbsorbInParts(step, lim, InitLanes(r), message, data);
      message := message + data;
      if |data| < lim - ptr {
        NothingFull(step, lim, View(u, Words(0)), buf[..ptr] + data);
        Copy(data);
        ptr := ptr + |data|;
        return;
      }
      var i := 0;
      assert data[0..] == data;
      while i < |data|
        invariant Shape() && ptr < lim && 0 <= i <= |data|
        invariant Absorb(step, lim, View(u, Words(0)), buf[..ptr] + data[i..])
               == Absorb(step, lim, InitLanes(r), message)
        invariant message == old(message) + data
      {
        var clen := Take(data[i..]);
        assert data[i..][clen..] == data[i + clen..];
        i := i + clen;
      }
      assert buf[..ptr] + data[i..] == buf[..ptr];
      NothingFull(step, lim, View(u, Words(0)), buf[..ptr]);
    }

    /** `keccak_close`: the tail, the final complement, the digest, and `keccak_init`. */
    method Close(ub: Byte, n: nat, ghost h: L -> bv64) returns (dst: seq<Byte>)
      requires Valid() && n < 8 && Represents(r, h)
      modifies this`ptr, this`u, this`message, buf
      ensures dst == Digest(d, lim, old(message), ub, n)
      ensures Valid() && message == []
    {
      hide View, Words, StepCode, PlainStep, InitLanes, InitWords, Tail, Represents, StandsFor, Absorb, Output;
      ghost var fed := message;
      PendingIsTheEnd(StepperCode(r), lim, InitLanes(r), message);
      Core(Tail(lim, ptr, ub, n));
      assert message == Padded(lim, fed, ub, n);
      SpongeRefines(r, h, lim, message);
      dst := Emit(Absorb(PlainStepper(), lim, ZeroState(), message).0, h);
      ptr := 0;
      u := InitWords(r);
      message := [];
      InitWordsView(r);
      NothingFull(StepperCode(r), lim, InitLanes(r), []);
      assert buf[..0] == [];
    }

    /** Undoes the resting complements. */
    method Uncomplement()
      requires Shape()
      modifies this`u
      ensures Shape()
      ensures forall j | 0 <= j < 25 :: u[j] == if RestingWord(j) then r.ops.not(old(u)[j]) else old(u)[j]
    {
      u := u[1 := r.ops.not(u[1])];
      u := u[2 := r.ops.not(u[2])];
      u := u[8 := r.ops.not(u[8])];
      u := u[12 := r.ops.not(u[12])];
      u := u[17 := r.ops.not(u[17])];
      u := u[20 := r.ops.not(u[20])];
    }

    /** The end of `keccak_close`: the resting complements are undone, the words are written out. */
    method Emit(ghost s: seq<bv64>, ghost h: L -> bv64) returns (dst: seq<Byte>)
      requires Shape() && Represents(r, h) && StandsFor(h, View(u, Words(0)), s)
      modifies this`u
      ensures Shape() && dst == Truncated(s, d)
    {
      hide View, Words, Represents, StandsFor, RestingWord, Enc64;
      ghost var m := u;
      StandsForLength(h, View(u, Words(0)), s);
      Uncomplement();
      ghost var words := u;
      var out: seq<Byte> := [];
      for j := 0 to (d + 7) / 8
        invariant Shape() && u == words && out == Output(s, j)
      {
        WordOut(r, h, m, s, j);
        out := out + r.store(u[j]);
      }
      OutputLength(s, (d + 7) / 8);
      dst := out[..d];
    }
  }

  lemma {:induction false} OutputLength(s: seq<bv64>, k: nat)
    requires |s| == 25 && k <= 25
    ensures |Output(s, k)| == 8 * k
  {
    hide Enc64;
    if k > 0 {
      OutputLength(s, k - 1);
    }
  }

  lemma StandsForLength<L(!new)>(h: L -> bv64, v: seq<L>, s: seq<bv64>)
    requires StandsFor(h, v, s)
    ensures |s| == 25
  {
  }

  predicate RestingWord(j: nat) {
    j == 1 || j == 2 || j == 8 || j == 12 || j == 17 || j == 20
  }

  lemma RestingWords(j: nat)
    requires j < 25
    ensures On(Resting, Transposed(j)) == RestingWord(j)
  {
  }

  /** A word, without its resting complement, is written as the plain lane. */
  lemma WordOut<L(!new)>(r: Rep<L>, h: L -> bv64, m: seq<L>, s: seq<bv64>, j: nat)
    requires Represents(r, h) && |m| == 25 && StandsFor(h, View(m, Words(0)), s) && j < 25
    ensures |s| == 25
    ensures r.store(if RestingWord(j) then r.ops.not(m[j]) else m[j]) == Enc64(s[WordLane(j)])
  {
    hide Words, Masks, Rotates, Loads, Constants, Enc64, On, RestingWord;
    FirstWords();
    RestingWords(j);
    TransposedTwice(j);
    var i := Transposed(j);
    assert View(m, Words(0))[i] == m[j];
    assert h(m[j]) == Lanes(h, View(m, Words(0)))[i] == Flip(On(Resting, i), s[i]);
    NotNot(s[i]);
  }

  /** The words that `keccak_init` writes: 1, 2, 8, 12, 17 and 20 are all ones. */
  function InitWords<L>(r: Rep<L>): (u: seq<L>)
    ensures |u| == 25
  {
    seq(25, j requires 0 <= j < 25 =>
      if RestingWord(j) then r.ones else r.zero)
  }

  lemma FirstWords()
    ensures forall i | 0 <= i < 25 :: Words(0)[i] == Transposed(i)
  {
    hide Labels, IsLayout, Transposed;
    LabelsAreLayouts(0);
    FirstLayout();
  }

  lemma InitWordsView<L>(r: Rep<L>)
    ensures View(InitWords(r), Words(0)) == InitLanes(r)
  {
    hide Words, Transposed, On, RestingWord;
    FirstWords();
    forall i | 0 <= i < 25
      ensures View(InitWords(r), Words(0))[i] == InitLanes(r)[i]
    {
      TransposedTwice(i);
      RestingWords(Transposed(i));
    }
  }
}
