/** How bytes enter and leave the lanes in `src/keccak.c`, for each lane representation. */
module KeccakBytes {
  import opened KeccakLanes
  import opened KeccakSpec
  import opened KeccakRotations

  // ----- Bytes of a word, least significant first -----

  function Word32(b0: Byte, b1: Byte, b2: Byte, b3: Byte): (r: bv32) {
    (b0 as bv32) | (b1 as bv32 << 8) | (b2 as bv32 << 16) | (b3 as bv32 << 24)
  }

  function Word64(b0: Byte, b1: Byte, b2: Byte, b3: Byte, b4: Byte, b5: Byte, b6: Byte, b7: Byte): (r: bv64) {
    (b0 as bv64) | (b1 as bv64 << 8) | (b2 as bv64 << 16) | (b3 as bv64 << 24)
    | (b4 as bv64 << 32) | (b5 as bv64 << 40) | (b6 as bv64 << 48) | (b7 as bv64 << 56)
  }

  /** `sph_dec64le`. */
  function Dec64(b: seq<Byte>): (r: bv64)
    requires |b| == 8
  {
    Word64(b[0], b[1], b[2], b[3], b[4], b[5], b[6], b[7])
  }

  function ByteAt(x: bv64, n: bv7): (r: Byte)
    requires n <= 56
  {
    ((x >> n) & 0xFF) as Byte
  }

  /** `sph_enc64le`. */
  function Enc64(x: bv64): (b: seq<Byte>)
    ensures |b| == 8
  {
    [ByteAt(x, 0), ByteAt(x, 8), ByteAt(x, 16), ByteAt(x, 24),
     ByteAt(x, 32), ByteAt(x, 40), ByteAt(x, 48), ByteAt(x, 56)]
  }

  /** Two calls of `sph_dec32le`. */
  function DecPair(b: seq<Byte>): (r: Pair)
    requires |b| == 8
  {
    Pair(Word32(b[0], b[1], b[2], b[3]), Word32(b[4], b[5], b[6], b[7]))
  }

  function ByteAt32(x: bv32, n: bv6): (r: Byte)
    requires n <= 24
  {
    ((x >> n) & 0xFF) as Byte
  }

  /** Two calls of `sph_enc32le`. */
  function EncPair(p: Pair): (b: seq<Byte>)
    ensures |b| == 8
  {
    [ByteAt32(p.l, 0), ByteAt32(p.l, 8), ByteAt32(p.l, 16), ByteAt32(p.l, 24),
     ByteAt32(p.h, 0), ByteAt32(p.h, 8), ByteAt32(p.h, 16), ByteAt32(p.h, 24)]
  }

  lemma JoinWords(b0: Byte, b1: Byte, b2: Byte, b3: Byte, b4: Byte, b5: Byte, b6: Byte, b7: Byte)
    ensures Join(Pair(Word32(b0, b1, b2, b3), Word32(b4, b5, b6, b7))) == Word64(b0, b1, b2, b3, b4, b5, b6, b7)
  {
  }

  lemma JoinDecPair(b: seq<Byte>)
    requires |b| == 8
    ensures Join(DecPair(b)) == Dec64(b)
  {
    hide Join, Word32, Word64;
    JoinWords(b[0], b[1], b[2], b[3], b[4], b[5], b[6], b[7]);
  }

  lemma LowBytes(p: Pair)
    ensures ByteAt(Join(p), 0) == ByteAt32(p.l, 0) && ByteAt(Join(p), 8) == ByteAt32(p.l, 8)
    ensures ByteAt(Join(p), 16) == ByteAt32(p.l, 16) && ByteAt(Join(p), 24) == ByteAt32(p.l, 24)
  {
  }

  lemma HighBytes(p: Pair)
    ensures ByteAt(Join(p), 32) == ByteAt32(p.h, 0) && ByteAt(Join(p), 40) == ByteAt32(p.h, 8)
    ensures ByteAt(Join(p), 48) == ByteAt32(p.h, 16) && ByteAt(Join(p), 56) == ByteAt32(p.h, 24)
  {
  }

  lemma EncJoin(p: Pair)
    ensures Enc64(Join(p)) == EncPair(p)
  {
    hide Join, ByteAt, ByteAt32;
    LowBytes(p);
    HighBytes(p);
  }

  // ----- A lane representation -----

  /** What a build of the source fixes: the lane macros, `READ64`, the digest output after the
      un-interleaving, the round constants, and the lanes of `keccak_init`. */
  datatype Rep<!L> = Rep(
    ops: Ops<L>,
    load: seq<Byte> -> L,
    store: L -> seq<Byte>,
    rc: seq<L>,
    zero: L,
    ones: L)

  ghost predicate Loads<L(!new)>(r: Rep<L>, h: L -> bv64) {
    forall b: seq<Byte> :: |b| == 8 ==> h(r.load(b)) == Dec64(b)
  }

  ghost predicate Stores<L(!new)>(r: Rep<L>, h: L -> bv64) {
    forall a :: r.store(a) == Enc64(h(a))
  }

  ghost predicate Constants<L(!new)>(r: Rep<L>, h: L -> bv64) {
    && h(r.zero) == 0 && h(r.ones) == 0xFFFF_FFFF_FFFF_FFFF
    && |r.rc| == 24 && (forall i | 0 <= i < 24 :: h(r.rc[i]) == RC(i))
  }

  /** The representation stands for plain 64-bit lanes through `h`. */
  ghost predicate Represents<L(!new)>(r: Rep<L>, h: L -> bv64) {
    Refines(r.ops, h) && Loads(r, h) && Stores(r, h) && Constants(r, h)
  }

  /** The round constants as halves, low word first. */
  function RcHalves(i: nat): (r: Pair)
    requires i < 24
  {
    match i
    case 0 => Pair(0x0000_0001, 0x0000_0000) case 1 => Pair(0x0000_8082, 0x0000_0000)
    case 2 => Pair(0x0000_808A, 0x8000_0000) case 3 => Pair(0x8000_8000, 0x8000_0000)
    case 4 => Pair(0x0000_808B, 0x0000_0000) case 5 => Pair(0x8000_0001, 0x0000_0000)
    case 6 => Pair(0x8000_8081, 0x8000_0000) case 7 => Pair(0x0000_8009, 0x8000_0000)
    case 8 => Pair(0x0000_008A, 0x0000_0000) case 9 => Pair(0x0000_0088, 0x0000_0000)
    case 10 => Pair(0x8000_8009, 0x0000_0000) case 11 => Pair(0x8000_000A, 0x0000_0000)
    case 12 => Pair(0x8000_808B, 0x0000_0000) case 13 => Pair(0x0000_008B, 0x8000_0000)
    case 14 => Pair(0x0000_8089, 0x8000_0000) case 15 => Pair(0x0000_8003, 0x8000_0000)
    case 16 => Pair(0x0000_8002, 0x8000_0000) case 17 => Pair(0x0000_0080, 0x8000_0000)
    case 18 => Pair(0x0000_800A, 0x0000_0000) case 19 => Pair(0x8000_000A, 0x8000_0000)
    case 20 => Pair(0x8000_8081, 0x8000_0000) case 21 => Pair(0x0000_8080, 0x8000_0000)
    case 22 => Pair(0x8000_0001, 0x0000_0000) case _ => Pair(0x8000_8008, 0x8000_0000)
  }

  /** The round constants in interleaved form, even bits first. */
  function RcInterleaved(i: nat): (r: Pair)
    requires i < 24
  {
    match i
    case 0 => Pair(0x0000_0001, 0x0000_0000) case 1 => Pair(0x0000_0000, 0x0000_0089)
    case 2 => Pair(0x0000_0000, 0x8000_008B) case 3 => Pair(0x0000_0000, 0x8000_8080)
    case 4 => Pair(0x0000_0001, 0x0000_008B) case 5 => Pair(0x0000_0001, 0x0000_8000)
    case 6 => Pair(0x0000_0001, 0x8000_8088) case 7 => Pair(0x0000_0001, 0x8000_0082)
    case 8 => Pair(0x0000_0000, 0x0000_000B) case 9 => Pair(0x0000_0000, 0x0000_000A)
    case 10 => Pair(0x0000_0001, 0x0000_8082) case 11 => Pair(0x0000_0000, 0x0000_8003)
    case 12 => Pair(0x0000_0001, 0x0000_808B) case 13 => Pair(0x0000_0001, 0x8000_000B)
    case 14 => Pair(0x0000_0001, 0x8000_008A) case 15 => Pair(0x0000_0001, 0x8000_0081)
    case 16 => Pair(0x0000_0000, 0x8000_0081) case 17 => Pair(0x0000_0000, 0x8000_0008)
    case 18 => Pair(0x0000_0000, 0x0000_0083) case 19 => Pair(0x0000_0000, 0x8000_8003)
    case 20 => Pair(0x0000_0001, 0x8000_8088) case 21 => Pair(0x0000_0000, 0x8000_0088)
    case 22 => Pair(0x0000_0001, 0x0000_8000) case _ => Pair(0x0000_0000, 0x8000_8082)
  }

  const WideRep: Rep<bv64> := Rep(
    Wide, b => if |b| == 8 then Dec64(b) else 0, a => Enc64(a), seq(24, i requires 0 <= i < 24 => RC(i)), 0, 0xFFFF_FFFF_FFFF_FFFF)

  const HalvesRep: Rep<Pair> := Rep(
    Halves, b => if |b| == 8 then DecPair(b) else Pair(0, 0), a => EncPair(a), seq(24, i requires 0 <= i < 24 => RcHalves(i)),
    Pair(0, 0), Pair(0xFFFF_FFFF, 0xFFFF_FFFF))

  const InterleavedRep: Rep<Pair> := Rep(
    Interleaved, b => if |b| == 8 then Interleave(DecPair(b)) else Pair(0, 0), a => EncPair(Uninterleave(a)),
    seq(24, i requires 0 <= i < 24 => RcInterleaved(i)), Pair(0, 0), Pair(0xFFFF_FFFF, 0xFFFF_FFFF))

  lemma WideRepresents()
    ensures Represents(WideRep, (a: bv64) => a)
  {
    hide Refines, Dec64, Enc64, RC;
    WideRefines();
  }

  lemma HalvesConstant(i: nat)
    requires i < 24
    ensures Join(RcHalves(i)) == RC(i)
  {
  }

  lemma InterleavedConstant(i: nat)
    requires i < 24
    ensures Deinterleaved(RcInterleaved(i)) == RC(i)
  {
  }

  lemma HalvesLoad()
    ensures Loads(HalvesRep, (p: Pair) => Join(p))
  {
    hide Dec64, DecPair, Join;
    forall b: seq<Byte> | |b| == 8
      ensures Join(HalvesRep.load(b)) == Dec64(b)
    {
      JoinDecPair(b);
    }
  }

  lemma HalvesStore()
    ensures Stores(HalvesRep, (p: Pair) => Join(p))
  {
    hide Enc64, EncPair, Join;
    forall a
      ensures HalvesRep.store(a) == Enc64(Join(a))
    {
      EncJoin(a);
    }
  }

  lemma AllZero()
    ensures Join(Pair(0, 0)) == 0 && Deinterleaved(Pair(0, 0)) == 0
  {
  }

  lemma AllOnes()
    ensures Join(Pair(0xFFFF_FFFF, 0xFFFF_FFFF)) == 0xFFFF_FFFF_FFFF_FFFF
    ensures Deinterleaved(Pair(0xFFFF_FFFF, 0xFFFF_FFFF)) == 0xFFFF_FFFF_FFFF_FFFF
  {
  }

  lemma HalvesRepresents()
    ensures Represents(HalvesRep, (p: Pair) => Join(p))
  {
    hide Refines, Loads, Stores, Join, Deinterleaved, RC, RcHalves;
    HalvesRefine();
    HalvesLoad();
    HalvesStore();
    AllZero();
    AllOnes();
    forall i | 0 <= i < 24
      ensures Join(HalvesRep.rc[i]) == RC(i)
    {
      HalvesConstant(i);
    }
  }

  lemma InterleavedLoad()
    ensures Loads(InterleavedRep, (p: Pair) => Deinterleaved(p))
  {
    hide Dec64, DecPair, Join, Interleave, Uninterleave;
    forall b: seq<Byte> | |b| == 8
      ensures Deinterleaved(InterleavedRep.load(b)) == Dec64(b)
    {
      JoinDecPair(b);
      InterleaveRoundTrip(DecPair(b));
    }
  }

  lemma InterleavedStore()
    ensures Stores(InterleavedRep, (p: Pair) => Deinterleaved(p))
  {
    hide Enc64, EncPair, Join, Uninterleave;
    forall a
      ensures InterleavedRep.store(a) == Enc64(Deinterleaved(a))
    {
      EncJoin(Uninterleave(a));
    }
  }

  lemma InterleavedConstants()
    ensures Constants(InterleavedRep, (p: Pair) => Deinterleaved(p))
  {
    hide Join, Deinterleaved, Interleave, Uninterleave, RC, RcInterleaved;
    AllZero();
    AllOnes();
    forall i | 0 <= i < 24
      ensures Deinterleaved(InterleavedRep.rc[i]) == RC(i)
    {
      InterleavedConstant(i);
    }
  }

  lemma InterleavedRepresents()
    ensures Represents(InterleavedRep, (p: Pair) => Deinterleaved(p))
  {
    hide Refines, Loads, Stores, Constants;
    InterleavedRefines();
    InterleavedLoad();
    InterleavedStore();
    InterleavedConstants();
  }
}
