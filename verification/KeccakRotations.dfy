/** `src/keccak.c` selects its lane macros at build time; every selection computes the 64-bit
    operations. A rotation by n + 1 is a rotation by n and one by one, in every selection, so
    the 64 literal rotations of the source follow by induction from the rotation by one. */
module KeccakRotations {
  import opened KeccakLanes

  // ----- One more turn -----

  lemma FirstTurn(x: bv64, n: bv7)
    requires n < 16
    ensures (((x << n) | (x >> (64 - n))) << 1) | (((x << n) | (x >> (64 - n))) >> 63)
         == (x << (n + 1)) | (x >> (63 - n))
  {
  }

  lemma SecondTurn(x: bv64, n: bv7)
    requires 16 <= n < 32
    ensures (((x << n) | (x >> (64 - n))) << 1) | (((x << n) | (x >> (64 - n))) >> 63)
         == (x << (n + 1)) | (x >> (63 - n))
  {
  }

  lemma ThirdTurn(x: bv64, n: bv7)
    requires 32 <= n < 48
    ensures (((x << n) | (x >> (64 - n))) << 1) | (((x << n) | (x >> (64 - n))) >> 63)
         == (x << (n + 1)) | (x >> (63 - n))
  {
  }

  lemma FourthTurn(x: bv64, n: bv7)
    requires 48 <= n < 64
    ensures (((x << n) | (x >> (64 - n))) << 1) | (((x << n) | (x >> (64 - n))) >> 63)
         == (x << (n + 1)) | (x >> (63 - n))
  {
  }

  lemma RolOnce(x: bv64, n: bv7)
    requires n < 63
    ensures Rol(Rol(x, n), 1) == Rol(x, n + 1)
  {
    if n < 16 {
      FirstTurn(x, n);
    } else if n < 32 {
      SecondTurn(x, n);
    } else if n < 48 {
      ThirdTurn(x, n);
    } else {
      FourthTurn(x, n);
    }
  }

  lemma RolZero(x: bv64)
    ensures Rol(x, 0) == x
  {
  }

  lemma RolNotOnce(x: bv64)
    ensures Rol(!x, 1) == !Rol(x, 1)
  {
  }

  /** Rotating a complement is complementing the rotation. */
  lemma {:induction false} RolNot(x: bv64, n: bv7)
    requires n < 64
    ensures Rol(Not64(x), n) == Not64(Rol(x, n))
    decreases n
  {
    hide Rol, Not64;
    if n == 0 {
      RolZero(x);
      RolZero(Not64(x));
    } else {
      RolNot(x, n - 1);
      RolOnce(x, n - 1);
      RolOnce(Not64(x), n - 1);
      NotOnce(Rol(x, n - 1));
    }
  }

  lemma NotOnce(x: bv64)
    ensures Rol(Not64(x), 1) == Not64(Rol(x, 1))
  {
    hide Rol;
    RolNotOnce(x);
  }

  lemma FunnelLow(a: bv32, b: bv32, n: bv6)
    requires n < 16
    ensures (((a << n) | (b >> (32 - n))) << 1) | (((b << n) | (a >> (32 - n))) >> 31)
         == (a << (n + 1)) | (b >> (31 - n))
  {
  }

  lemma FunnelHigh(a: bv32, b: bv32, n: bv6)
    requires 16 <= n < 32
    ensures (((a << n) | (b >> (32 - n))) << 1) | (((b << n) | (a >> (32 - n))) >> 31)
         == (a << (n + 1)) | (b >> (31 - n))
  {
  }

  lemma FunnelOnce(a: bv32, b: bv32, n: bv6)
    requires n < 32
    ensures Funnel(Funnel(a, b, n), Funnel(b, a, n), 1) == Funnel(a, b, n + 1)
  {
    if n < 16 {
      FunnelLow(a, b, n);
    } else {
      FunnelHigh(a, b, n);
    }
  }

  lemma FunnelEnds(a: bv32, b: bv32)
    ensures Funnel(a, b, 0) == a && Funnel(a, b, 32) == b
  {
  }

  // ----- One 64-bit word -----

  lemma WideAdds()
    ensures Adds(Wide, (a: bv64) => a)
  {
    hide Xor64, And64, Or64, Not64, Rol;
  }

  lemma WideMasks()
    ensures Masks(Wide, (a: bv64) => a)
  {
    hide Xor64, And64, Or64, Not64, Rol;
  }

  lemma WideRotates()
    ensures Rotates(Wide, (a: bv64) => a)
  {
    hide Xor64, And64, Or64, Not64, Rol;
  }

  lemma WideRefines()
    ensures Refines(Wide, (a: bv64) => a)
  {
    hide Adds, Masks, Rotates;
    WideAdds();
    WideMasks();
    WideRotates();
  }

  // ----- Two 32-bit halves -----

  lemma JoinXor(a: Pair, b: Pair) ensures Join(Xor(a, b)) == Xor64(Join(a), Join(b)) {}
  lemma JoinAnd(a: Pair, b: Pair) ensures Join(And(a, b)) == And64(Join(a), Join(b)) {}
  lemma JoinOr(a: Pair, b: Pair) ensures Join(Or(a, b)) == Or64(Join(a), Join(b)) {}
  lemma JoinNot(a: Pair) ensures Join(Not(a)) == Not64(Join(a)) {}

  lemma SmallOnce(v: Pair, n: bv6)
    requires n < 32
    ensures Small(Small(v, n), 1) == Small(v, n + 1)
  {
    hide Funnel;
    FunnelOnce(v.l, v.h, n);
    FunnelOnce(v.h, v.l, n);
  }

  lemma SmallEnds(v: Pair)
    ensures Small(v, 0) == v && Small(v, 32) == Pair(v.h, v.l)
  {
    hide Funnel;
    FunnelEnds(v.l, v.h);
    FunnelEnds(v.h, v.l);
  }

  /** From `ROL64_n` to `ROL64_` of n + 1, over the swap of the words at 32. */
  lemma HalvesOnce(v: Pair, n: bv7)
    requires n < 63
    ensures RolHalves(RolHalves(v, n), 1) == RolHalves(v, n + 1)
  {
    hide Funnel;
    SmallEnds(v);
    if n < 32 {
      SmallOnce(v, n as bv6);
    } else {
      SmallOnce(v, (n - 32) as bv6);
    }
  }

  lemma JoinTurns(p: Pair)
    ensures Join(RolHalves(p, 1)) == Rol(Join(p), 1)
  {
  }

  lemma HalvesZero(p: Pair)
    ensures RolHalves(p, 0) == p
  {
  }

  /** Every `ROL64_n` on halves is the 64-bit rotation by n. */
  lemma {:induction false} RolHalvesRotates(p: Pair, n: bv7)
    requires n < 64
    ensures Join(RolHalves(p, n)) == Rol(Join(p), n)
    decreases n
  {
    hide Join, RolHalves, Rol;
    if n == 0 {
      HalvesZero(p);
      RolZero(Join(p));
    } else {
      RolHalvesRotates(p, n - 1);
      HalvesOnce(p, n - 1);
      JoinTurns(RolHalves(p, n - 1));
      RolOnce(Join(p), n - 1);
    }
  }

  lemma HalvesAdds()
    ensures Adds(Halves, (p: Pair) => Join(p))
  {
    hide Xor64, And64, Or64, Not64, Rol, Join, Xor, And, Or, Not, RolHalves;
    forall a, b ensures Join(Xor(a, b)) == Xor64(Join(a), Join(b)) { JoinXor(a, b); }
    forall a ensures Join(Not(a)) == Not64(Join(a)) { JoinNot(a); }
  }

  lemma HalvesMasks()
    ensures Masks(Halves, (p: Pair) => Join(p))
  {
    hide Xor64, And64, Or64, Not64, Rol, Join, Xor, And, Or, Not, RolHalves;
    forall a, b ensures Join(And(a, b)) == And64(Join(a), Join(b)) { JoinAnd(a, b); }
    forall a, b ensures Join(Or(a, b)) == Or64(Join(a), Join(b)) { JoinOr(a, b); }
  }

  lemma HalvesRotates()
    ensures Rotates(Halves, (p: Pair) => Join(p))
  {
    hide Xor64, And64, Or64, Not64, Rol, Join, Xor, And, Or, Not, RolHalves;
    forall a, n: bv7 | n < 64 ensures Join(RolHalves(a, n)) == Rol(Join(a), n) {
      RolHalvesRotates(a, n);
    }
  }

  lemma HalvesRefine()
    ensures Refines(Halves, (p: Pair) => Join(p))
  {
    hide Adds, Masks, Rotates;
    HalvesAdds();
    HalvesMasks();
    HalvesRotates();
  }

  // ----- Two 32-bit words of interleaved bits -----

  function Deinterleaved(p: Pair): (x: bv64) {
    Join(Uninterleave(p))
  }

  lemma DeinterleavedXor(a: Pair, b: Pair)
    ensures Deinterleaved(Xor(a, b)) == Xor64(Deinterleaved(a), Deinterleaved(b))
  {
  }

  lemma DeinterleavedAnd(a: Pair, b: Pair)
    ensures Deinterleaved(And(a, b)) == And64(Deinterleaved(a), Deinterleaved(b))
  {
  }

  lemma DeinterleavedOr(a: Pair, b: Pair)
    ensures Deinterleaved(Or(a, b)) == Or64(Deinterleaved(a), Deinterleaved(b))
  {
  }

  lemma DeinterleavedNot(a: Pair)
    ensures Deinterleaved(Not(a)) == Not64(Deinterleaved(a))
  {
  }

  lemma Rol32Once(x: bv32, n: bv6)
    requires n < 32
    ensures Rol32(Rol32(x, n), 1) == Rol32(x, n + 1)
  {
    hide Funnel;
    FunnelOnce(x, x, n);
  }

  lemma Rol32Ends(x: bv32)
    ensures Rol32(x, 0) == x && Rol32(x, 32) == x
  {
    hide Funnel;
    FunnelEnds(x, x);
  }

  /** An odd rotation exchanges the words, and rotates the one that wraps once more. */
  lemma InterleavedOnce(v: Pair, n: bv7)
    requires n < 63
    ensures RolInterleaved(RolInterleaved(v, n), 1) == RolInterleaved(v, n + 1)
  {
    hide Rol32;
    var k := (n >> 1) as bv6;
    Rol32Ends(v.l);
    Rol32Ends(v.h);
    Rol32Once(v.l, k);
    Rol32Once(v.h, k);
  }

  lemma DeinterleavedTurns(p: Pair)
    ensures Deinterleaved(RolInterleaved(p, 1)) == Rol(Deinterleaved(p), 1)
  {
  }

  lemma InterleavedZero(p: Pair)
    ensures RolInterleaved(p, 0) == p
  {
  }

  /** Every `ROL64_n` on interleaved words is the interleaved image of the rotation by n. */
  lemma {:induction false} RolInterleavedRotates(p: Pair, n: bv7)
    requires n < 64
    ensures Deinterleaved(RolInterleaved(p, n)) == Rol(Deinterleaved(p), n)
    decreases n
  {
    hide Deinterleaved, RolInterleaved, Rol;
    if n == 0 {
      InterleavedZero(p);
      RolZero(Deinterleaved(p));
    } else {
      RolInterleavedRotates(p, n - 1);
      InterleavedOnce(p, n - 1);
      DeinterleavedTurns(RolInterleaved(p, n - 1));
      RolOnce(Deinterleaved(p), n - 1);
    }
  }

  lemma InterleavedAdds()
    ensures Adds(Interleaved, (p: Pair) => Deinterleaved(p))
  {
    hide Xor64, And64, Or64, Not64, Rol, Deinterleaved, Xor, And, Or, Not, RolInterleaved;
    forall a, b ensures Deinterleaved(Xor(a, b)) == Xor64(Deinterleaved(a), Deinterleaved(b)) { DeinterleavedXor(a, b); }
    forall a ensures Deinterleaved(Not(a)) == Not64(Deinterleaved(a)) { DeinterleavedNot(a); }
  }

  lemma InterleavedMasks()
    ensures Masks(Interleaved, (p: Pair) => Deinterleaved(p))
  {
    hide Xor64, And64, Or64, Not64, Rol, Deinterleaved, Xor, And, Or, Not, RolInterleaved;
    forall a, b ensures Deinterleaved(And(a, b)) == And64(Deinterleaved(a), Deinterleaved(b)) { DeinterleavedAnd(a, b); }
    forall a, b ensures Deinterleaved(Or(a, b)) == Or64(Deinterleaved(a), Deinterleaved(b)) { DeinterleavedOr(a, b); }
  }

  lemma InterleavedRotates()
    ensures Rotates(Interleaved, (p: Pair) => Deinterleaved(p))
  {
    hide Xor64, And64, Or64, Not64, Rol, Deinterleaved, Xor, And, Or, Not, RolInterleaved;
    forall a, n: bv7 | n < 64 ensures Deinterleaved(RolInterleaved(a, n)) == Rol(Deinterleaved(a), n) {
      RolInterleavedRotates(a, n);
    }
  }

  lemma InterleavedRefines()
    ensures Refines(Interleaved, (p: Pair) => Deinterleaved(p))
  {
    hide Adds, Masks, Rotates;
    InterleavedAdds();
    InterleavedMasks();
    InterleavedRotates();
  }

  // ----- What the two words hold -----

  /** Bit i, from the low end. */
  predicate Bit64(x: bv64, i: nat) {
    if i == 0 then x & 1 == 1 else Bit64(x >> 1, i - 1)
  }

  predicate Bit32(x: bv32, i: nat) {
    if i == 0 then x & 1 == 1 else Bit32(x >> 1, i - 1)
  }

  lemma LowestBits(p: Pair)
    ensures Deinterleaved(p) & 1 == 1 <==> p.l & 1 == 1
    ensures (Deinterleaved(p) >> 1) & 1 == 1 <==> p.h & 1 == 1
  {
  }

  lemma ShiftAsRol32(x: bv32)
    ensures x >> 1 == Rol32(x, 31) & 0x7FFF_FFFF
  {
  }

  lemma ShiftAsRol(x: bv64)
    ensures x >> 1 >> 1 == And64(Rol(x, 62), 0x3FFF_FFFF_FFFF_FFFF)
  {
  }

  lemma ShiftMask()
    ensures Deinterleaved(Pair(0x7FFF_FFFF, 0x7FFF_FFFF)) == 0x3FFF_FFFF_FFFF_FFFF
  {
  }

  lemma TurnedBack(p: Pair)
    ensures RolInterleaved(p, 62) == Pair(Rol32(p.l, 31), Rol32(p.h, 31))
  {
    hide Rol32;
  }

  lemma ShiftedWords(p: Pair)
    ensures Pair(p.l >> 1, p.h >> 1) == And(RolInterleaved(p, 62), Pair(0x7FFF_FFFF, 0x7FFF_FFFF))
  {
    hide Rol32, RolInterleaved;
    TurnedBack(p);
    ShiftAsRol32(p.l);
    ShiftAsRol32(p.h);
  }

  lemma DeinterleavedShift(p: Pair)
    ensures Deinterleaved(Pair(p.l >> 1, p.h >> 1)) == Deinterleaved(p) >> 1 >> 1
  {
    hide Deinterleaved, RolInterleaved, Rol, And, And64;
    ShiftedWords(p);
    DeinterleavedAnd(RolInterleaved(p, 62), Pair(0x7FFF_FFFF, 0x7FFF_FFFF));
    ShiftMask();
    RolInterleavedRotates(p, 62);
    ShiftAsRol(Deinterleaved(p));
  }

  /** The low word holds the even bits, the high word the odd ones. */
  lemma {:induction false} EvenAndOddBits(p: Pair, i: nat)
    ensures Bit64(Deinterleaved(p), 2 * i) == Bit32(p.l, i)
    ensures Bit64(Deinterleaved(p), 2 * i + 1) == Bit32(p.h, i)
    decreases i
  {
    hide Deinterleaved;
    LowestBits(p);
    if i > 0 {
      DeinterleavedShift(p);
      EvenAndOddBits(Pair(p.l >> 1, p.h >> 1), i - 1);
    }
  }

  /** `INTERLEAVE` collects the even bits of a lane in the low word and the odd ones in the high word. */
  lemma InterleaveSeparates(x: bv64, i: nat)
    ensures Bit32(Interleave(Split(x)).l, i) == Bit64(x, 2 * i)
    ensures Bit32(Interleave(Split(x)).h, i) == Bit64(x, 2 * i + 1)
  {
    hide Interleave, Uninterleave, Split, Join, Bit32, Bit64;
    InterleaveRoundTrip(Split(x));
    JoinSplit(x);
    EvenAndOddBits(Interleave(Split(x)), i);
  }
}
