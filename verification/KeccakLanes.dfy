/** The three representations of a 64-bit Keccak lane in `src/keccak.c`: one 64-bit word, two
    32-bit halves, and two 32-bit words holding the even and the odd bits. `Ops` is the set of
    lane macros (`XOR64`, `AND64`, ... `ROL64`) that the build selects; `Refines` says that a
    set of macros computes the 64-bit operations through an abstraction `h`. */
module KeccakLanes {
  type Byte = bv8

  function Rol(x: bv64, n: bv7): (r: bv64)
    requires n <= 64
  {
    (x << n) | (x >> (64 - n))
  }

  function Xor64(a: bv64, b: bv64): (r: bv64) { a ^ b }
  function And64(a: bv64, b: bv64): (r: bv64) { a & b }
  function Or64(a: bv64, b: bv64): (r: bv64) { a | b }
  function Not64(a: bv64): (r: bv64) { !a }

  datatype Ops<!L> = Ops(
    xor: (L, L) -> L,
    and: (L, L) -> L,
    or: (L, L) -> L,
    not: L -> L,
    rol: (L, bv7) -> L)

  ghost predicate Adds<L(!new)>(o: Ops<L>, h: L -> bv64) {
    && (forall a, b :: h(o.xor(a, b)) == Xor64(h(a), h(b)))
    && (forall a :: h(o.not(a)) == Not64(h(a)))
  }

  ghost predicate Masks<L(!new)>(o: Ops<L>, h: L -> bv64) {
    && (forall a, b :: h(o.and(a, b)) == And64(h(a), h(b)))
    && (forall a, b :: h(o.or(a, b)) == Or64(h(a), h(b)))
  }

  ghost predicate Rotates<L(!new)>(o: Ops<L>, h: L -> bv64) {
    forall a, n: bv7 :: n < 64 ==> h(o.rol(a, n)) == Rol(h(a), n)
  }

  /** Through `h`, the macros `o` compute the 64-bit operations. */
  ghost predicate Refines<L(!new)>(o: Ops<L>, h: L -> bv64) {
    Adds(o, h) && Masks(o, h) && Rotates(o, h)
  }

  // ----- One 64-bit word -----

  const Wide: Ops<bv64> := Ops(
    (a, b) => Xor64(a, b), (a, b) => And64(a, b), (a, b) => Or64(a, b), a => Not64(a),
    (a, n) => if n < 64 then Rol(a, n) else a)

  // ----- Two 32-bit halves -----

  datatype Pair = Pair(l: bv32, h: bv32)

  function Split(x: bv64): (r: Pair) {
    Pair((x & 0xFFFF_FFFF) as bv32, (x >> 32) as bv32)
  }

  function Join(p: Pair): (r: bv64) {
    ((p.h as bv64) << 32) | (p.l as bv64)
  }

  lemma JoinSplit(x: bv64)
    ensures Join(Split(x)) == x
  {
  }

  function Xor(a: Pair, b: Pair): (r: Pair) { Pair(a.l ^ b.l, a.h ^ b.h) }
  function And(a: Pair, b: Pair): (r: Pair) { Pair(a.l & b.l, a.h & b.h) }
  function Or(a: Pair, b: Pair): (r: Pair) { Pair(a.l | b.l, a.h | b.h) }
  function Not(a: Pair): (r: Pair) { Pair(!a.l, !a.h) }

  /** The high word of `a` followed by `b`, shifted left by n. */
  function Funnel(a: bv32, b: bv32, n: bv6): (r: bv32)
    requires n <= 32
  {
    (a << n) | (b >> (32 - n))
  }

  /** `ROL64_small`, for 1..31. */
  function Small(v: Pair, n: bv6): (r: Pair)
    requires n <= 32
  {
    Pair(Funnel(v.l, v.h, n), Funnel(v.h, v.l, n))
  }

  /** `ROL64_0` .. `ROL64_63` without interleaving. */
  function RolHalves(v: Pair, n: bv7): (r: Pair) {
    if n == 0 || n > 63 then v
    else if n < 32 then Small(v, n as bv6)
    else if n == 32 then Pair(v.h, v.l)
    else var t := Small(v, (n - 32) as bv6); Pair(t.h, t.l)
  }

  const Halves: Ops<Pair> := Ops(
    (a, b) => Xor(a, b), (a, b) => And(a, b), (a, b) => Or(a, b), a => Not(a), (a, n) => RolHalves(a, n))

  // ----- Two 32-bit words of interleaved bits -----

  function Swap1(x: bv32): (r: bv32) { var t := (x ^ (x >> 1)) & 0x2222_2222; x ^ t ^ (t << 1) }
  function Swap2(x: bv32): (r: bv32) { var t := (x ^ (x >> 2)) & 0x0C0C_0C0C; x ^ t ^ (t << 2) }
  function Swap4(x: bv32): (r: bv32) { var t := (x ^ (x >> 4)) & 0x00F0_00F0; x ^ t ^ (t << 4) }
  function Swap8(x: bv32): (r: bv32) { var t := (x ^ (x >> 8)) & 0x0000_FF00; x ^ t ^ (t << 8) }

  function Exchange(p: Pair): (r: Pair) {
    var t := (p.l ^ (p.h << 16)) & 0xFFFF_0000;
    Pair(p.l ^ t, p.h ^ (t >> 16))
  }

  function Gather(x: bv32): (r: bv32) { Swap8(Swap4(Swap2(Swap1(x)))) }
  function Scatter(x: bv32): (r: bv32) { Swap1(Swap2(Swap4(Swap8(x)))) }

  /** `INTERLEAVE(xl, xh)`. */
  function Interleave(p: Pair): (r: Pair) {
    Exchange(Pair(Gather(p.l), Gather(p.h)))
  }

  /** `UNINTERLEAVE(xl, xh)`. */
  function Uninterleave(p: Pair): (r: Pair) {
    var q := Exchange(p);
    Pair(Scatter(q.l), Scatter(q.h))
  }

  lemma SwapsAreInvolutions(x: bv32)
    ensures Swap1(Swap1(x)) == x && Swap2(Swap2(x)) == x
    ensures Swap4(Swap4(x)) == x && Swap8(Swap8(x)) == x
  {
  }

  lemma ScatterGather(x: bv32)
    ensures Scatter(Gather(x)) == x && Gather(Scatter(x)) == x
  {
    hide Swap1, Swap2, Swap4, Swap8;
    SwapsAreInvolutions(x);
    SwapsAreInvolutions(Swap1(x));
    SwapsAreInvolutions(Swap2(Swap1(x)));
    SwapsAreInvolutions(Swap4(Swap2(Swap1(x))));
    SwapsAreInvolutions(Swap8(x));
    SwapsAreInvolutions(Swap4(Swap8(x)));
    SwapsAreInvolutions(Swap2(Swap4(Swap8(x))));
  }

  lemma ExchangeTwice(p: Pair)
    ensures Exchange(Exchange(p)) == p
  {
  }

  /** Each of the two macros undoes the other. */
  lemma InterleaveRoundTrip(p: Pair)
    ensures Uninterleave(Interleave(p)) == p
    ensures Interleave(Uninterleave(p)) == p
  {
    hide Exchange, Gather, Scatter;
    ExchangeTwice(Pair(Gather(p.l), Gather(p.h)));
    ExchangeTwice(p);
    ScatterGather(p.l);
    ScatterGather(p.h);
    ScatterGather(Exchange(p).l);
    ScatterGather(Exchange(p).h);
  }

  function Rol32(x: bv32, n: bv6): (r: bv32)
    requires n <= 32
  {
    Funnel(x, x, n)
  }

  /** `ROL64_0` .. `ROL64_63` with interleaving: the `odd1`, `odd63`, `odd` and `even` forms. */
  function RolInterleaved(v: Pair, n: bv7): (r: Pair) {
    if n == 0 || n > 63 then v
    else if n == 1 then Pair(Rol32(v.h, 1), v.l)
    else if n == 63 then Pair(v.h, Rol32(v.l, 31))
    else
      var k := (n >> 1) as bv6;
      if n & 1 == 1 then Pair(Rol32(v.h, k + 1), Rol32(v.l, k))
      else Pair(Rol32(v.l, k), Rol32(v.h, k))
  }

  const Interleaved: Ops<Pair> := Ops(
    (a, b) => Xor(a, b), (a, b) => And(a, b), (a, b) => Or(a, b), a => Not(a), (a, n) => RolInterleaved(a, n))
}
