/** Block streaming, as the three `*_core` functions do it: bytes are buffered and every full
    block is given to a step function. */
module Streaming {
  /** The state after the full blocks of `bytes`, and the bytes of the last, partial block. */
  function Absorb<S, B>(step: (S, seq<B>) -> S, size: nat, s: S, bytes: seq<B>): (r: (S, seq<B>))
    requires size > 0
    ensures |r.1| < size
    decreases |bytes|
  {
    if |bytes| < size then (s, bytes) else Absorb(step, size, step(s, bytes[..size]), bytes[size..])
  }

  /** Feeding `a` and then `b` is feeding `a + b`, wherever the data is cut. */
  lemma {:induction false} AbsorbInParts<S, B>(step: (S, seq<B>) -> S, size: nat, s: S, a: seq<B>, b: seq<B>)
    requires size > 0
    ensures Absorb(step, size, s, a + b)
         == var r := Absorb(step, size, s, a); Absorb(step, size, r.0, r.1 + b)
    decreases |a|
  {
    if |a| >= size {
      AbsorbInParts(step, size, step(s, a[..size]), a[size..], b);
      assert (a + b)[..size] == a[..size];
      assert (a + b)[size..] == a[size..] + b;
    }
  }

  lemma NothingFull<S, B>(step: (S, seq<B>) -> S, size: nat, s: S, bytes: seq<B>)
    requires |bytes| < size
    ensures Absorb(step, size, s, bytes) == (s, bytes)
  {
  }

  /** One full block, then the rest. */
  lemma AbsorbBlock<S, B>(step: (S, seq<B>) -> S, size: nat, s: S, block: seq<B>, rest: seq<B>)
    requires size > 0 && |block| == size
    ensures Absorb(step, size, s, block + rest) == Absorb(step, size, step(s, block), rest)
  {
    assert (block + rest)[..size] == block;
    assert (block + rest)[size..] == rest;
  }

  /** How many full blocks n bytes hold. */
  function Blocks(size: nat, n: nat): (k: nat)
    requires size > 0
    ensures size * k <= n < size * k + size
  {
    if n < size then 0 else 1 + Blocks(size, n - size)
  }

  lemma NoBlock(size: nat, n: nat)
    requires n < size
    ensures size * Blocks(size, n) == 0
  {
  }

  lemma NextBlock(size: nat, n: nat)
    requires 0 < size <= n
    ensures size * Blocks(size, n) == size + size * Blocks(size, n - size)
  {
  }

  /** What stays pending is the end of the data, after its full blocks. */
  lemma {:induction false} PendingIsTheEnd<S, B>(step: (S, seq<B>) -> S, size: nat, s: S, bytes: seq<B>)
    requires size > 0
    ensures var rest := Absorb(step, size, s, bytes).1;
      |bytes| == size * Blocks(size, |bytes|) + |rest| && rest == bytes[|bytes| - |rest|..]
    decreases |bytes|
  {
    hide Blocks;
    if |bytes| < size {
      NoBlock(size, |bytes|);
    } else {
      PendingIsTheEnd(step, size, step(s, bytes[..size]), bytes[size..]);
      NextBlock(size, |bytes|);
    }
  }

  /** When two step functions keep a relation, so does absorbing. */
  lemma {:induction false} AbsorbSimulates<S, T, B>(
    step: (S, seq<B>) -> S, step': (T, seq<B>) -> T, size: nat, related: (S, T) -> bool,
    s: S, t: T, bytes: seq<B>)
    requires size > 0 && related(s, t)
    requires forall x, y, block | |block| == size && related(x, y) :: related(step(x, block), step'(y, block))
    ensures related(Absorb(step, size, s, bytes).0, Absorb(step', size, t, bytes).0)
    ensures Absorb(step, size, s, bytes).1 == Absorb(step', size, t, bytes).1
    decreases |bytes|
  {
    if |bytes| >= size {
      AbsorbSimulates(step, step', size, related, step(s, bytes[..size]), step'(t, bytes[..size]), bytes[size..]);
    }
  }
}
