/** Positional notation: the digits of a natural number in a base, most significant first. */
module Digits {
  import opened Arithmetic

  type Base = b: nat | b >= 2 witness 2

  predicate AreDigits(b: Base, d: seq<nat>) {
    forall i | 0 <= i < |d| :: d[i] < b
  }

  /** No leading zero, so at least one digit only for a positive number. */
  predicate Minimal(d: seq<nat>) {
    d != [] ==> d[0] != 0
  }

  function DigitsOf(b: Base, v: nat): (d: seq<nat>)
    ensures AreDigits(b, d) && Minimal(d) && (d == [] <==> v == 0)
    decreases v
  {
    if v == 0 then [] else
      QuotientIsSmaller(b, v);
      DigitsOf(b, v / b) + [v % b]
  }

  lemma QuotientIsSmaller(b: Base, v: nat)
    requires v > 0
    ensures v / b < v && v == (v / b) * b + v % b
  {
    var q, r := v / b, v % b;
    assert v == b * q + r;
    if q > 0 {
      assert b * q == 2 * q + (b - 2) * q;
    }
  }

  function ValueOf(b: Base, d: seq<nat>): (r: nat) {
    if d == [] then 0 else ValueOf(b, d[..|d| - 1]) * b + d[|d| - 1]
  }

  function Pow(b: Base, n: nat): (p: nat)
    ensures p > 0
  {
    if n == 0 then 1 else
      ProductPositive(Pow(b, n - 1), b);
      Pow(b, n - 1) * b
  }

  lemma ProductPositive(x: nat, y: nat)
    requires x > 0 && y > 0
    ensures x * y > 0
  {
    AtLeastOnce(x, y);
  }

  lemma {:induction false} ValueOfDigits(b: Base, v: nat)
    ensures ValueOf(b, DigitsOf(b, v)) == v
    decreases v
  {
    if v > 0 {
      QuotientIsSmaller(b, v);
      ValueOfDigits(b, v / b);
      var d := DigitsOf(b, v);
      assert d[..|d| - 1] == DigitsOf(b, v / b);
    }
  }

  lemma DivideStep(b: Base, q: nat, r: nat)
    requires r < b
    ensures (q * b + r) / b == q && (q * b + r) % b == r
  {
    DivModUnique(q * b + r, b, q, r);
  }

  lemma {:induction false} DigitsOfValue(b: Base, d: seq<nat>)
    requires AreDigits(b, d) && Minimal(d)
    ensures DigitsOf(b, ValueOf(b, d)) == d
  {
    if d != [] {
      var init, last := d[..|d| - 1], d[|d| - 1];
      DigitsOfValue(b, init);
      DivideStep(b, ValueOf(b, init), last);
      assert d == init + [last];
    }
  }

  lemma {:induction false} ValueOfConcat(b: Base, c: seq<nat>, d: seq<nat>)
    ensures ValueOf(b, c + d) == ValueOf(b, c) * Pow(b, |d|) + ValueOf(b, d)
    decreases |d|
  {
    if d == [] {
      assert c + d == c;
    } else {
      var init, last := d[..|d| - 1], d[|d| - 1];
      ValueOfConcat(b, c, init);
      assert (c + d)[..|c + d| - 1] == c + init;
      Distribute(ValueOf(b, c), Pow(b, |init|), ValueOf(b, init), b);
    }
  }

  lemma OneDigit(b: Base, a: nat)
    ensures ValueOf(b, [a]) == a
  {
    assert [a][..0] == [];
  }

  lemma Distribute(x: nat, p: nat, y: nat, b: nat)
    ensures (x * p + y) * b == x * (p * b) + y * b
  {
  }

  lemma {:induction false} ValueOfZeros(b: Base, n: nat)
    ensures ValueOf(b, seq(n, _ => 0)) == 0
  {
    if n > 0 {
      ValueOfZeros(b, n - 1);
      var z: seq<nat> := seq(n, _ => 0);
      assert z[..n - 1] == seq(n - 1, _ => 0);
    }
  }

  /** The value lies below the power of the number of digits. */
  lemma {:induction false} ValueBelow(b: Base, d: seq<nat>)
    requires AreDigits(b, d)
    ensures ValueOf(b, d) < Pow(b, |d|)
  {
    if d != [] {
      ValueBelow(b, d[..|d| - 1]);
      Carry(ValueOf(b, d[..|d| - 1]), Pow(b, |d| - 1), d[|d| - 1], b);
    }
  }

  lemma Carry(x: nat, p: nat, r: nat, b: nat)
    requires x < p && r < b
    ensures x * b + r < p * b
  {
    assert p * b == x * b + b + (p - x - 1) * b;
    assert (p - x - 1) * b >= 0;
  }

  /** A minimal notation of n + 1 digits has at least the n-th power as its value. */
  lemma {:induction false} ValueAtLeast(b: Base, d: seq<nat>)
    requires AreDigits(b, d) && Minimal(d) && d != []
    ensures ValueOf(b, d) >= Pow(b, |d| - 1)
  {
    var init := d[..|d| - 1];
    if init == [] {
      assert ValueOf(b, init) == 0;
    } else {
      ValueAtLeast(b, init);
      AtLeastTimes(ValueOf(b, init), Pow(b, |init| - 1), b);
    }
  }

  lemma AtLeastTimes(x: nat, p: nat, b: nat)
    requires x >= p
    ensures x * b >= p * b
  {
    assert x * b == p * b + (x - p) * b;
  }
}
