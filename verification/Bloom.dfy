/** The bloom filter of `src/bloom.cpp` that updates itself from the transactions it matches.
    Murmur, Hash160 and the serialized outpoint are parameters. */
module Bloom {
  type Bytes = seq<nat>

  const BLOOM_UPDATE_ALL := 1
  const BLOOM_UPDATE_P2PUBKEY_ONLY := 2

  /** The hashes: `murmur(i, key)` includes the tweak; `outpoint(hash, n)` is serialized. */
  datatype Hashes = Hashes(
    murmur: (nat, Bytes) -> nat,
    hash160: Bytes -> Bytes,
    outpoint: (Bytes, nat) -> Bytes)

  // ----- Bits -----

  /** `bit_mask[7 & n]`. */
  function Mask(n: nat): (r: bv8) {
    if n % 8 == 0 then 1 else if n % 8 == 1 then 2 else if n % 8 == 2 then 4 else if n % 8 == 3 then 8
    else if n % 8 == 4 then 16 else if n % 8 == 5 then 32 else if n % 8 == 6 then 64 else 128
  }

  predicate BitOf(b: bv8, n: nat) { b & Mask(n) != 0 }

  function WithBit(b: bv8, n: nat): (r: bv8) { b | Mask(n) }

  lemma SettingBits(b: bv8, m: bv8, k: bv8)
    requires m != 0
    ensures (b | m) & m != 0
    ensures b & k != 0 ==> (b | m) & k != 0
    ensures b | m != 0
  {
  }

  /** Setting one bit sets it and clears none. */
  lemma WithBitHas(b: bv8, n: nat, k: nat)
    ensures BitOf(WithBit(b, n), n) && (BitOf(b, k) ==> BitOf(WithBit(b, n), k)) && WithBit(b, n) != 0
  {
    MaskIsNotZero(n);
    SettingBits(b, Mask(n), Mask(k));
  }

  /** The eight masks are the eight bits, the lowest first. */
  lemma MaskIsBit(n: nat)
    ensures Mask(n) == 1 << ((n % 8) as bv4)
  {
    match n % 8
    case 0 => {}
    case 1 => {}
    case 2 => {}
    case 3 => {}
    case 4 => {}
    case 5 => {}
    case 6 => {}
    case _ => {}
  }

  /** Setting a bit sets that bit and no other. */
  lemma WithBitIs(b: bv8, n: nat, k: nat)
    ensures BitOf(WithBit(b, n), k) <==> n % 8 == k % 8 || BitOf(b, k)
  {
  }

  lemma MaskIsNotZero(n: nat)
    ensures Mask(n) != 0
  {
  }

  lemma FullByte(n: nat)
    ensures BitOf(0xFF, n) && WithBit(0xFF, n) == 0xFF
  {
  }

  lemma ZeroByte(n: nat)
    ensures !BitOf(0, n)
  {
  }

  // ----- A filter as a value -----

  /** `Hash(i, key)`. */
  function Index(h: Hashes, size: nat, i: nat, key: Bytes): (n: nat)
    requires size > 0
    ensures n / 8 < size
  {
    h.murmur(i, key) % (size * 8)
  }

  predicate HasBit(bits: seq<bv8>, n: nat)
    requires n / 8 < |bits|
  {
    BitOf(bits[n / 8], n)
  }

  function SetBit(bits: seq<bv8>, n: nat): (r: seq<bv8>)
    requires n / 8 < |bits|
    ensures |r| == |bits|
  {
    bits[n / 8 := WithBit(bits[n / 8], n)]
  }

  /** The bits of the first n hashes of a key are set. */
  predicate HasKey(h: Hashes, bits: seq<bv8>, key: Bytes, n: nat)
    requires |bits| > 0
  {
    forall i | 0 <= i < n :: HasBit(bits, Index(h, |bits|, i, key))
  }

  /** The bits after setting those of the first n hashes. */
  function SetKey(h: Hashes, bits: seq<bv8>, key: Bytes, n: nat): (r: seq<bv8>)
    requires n > 0 ==> |bits| > 0
    ensures |r| == |bits|
  {
    if n == 0 then bits
    else
      var r := SetKey(h, bits, key, n - 1);
      SetBit(r, Index(h, |r|, n - 1, key))
  }

  /** No bit of `a` is cleared in `b`. */
  ghost predicate Covers(b: seq<bv8>, a: seq<bv8>) {
    |a| == |b| && forall n: nat | n / 8 < |a| && HasBit(a, n) :: HasBit(b, n)
  }

  /** In the bits of a filter too. */
  lemma SetBitIs(bits: seq<bv8>, n: nat, k: nat)
    requires n / 8 < |bits| && k / 8 < |bits|
    ensures HasBit(SetBit(bits, n), k) <==> n == k || HasBit(bits, k)
  {
    hide BitOf, WithBit;
    WithBitIs(bits[n / 8], n, k);
  }

  lemma SetBitCovers(bits: seq<bv8>, n: nat)
    requires n / 8 < |bits|
    ensures Covers(SetBit(bits, n), bits) && HasBit(SetBit(bits, n), n)
  {
    hide BitOf, WithBit;
    forall k: nat | k / 8 < |bits| && HasBit(bits, k)
      ensures HasBit(SetBit(bits, n), k)
    {
      WithBitHas(bits[n / 8], n, k);
    }
    WithBitHas(bits[n / 8], n, n);
  }

  lemma {:induction false} SetKeyCovers(h: Hashes, bits: seq<bv8>, key: Bytes, n: nat)
    requires |bits| > 0
    ensures Covers(SetKey(h, bits, key, n), bits) && HasKey(h, SetKey(h, bits, key, n), key, n)
  {
    hide HasBit, SetBit, Index;
    if n > 0 {
      SetKeyCovers(h, bits, key, n - 1);
      var r := SetKey(h, bits, key, n - 1);
      SetBitCovers(r, Index(h, |r|, n - 1, key));
    }
  }

  lemma CoveredKeys(h: Hashes, a: seq<bv8>, b: seq<bv8>, key: Bytes, n: nat)
    requires |a| > 0 && Covers(b, a) && HasKey(h, a, key, n)
    ensures HasKey(h, b, key, n)
  {
    hide HasBit;
  }

  predicate AllBytes(bits: seq<bv8>, b: bv8) {
    forall i | 0 <= i < |bits| :: bits[i] == b
  }

  lemma FullHasAll(h: Hashes, bits: seq<bv8>, key: Bytes, n: nat)
    requires |bits| > 0 && AllBytes(bits, 0xFF)
    ensures HasKey(h, bits, key, n)
  {
    hide BitOf;
    forall i | 0 <= i < n
      ensures HasBit(bits, Index(h, |bits|, i, key))
    {
      FullByte(Index(h, |bits|, i, key));
    }
  }

  /** With at least one hash function, a filter that has a key is not all zero. */
  lemma KeyIsVisible(h: Hashes, bits: seq<bv8>, key: Bytes, n: nat)
    requires |bits| > 0 && n > 0 && HasKey(h, bits, key, n)
    ensures !AllBytes(bits, 0)
  {
    hide BitOf;
    var i := Index(h, |bits|, 0, key);
    assert HasBit(bits, i);
    ZeroByte(i);
  }

  /** `contains`. */
  predicate Contains(h: Hashes, bits: seq<bv8>, isFull: bool, isEmpty: bool, n: nat, key: Bytes) {
    isFull || (!isEmpty && (|bits| > 0 ==> HasKey(h, bits, key, n)))
  }

  /** After `UpdateEmptyFull` a key whose bits are set is still contained exactly if there is a hash
      function or a set bit: without either the filter is declared empty. */
  lemma KeyStaysIff(h: Hashes, bits: seq<bv8>, key: Bytes, n: nat)
    requires |bits| > 0 ==> HasKey(h, bits, key, n)
    ensures Contains(h, bits, AllBytes(bits, 0xFF), AllBytes(bits, 0), n, key)
        <==> |bits| == 0 || n > 0 || !AllBytes(bits, 0)
  {
    if |bits| > 0 && n > 0 {
      KeyIsVisible(h, bits, key, n);
    }
    assert |bits| > 0 && AllBytes(bits, 0) ==> bits[0] == 0;
  }
}
