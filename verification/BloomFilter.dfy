/** `CBloomFilter` as an object that matches transactions and updates itself. `inserted` is the set
    of all keys it must never forget. */
module BloomFilter {
  import opened Bloom

  /** An output: the data of the operations of its script that can be read, in order, and whether
      the script is a public key or multisig script. */
  datatype TxOut = TxOut(ops: seq<Bytes>, payToPubKey: bool)

  datatype OutPoint = OutPoint(hash: Bytes, n: nat)

  datatype TxIn = TxIn(prevout: OutPoint, ops: seq<Bytes>)

  datatype Tx = Tx(hash: Bytes, stealth: bool, vout: seq<TxOut>, vin: seq<TxIn>)

  class CBloomFilter {
    const h: Hashes
    const nHashFuncs: nat
    const nFlags: nat
    var vData: seq<bv8>
    var isFull: bool
    var isEmpty: bool
    ghost var inserted: set<Bytes>

    ghost predicate Valid()
      reads this
    {
      && (|vData| == 0 ==> isFull || (!isEmpty && nHashFuncs == 0))
      && (isFull ==> AllBytes(vData, 0xFF))
      && (isEmpty ==> AllBytes(vData, 0))
      && (|vData| > 0 && isEmpty && nHashFuncs > 0 ==> inserted == {})
      && (|vData| > 0 ==> forall key | key in inserted :: HasKey(h, vData, key, nHashFuncs))
    }

    /** The flags do not hide the inserted keys: without a hash function and without a set bit
        `UpdateEmptyFull` declares the filter empty whatever was inserted. */
    predicate Remembers()
      reads this
    {
      nHashFuncs > 0 || isFull || !isEmpty
    }

    /** The flags can never hide them. */
    predicate Indelible()
      reads this
    {
      nHashFuncs > 0 || |vData| == 0 || !AllBytes(vData, 0)
    }

    predicate Has(key: Bytes)
      reads this
    {
      Contains(h, vData, isFull, isEmpty, nHashFuncs, key)
    }

    /** A filter of a given size with no bit set. */
    constructor (h: Hashes, size: nat, nHashFuncs: nat, nFlags: nat)
      requires size > 0 || nHashFuncs == 0
      ensures Valid() && Remembers() && inserted == {} && vData == seq(size, _ => 0)
      ensures this.h == h && this.nHashFuncs == nHashFuncs && this.nFlags == nFlags
    {
      this.h, this.nHashFuncs, this.nFlags := h, nHashFuncs, nFlags;
      vData := seq(size, _ => 0);
      isFull, isEmpty := false, false;
      inserted := {};
    }

    /** A filter read from a peer, once `UpdateEmptyFull` has set its flags. */
    constructor Received(h: Hashes, vData: seq<bv8>, nHashFuncs: nat, nFlags: nat)
      ensures Valid() && inserted == {} && this.vData == vData
      ensures isFull == AllBytes(vData, 0xFF) && isEmpty == AllBytes(vData, 0)
      ensures this.h == h && this.nHashFuncs == nHashFuncs && this.nFlags == nFlags
    {
      this.h, this.nHashFuncs, this.nFlags := h, nHashFuncs, nFlags;
      this.vData := vData;
      isFull, isEmpty := AllBytes(vData, 0xFF), AllBytes(vData, 0);
      inserted := {};
    }

    /** `insert`. */
    method Insert(key: Bytes)
      requires Valid()
      modifies this
      ensures Valid() && inserted == old(inserted) + {key} && isFull == old(isFull)
      ensures !isFull ==> nHashFuncs == 0 || |old(vData)| > 0
      ensures vData == if isFull then old(vData) else SetKey(h, old(vData), key, nHashFuncs)
      ensures isEmpty == (old(isEmpty) && isFull)
      ensures Covers(vData, old(vData)) && (nHashFuncs == 0 ==> vData == old(vData))
    {
      hide HasKey, SetBit, HasBit, AllBytes, Covers;
      CoversItself(vData);
      if isFull {
        if |vData| > 0 {
          FullHasAll(h, vData, key, nHashFuncs);
          FullIsNotEmpty(vData);
        }
        inserted := inserted + {key};
        return;
      }
      ghost var before := vData;
      vData := SetBits(key);
      if |vData| == 0 {
        isEmpty := false;
        inserted := inserted + {key};
        return;
      }
      SetKeyCovers(h, before, key, nHashFuncs);
      forall k | k in inserted
        ensures HasKey(h, vData, k, nHashFuncs)
      {
        CoveredKeys(h, before, vData, k, nHashFuncs);
      }
      isEmpty := false;
      inserted := inserted + {key};
    }

    /** The loop of `insert` over the hash functions. */
    method SetBits(key: Bytes) returns (bits: seq<bv8>)
      requires nHashFuncs > 0 ==> |vData| > 0
      ensures bits == SetKey(h, vData, key, nHashFuncs)
    {
      bits := vData;
      for i := 0 to nHashFuncs
        invariant bits == SetKey(h, vData, key, i)
      {
        var nIndex := h.murmur(i, key) % (|vData| * 8);
        bits := SetBit(bits, nIndex);
      }
    }

    /** `contains`. */
    method IsContained(key: Bytes) returns (r: bool)
      requires Valid()
      ensures r == Has(key)
      ensures key in inserted ==> (r <==> Remembers())
    {
      hide HasBit;
      if isFull {
        return true;
      }
      if isEmpty {
        return false;
      }
      var i := 0;
      while i < nHashFuncs
        invariant 0 <= i <= nHashFuncs
        invariant forall j | 0 <= j < i :: HasBit(vData, Index(h, |vData|, j, key))
      {
        if !HasBit(vData, Index(h, |vData|, i, key)) {
          return false;
        }
        i := i + 1;
      }
      return true;
    }

    /** `UpdateEmptyFull`. */
    method UpdateEmptyFull()
      requires Valid()
      modifies this`isFull, this`isEmpty
      ensures Valid() && isFull == AllBytes(vData, 0xFF) && isEmpty == AllBytes(vData, 0)
    {
      var full, empty := true, true;
      for i := 0 to |vData|
        invariant full == AllBytes(vData[..i], 0xFF) && empty == AllBytes(vData[..i], 0)
      {
        assert vData[..i + 1] == vData[..i] + [vData[i]];
        full := full && vData[i] == 0xFF;
        empty := empty && vData[i] == 0;
      }
      assert vData[..|vData|] == vData;
      if key :| key in inserted && |vData| > 0 && nHashFuncs > 0 {
        KeyIsVisible(h, vData, key, nHashFuncs);
      }
      isFull := full;
      isEmpty := empty;
    }

    // ----- Matching a transaction -----

    /** A pushed datum is in the filter, as it is or, with the length of a public key, hashed. */
    predicate DatumMatches(d: Bytes)
      reads this
    {
      (|d| == 33 && |h.hash160(d)| != 0 && Has(h.hash160(d))) || (d != [] && Has(d))
    }

    predicate OutMatches(o: TxOut)
      reads this
    {
      exists k :: 0 <= k < |o.ops| && DatumMatches(o.ops[k])
    }

    predicate InMatches(i: TxIn)
      reads this
    {
      Has(h.outpoint(i.prevout.hash, i.prevout.n)) || exists k :: 0 <= k < |i.ops| && i.ops[k] != [] && Has(i.ops[k])
    }

    /** An input spends one of these outpoints. */
    predicate Spends(tx: Tx, keys: set<Bytes>) {
      exists i :: 0 <= i < |tx.vin| && h.outpoint(tx.vin[i].prevout.hash, tx.vin[i].prevout.n) in keys
    }

    predicate HashMatches(tx: Tx)
      reads this
    {
      (nFlags / 4 % 2 == 1 && tx.stealth) || Has(tx.hash)
    }

    /** The transaction hash matches, or one of the first n outputs. */
    predicate FoundBy(tx: Tx, n: nat)
      requires n <= |tx.vout|
      reads this
    {
      HashMatches(tx) || exists i :: 0 <= i < n && OutMatches(tx.vout[i])
    }

    predicate Updates(o: TxOut) {
      nFlags % 4 == BLOOM_UPDATE_ALL || (nFlags % 4 == BLOOM_UPDATE_P2PUBKEY_ONLY && o.payToPubKey)
    }

    /** No output is added: neither flag is set, or only the one for public keys and no output pays
        to one. */
    predicate Silent(tx: Tx) {
      && nFlags % 4 != 1
      && (nFlags % 4 == 2 ==> forall i :: 0 <= i < |tx.vout| ==> !tx.vout[i].payToPubKey)
    }

    /** Output i is added: something matched up to it, it has an operation, and the flags say so. */
    predicate Marked(tx: Tx, i: nat)
      requires i < |tx.vout|
      reads this
    {
      FoundBy(tx, i + 1) && tx.vout[i].ops != [] && Updates(tx.vout[i])
    }

    ghost function MarkedPoints(tx: Tx, n: nat): (r: set<Bytes>)
      requires n <= |tx.vout|
      reads this
    {
      set i | 0 <= i < n && Marked(tx, i) :: h.outpoint(tx.hash, i)
    }

    /** One output of `IsRelevantAndUpdate`: its operations in turn until something is found. */
    method MatchOutput(tx: Tx, i: nat, found0: bool) returns (found: bool)
      requires Valid() && i < |tx.vout| && !isEmpty
      modifies this
      ensures Valid() && !isEmpty && isFull == old(isFull)
      ensures Covers(vData, old(vData)) && (nHashFuncs == 0 ==> vData == old(vData))
      ensures found == (found0 || old(OutMatches(tx.vout[i])))
      ensures var add := found && tx.vout[i].ops != [] && Updates(tx.vout[i]);
        && inserted == old(inserted) + (if add then {h.outpoint(tx.hash, i)} else {})
        && (!add ==> vData == old(vData))
      ensures Silent(tx) ==> vData == old(vData)
      ensures !found ==> unchanged(this)
    {
      hide Covers;
      CoversItself(vData);
      var o := tx.vout[i];
      found := found0;
      var k := 0;
      while k < |o.ops|
        invariant 0 <= k <= |o.ops|
        invariant unchanged(this)
        invariant found == found0 && (k > 0 ==> !found0)
        invariant forall j | 0 <= j < k :: !DatumMatches(o.ops[j])
      {
        var data := o.ops[k];
        var m := MatchDatum(data, found);
        found := m;
        if found {
          if nFlags % 4 == BLOOM_UPDATE_ALL {
            Insert(h.outpoint(tx.hash, i));
          } else if nFlags % 4 == BLOOM_UPDATE_P2PUBKEY_ONLY && o.payToPubKey {
            Insert(h.outpoint(tx.hash, i));
          }
          return;
        }
        k := k + 1;
      }
    }

    /** One datum. With something found already, only the hashed form is still looked up. */
    method MatchDatum(data: Bytes, found0: bool) returns (found: bool)
      requires Valid()
      ensures found == (found0 || DatumMatches(data))
    {
      hide Contains, Valid;
      found := found0;
      if |data| == 33 {
        var hashed := h.hash160(data);
        var c := IsContained(hashed);
        if |hashed| != 0 && c {
          found := true;
        }
      }
      if !found && |data| != 0 {
        found := IsContained(data);
      }
    }

    /** The loop over the inputs. */
    method MatchInputs(tx: Tx) returns (found: bool)
      requires Valid()
      ensures found <==> exists i :: 0 <= i < |tx.vin| && InMatches(tx.vin[i])
    {
      hide Contains, Valid;
      var i := 0;
      while i < |tx.vin|
        invariant 0 <= i <= |tx.vin|
        invariant forall j | 0 <= j < i :: !InMatches(tx.vin[j])
      {
        var txin := tx.vin[i];
        var c := IsContained(h.outpoint(txin.prevout.hash, txin.prevout.n));
        if c {
          assert InMatches(tx.vin[i]);
          return true;
        }
        var k := 0;
        while k < |txin.ops|
          invariant 0 <= k <= |txin.ops|
          invariant forall j | 0 <= j < k :: !(txin.ops[j] != [] && Has(txin.ops[j]))
        {
          if txin.ops[k] != [] {
            c := IsContained(txin.ops[k]);
            if c {
              assert InMatches(tx.vin[i]);
              return true;
            }
          }
          k := k + 1;
        }
        i := i + 1;
      }
      return false;
    }

    /** The loop over the outputs. Until something is found nothing changes, so every test is one on
        the filter before the call. */
    method MatchOutputs(tx: Tx) returns (found: bool)
      requires Valid() && !isEmpty && !isFull
      modifies this
      ensures Valid() && !isEmpty && !isFull && (nHashFuncs == 0 ==> vData == old(vData))
      ensures found == old(FoundBy(tx, |tx.vout|)) && (!found ==> unchanged(this))
      ensures inserted == old(inserted) + old(MarkedPoints(tx, |tx.vout|))
      ensures Silent(tx) ==> vData == old(vData)
    {
      hide Valid, Has, Updates, DatumMatches, OutMatches;
      var c := IsContained(tx.hash);
      found := (nFlags / 4 % 2 == 1 && tx.stealth) || c;
      var i := 0;
      while i < |tx.vout|
        invariant 0 <= i <= |tx.vout| && Valid() && !isEmpty && !isFull
        invariant nHashFuncs == 0 ==> vData == old(vData)
        invariant Silent(tx) ==> vData == old(vData)
        invariant found == old(FoundBy(tx, i)) && (!found ==> unchanged(this))
        invariant inserted == old(inserted) + old(MarkedPoints(tx, i))
      {
        found := MatchOutput(tx, i, found);
        i := i + 1;
      }
    }

    /** `IsRelevantAndUpdate`. */
    method IsRelevantAndUpdate(tx: Tx) returns (r: bool)
      requires Valid()
      modifies this
      ensures Valid() && old(inserted) <= inserted && isFull == old(isFull)
      ensures nHashFuncs == 0 ==> vData == old(vData)
      // Without a flag that adds one of its outputs the filter stays as it is.
      ensures Silent(tx) ==> vData == old(vData)
      // The verdict, in terms of the filter before the call.
      ensures r == old(isFull || (!isEmpty && (FoundBy(tx, |tx.vout|)
                                               || exists i :: 0 <= i < |tx.vin| && InMatches(tx.vin[i]))))
      // No input that spends a known outpoint is missed, unless the flags hide all keys.
      ensures old(Remembers()) ==> Spends(tx, old(inserted)) ==> r
      // What is added: exactly the marked outputs; a full filter knows them anyway.
      ensures !old(isFull) && !old(isEmpty) ==> inserted == old(inserted) + old(MarkedPoints(tx, |tx.vout|))
      ensures !old(isFull) && old(isEmpty) ==> inserted == old(inserted)
      ensures forall i | 0 <= i < |tx.vout| && (old(isFull) || (!old(isEmpty) && old(Marked(tx, i)))) ::
        h.outpoint(tx.hash, i) in inserted
    {
      if isFull {
        inserted := inserted + set i | 0 <= i < |tx.vout| :: h.outpoint(tx.hash, i);
        if |vData| > 0 {
          forall key | key in inserted
            ensures HasKey(h, vData, key, nHashFuncs)
          {
            FullHasAll(h, vData, key, nHashFuncs);
          }
          FullIsNotEmpty(vData);
        }
        return true;
      }
      if isEmpty {
        return false;
      }
      r := MatchOutputs(tx);
      if r {
        return;
      }
      r := MatchInputs(tx);
    }

    // ----- Any interleaving -----

    /** Any sequence of insertions, updates and matches keeps every key. */
    method Replay(ops: seq<Op>)
      requires Valid()
      modifies this
      ensures Valid() && old(inserted) <= inserted
      ensures nHashFuncs == 0 ==> vData == old(vData)
    {
      hide Valid;
      for i := 0 to |ops|
        invariant Valid() && old(inserted) <= inserted
        invariant nHashFuncs == 0 ==> vData == old(vData)
      {
        match ops[i]
        case Insertion(key) => Insert(key);
        case Update => UpdateEmptyFull();
        case Matching(tx) => var r := IsRelevantAndUpdate(tx);
      }
    }

    /** Under the update-all flag an output that matches is added, under the other flag if it pays to
        a public key. */
    lemma MatchedOutputIsMarked(tx: Tx, i: nat)
      requires i < |tx.vout| && OutMatches(tx.vout[i])
      requires nFlags % 4 == 1 || (nFlags % 4 == 2 && tx.vout[i].payToPubKey)
      ensures Marked(tx, i)
    {
    }

    /** The rule of BIP 37: once an output matches under the update-all flag, or one that pays to a
        public key under the flag for those, a transaction that spends it is relevant, whatever
        happened to the filter in between. */
    method SpenderIsRelevant(tx: Tx, i: nat, between: seq<Op>, spender: Tx) returns (r: bool)
      requires Valid() && Indelible()
      requires i < |tx.vout| && OutMatches(tx.vout[i])
      requires nFlags % 4 == 1 || (nFlags % 4 == 2 && tx.vout[i].payToPubKey)
      requires exists k :: 0 <= k < |spender.vin| && spender.vin[k].prevout == OutPoint(tx.hash, i)
      modifies this
      ensures r
    {
      hide Valid, Updates;
      MatchedOutputIsMarked(tx, i);
      MatchNeedsContent(tx, i);
      ghost var k :| 0 <= k < |spender.vin| && spender.vin[k].prevout == OutPoint(tx.hash, i);
      r := IsRelevantAndUpdate(tx);
      assert h.outpoint(tx.hash, i) in inserted;
      Replay(between);
      assert h.outpoint(spender.vin[k].prevout.hash, spender.vin[k].prevout.n) in inserted;
      IndelibleRemembers();
      r := IsRelevantAndUpdate(spender);
    }

    lemma IndelibleRemembers()
      requires Valid() && Indelible()
      ensures Remembers()
    {
    }

    /** Nothing matches in an empty filter. */
    lemma MatchNeedsContent(tx: Tx, i: nat)
      requires i < |tx.vout| && OutMatches(tx.vout[i])
      ensures isFull || !isEmpty
    {
    }
  }

  datatype Op = Insertion(key: Bytes) | Update | Matching(tx: Tx)

  lemma FullIsNotEmpty(bits: seq<bv8>)
    requires |bits| > 0 && AllBytes(bits, 0xFF)
    ensures !AllBytes(bits, 0)
  {
    assert bits[0] == 0xFF;
  }

  lemma CoversItself(bits: seq<bv8>)
    ensures Covers(bits, bits)
  {
  }
}
