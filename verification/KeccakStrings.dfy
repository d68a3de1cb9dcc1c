/** The state of Keccak as a string of bytes, as section 3.1 of FIPS 202 orders it: adding a block to
    the lanes is the bytewise sum of the strings. */
module KeccakStrings {
  import opened KeccakLanes
  import opened KeccakSpec
  import opened KeccakLabels
  import opened KeccakBytes
  import opened KeccakSponge
  import opened KeccakContext

  lemma XorShifted(x: bv64, y: bv64)
    ensures (((x ^ y) >> 0) & 0xFF) as Byte == (((x >> 0) & 0xFF) as Byte) ^ (((y >> 0) & 0xFF) as Byte)
    ensures (((x ^ y) >> 8) & 0xFF) as Byte == (((x >> 8) & 0xFF) as Byte) ^ (((y >> 8) & 0xFF) as Byte)
    ensures (((x ^ y) >> 16) & 0xFF) as Byte == (((x >> 16) & 0xFF) as Byte) ^ (((y >> 16) & 0xFF) as Byte)
    ensures (((x ^ y) >> 24) & 0xFF) as Byte == (((x >> 24) & 0xFF) as Byte) ^ (((y >> 24) & 0xFF) as Byte)
    ensures (((x ^ y) >> 32) & 0xFF) as Byte == (((x >> 32) & 0xFF) as Byte) ^ (((y >> 32) & 0xFF) as Byte)
    ensures (((x ^ y) >> 40) & 0xFF) as Byte == (((x >> 40) & 0xFF) as Byte) ^ (((y >> 40) & 0xFF) as Byte)
    ensures (((x ^ y) >> 48) & 0xFF) as Byte == (((x >> 48) & 0xFF) as Byte) ^ (((y >> 48) & 0xFF) as Byte)
    ensures (((x ^ y) >> 56) & 0xFF) as Byte == (((x >> 56) & 0xFF) as Byte) ^ (((y >> 56) & 0xFF) as Byte)
  {
  }

  function XorByte(a: Byte, b: Byte): (r: Byte) { a ^ b }

  /** Byte k of a lane. */
  function LaneByte(x: bv64, k: nat): (r: Byte) {
    match k
    case 0 => ByteAt(x, 0)
    case 1 => ByteAt(x, 8)
    case 2 => ByteAt(x, 16)
    case 3 => ByteAt(x, 24)
    case 4 => ByteAt(x, 32)
    case 5 => ByteAt(x, 40)
    case 6 => ByteAt(x, 48)
    case _ => ByteAt(x, 56)
  }

  lemma EncBytes(x: bv64, k: nat)
    requires k < 8
    ensures Enc64(x)[k] == LaneByte(x, k)
  {
    hide ByteAt;
  }

  lemma LaneByteXor(x: bv64, y: bv64, k: nat)
    ensures LaneByte(Xor64(x, y), k) == XorByte(LaneByte(x, k), LaneByte(y, k))
  {
    XorShifted(x, y);
    match k
    case 0 => {}
    case 1 => {}
    case 2 => {}
    case 3 => {}
    case 4 => {}
    case 5 => {}
    case 6 => {}
    case _ => {}
  }

  lemma EncXor(x: bv64, y: bv64, k: nat)
    requires k < 8
    ensures Enc64(Xor64(x, y))[k] == XorByte(Enc64(x)[k], Enc64(y)[k])
  {
    hide Enc64, Xor64, LaneByte, XorByte;
    EncBytes(x, k);
    EncBytes(y, k);
    EncBytes(Xor64(x, y), k);
    LaneByteXor(x, y, k);
  }

  lemma WordBytes(b0: Byte, b1: Byte, b2: Byte, b3: Byte, b4: Byte, b5: Byte, b6: Byte, b7: Byte)
    ensures var x := Word64(b0, b1, b2, b3, b4, b5, b6, b7);
      && ByteAt(x, 0) == b0 && ByteAt(x, 8) == b1 && ByteAt(x, 16) == b2 && ByteAt(x, 24) == b3
      && ByteAt(x, 32) == b4 && ByteAt(x, 40) == b5 && ByteAt(x, 48) == b6 && ByteAt(x, 56) == b7
  {
  }

  /** Writing a lane undoes reading it. */
  lemma EncDec(b: seq<Byte>)
    requires |b| == 8
    ensures Enc64(Dec64(b)) == b
  {
    hide Word64, ByteAt;
    WordBytes(b[0], b[1], b[2], b[3], b[4], b[5], b[6], b[7]);
  }

  /** Byte i of the string belongs to lane (x, y) with x + 5y = i / 8. */
  lemma {:induction false} OutputAt(s: seq<bv64>, k: nat, i: nat)
    requires |s| == 25 && k <= 25 && i < 8 * k
    ensures |Output(s, k)| == 8 * k
    ensures WordLane(i / 8) < 25 && Output(s, k)[i] == Enc64(s[WordLane(i / 8)])[i % 8]
  {
    hide Enc64;
    OutputLength(s, k);
    OutputLength(s, k - 1);
    if i < 8 * (k - 1) {
      OutputAt(s, k - 1, i);
    } else {
      assert i / 8 == k - 1 && i - 8 * (k - 1) == i % 8;
    }
  }

  /** Absorbing adds the block, byte by byte, to the first bytes of the state string. */
  lemma AddBlockIsBytewise(s: seq<bv64>, block: seq<Byte>, i: nat)
    requires |s| == 25 && i < 200 && |block| % 8 == 0 && |block| <= 200
    ensures |Output(AddBlock(s, block), 25)| == |Output(s, 25)| == 200
    ensures Output(AddBlock(s, block), 25)[i] == XorByte(Output(s, 25)[i], if i < |block| then block[i] else 0)
  {
    hide Enc64, Dec64, Xor64, Output, XorByte;
    var t, j, k := AddBlock(s, block), i / 8, i % 8;
    OutputAt(s, 25, i);
    OutputAt(t, 25, i);
    TransposedTwice(j);
    var lane := WordLane(j);
    if i < |block| {
      var w := block[8 * j..8 * j + 8];
      EncXor(s[lane], Dec64(w), k);
      EncDec(w);
      assert w[k] == block[i];
    } else {
      XorZero(Enc64(s[lane])[k]);
    }
  }

  lemma XorZero(b: Byte)
    ensures XorByte(b, 0) == b
  {
  }
}
