/** `MIX_COLUMN` of `src/echo.c` in both word sizes is the matrix of section 5.1.3 of FIPS 197,
    applied to every byte lane. */
module EchoMix {
  type Byte = bv8

  // ----- Bytes: GF(2^8) -----

  /** Multiplication by {02}: section 4.2.1 of FIPS 197. */
  function XTime(b: Byte): (r: Byte) {
    if b & 0x80 == 0 then b << 1 else (b << 1) ^ 0x1B
  }

  function Add(a: Byte, b: Byte): (r: Byte) { a ^ b }

  /** Multiplication by {03}. */
  function Times3(b: Byte): (r: Byte) { Add(XTime(b), b) }

  /** Row r of the matrix: (2 3 1 1), turned right r times. */
  function MixByte(r: nat, a: Byte, b: Byte, c: Byte, d: Byte): (v: Byte) {
    if r == 0 then Add(Add(Add(XTime(a), Times3(b)), c), d)
    else if r == 1 then Add(Add(Add(a, XTime(b)), Times3(c)), d)
    else if r == 2 then Add(Add(Add(a, b), XTime(c)), Times3(d))
    else Add(Add(Add(Times3(a), b), c), XTime(d))
  }

  // ----- Words -----

  /** The operations of a word size, and the bytes of a word. */
  datatype Words<!W> = Words(
    xor: (W, W) -> W,
    /** Every byte doubled: the masked shift and the multiplication by 27. */
    double: W -> W,
    byte: (W, nat) -> Byte,
    size: nat)

  /** Lane by lane, `xor` adds and `double` multiplies by {02}. */
  ghost predicate ByteLanes<W(!new)>(o: Words<W>) {
    && o.size > 0
    && (forall x, y, k | 0 <= k < o.size :: o.byte(o.xor(x, y), k) == Add(o.byte(x, k), o.byte(y, k)))
    && (forall x, k | 0 <= k < o.size :: o.byte(o.double(x), k) == XTime(o.byte(x, k)))
  }

  function Xor64(x: bv64, y: bv64): (r: bv64) { x ^ y }
  function Xor32(x: bv32, y: bv32): (r: bv32) { x ^ y }

  function Double64(x: bv64): (r: bv64) {
    (((x & 0x8080_8080_8080_8080) >> 7) * 27) ^ ((x & 0x7F7F_7F7F_7F7F_7F7F) << 1)
  }

  function Double32(x: bv32): (r: bv32) {
    (((x & 0x8080_8080) >> 7) * 27) ^ ((x & 0x7F7F_7F7F) << 1)
  }

  function Byte64(x: bv64, k: nat): (r: Byte) {
    if k == 0 then ((x >> 0) & 0xFF) as Byte else
    if k == 1 then ((x >> 8) & 0xFF) as Byte else
    if k == 2 then ((x >> 16) & 0xFF) as Byte else
    if k == 3 then ((x >> 24) & 0xFF) as Byte else
    if k == 4 then ((x >> 32) & 0xFF) as Byte else
    if k == 5 then ((x >> 40) & 0xFF) as Byte else
    if k == 6 then ((x >> 48) & 0xFF) as Byte else
    ((x >> 56) & 0xFF) as Byte
  }

  function Byte32(x: bv32, k: nat): (r: Byte) {
    if k == 0 then ((x >> 0) & 0xFF) as Byte else
    if k == 1 then ((x >> 8) & 0xFF) as Byte else
    if k == 2 then ((x >> 16) & 0xFF) as Byte else
    ((x >> 24) & 0xFF) as Byte
  }

  lemma Xor64Shifted(x: bv64, y: bv64)
    ensures (((x ^ y) >> 0) & 0xFF) as Byte == (((x >> 0) & 0xFF) as Byte) ^ (((y >> 0) & 0xFF) as Byte)
    ensures (((x ^ y) >> 8) & 0xFF) as Byte == (((x >> 8) & 0xFF) as Byte) ^ (((y >> 8) & 0xFF) as Byte)
    ensures (((x ^ y) >> 16) & 0xFF) as Byte == (((x >> 16) & 0xFF) as Byte) ^ (((y >> 16) & 0xFF) as Byte)
    ensures (((x ^ y) >> 24) & 0xFF) as Byte == (((x >> 24) & 0xFF) as Byte) ^ (((y >> 24) & 0xFF) as Byte)
    ensures (((x ^ y) >> 32) & 0xFF) as Byte == (((x >> 32) & 0xFF) as Byte) ^ (((y >> 32) & 0xFF) as Byte)
    ensures (((x ^ y) >> 40) & 0xFF) as Byte == (((x >> 40) & 0xFF) as Byte) ^ (((y >> 40) & 0xFF) as Byte)
    ensures (((x ^ y) >> 48) & 0xFF) as Byte == (((x >> 48) & 0xFF) as Byte) ^ (((y >> 48) & 0xFF) as Byte)
    ensures (((x ^ y) >> 56) & 0xFF) as Byte == (((x >> 56) & 0xFF) as Byte) ^ (((y >> 56) & 0xFF) as Byte)
  {
  }

  lemma Xor64Bytes(x: bv64, y: bv64, k: nat)
    requires k < 8
    ensures Byte64(Xor64(x, y), k) == Add(Byte64(x, k), Byte64(y, k))
  {
    Xor64Shifted(x, y);
    match k
    case 0 => {}
    case 1 => {}
    case 2 => {}
    case 3 => {}
    case 4 => {}
    case 5 => {}
    case 6 => {}
    case _ => {}
  }

  lemma Double64Bytes(x: bv64)
    ensures Byte64(Double64(x), 0) == XTime(Byte64(x, 0))
    ensures Byte64(Double64(x), 1) == XTime(Byte64(x, 1))
    ensures Byte64(Double64(x), 2) == XTime(Byte64(x, 2))
    ensures Byte64(Double64(x), 3) == XTime(Byte64(x, 3))
    ensures Byte64(Double64(x), 4) == XTime(Byte64(x, 4))
    ensures Byte64(Double64(x), 5) == XTime(Byte64(x, 5))
    ensures Byte64(Double64(x), 6) == XTime(Byte64(x, 6))
    ensures Byte64(Double64(x), 7) == XTime(Byte64(x, 7))
  {
  }

  lemma Xor32Shifted(x: bv32, y: bv32)
    ensures (((x ^ y) >> 0) & 0xFF) as Byte == (((x >> 0) & 0xFF) as Byte) ^ (((y >> 0) & 0xFF) as Byte)
    ensures (((x ^ y) >> 8) & 0xFF) as Byte == (((x >> 8) & 0xFF) as Byte) ^ (((y >> 8) & 0xFF) as Byte)
    ensures (((x ^ y) >> 16) & 0xFF) as Byte == (((x >> 16) & 0xFF) as Byte) ^ (((y >> 16) & 0xFF) as Byte)
    ensures (((x ^ y) >> 24) & 0xFF) as Byte == (((x >> 24) & 0xFF) as Byte) ^ (((y >> 24) & 0xFF) as Byte)
  {
  }

  lemma Xor32Bytes(x: bv32, y: bv32, k: nat)
    requires k < 4
    ensures Byte32(Xor32(x, y), k) == Add(Byte32(x, k), Byte32(y, k))
  {
    Xor32Shifted(x, y);
    match k
    case 0 => {}
    case 1 => {}
    case 2 => {}
    case _ => {}
  }

  lemma Double32Bytes(x: bv32)
    ensures Byte32(Double32(x), 0) == XTime(Byte32(x, 0))
    ensures Byte32(Double32(x), 1) == XTime(Byte32(x, 1))
    ensures Byte32(Double32(x), 2) == XTime(Byte32(x, 2))
    ensures Byte32(Double32(x), 3) == XTime(Byte32(x, 3))
  {
  }

  const Words64: Words<bv64> := Words((x, y) => Xor64(x, y), x => Double64(x), (x, k) => Byte64(x, k), 8)

  lemma Words64AreByteLanes()
    ensures ByteLanes(Words64)
  {
    hide Byte64, Xor64, Double64, Add, XTime;
    forall x, y, k: nat | k < 8
      ensures Byte64(Xor64(x, y), k) == Add(Byte64(x, k), Byte64(y, k))
    {
      Xor64Bytes(x, y, k);
    }
    forall x, k: nat | k < 8
      ensures Byte64(Double64(x), k) == XTime(Byte64(x, k))
    {
      Double64Bytes(x);
    }
  }

  const Words32: Words<bv32> := Words((x, y) => Xor32(x, y), x => Double32(x), (x, k) => Byte32(x, k), 4)

  lemma Words32AreByteLanes()
    ensures ByteLanes(Words32)
  {
    hide Byte32, Xor32, Double32, Add, XTime;
    forall x, y, k: nat | k < 4
      ensures Byte32(Xor32(x, y), k) == Add(Byte32(x, k), Byte32(y, k))
    {
      Xor32Bytes(x, y, k);
    }
    forall x, k: nat | k < 4
      ensures Byte32(Double32(x), k) == XTime(Byte32(x, k))
    {
      Double32Bytes(x);
    }
  }

  // ----- One column of words -----

  /** The four results of `MIX_COLUMN1`. */
  function MixWord<W>(o: Words<W>, r: nat, a: W, b: W, c: W, d: W): (v: W) {
    var ab := o.xor(a, b);
    var bc := o.xor(b, c);
    var cd := o.xor(c, d);
    if r == 0 then o.xor(o.xor(o.double(ab), bc), d)
    else if r == 1 then o.xor(o.xor(o.double(bc), a), cd)
    else if r == 2 then o.xor(o.xor(o.double(cd), ab), d)
    else o.xor(o.xor(o.xor(o.xor(o.double(ab), o.double(bc)), o.double(cd)), ab), c)
  }

  function Shifted(b: Byte): (r: Byte) { (b << 1) ^ ((b >> 7) * 0x1B) }
  lemma XTimeIsShifted(b: Byte) ensures XTime(b) == Shifted(b) {}
  lemma ShiftedAdds(a: Byte, b: Byte) ensures Shifted(a ^ b) == Shifted(a) ^ Shifted(b) {}
  lemma AddAssociates(a: Byte, b: Byte, c: Byte) ensures Add(Add(a, b), c) == Add(a, Add(b, c)) {}
  lemma AddCommutes(a: Byte, b: Byte) ensures Add(a, b) == Add(b, a) {}
  lemma AddCancels(a: Byte, b: Byte) ensures Add(Add(a, b), b) == a {}

  /** Doubling is linear. */
  lemma XTimeAdds(a: Byte, b: Byte)
    ensures XTime(Add(a, b)) == Add(XTime(a), XTime(b))
  {
    hide XTime, Shifted;
    XTimeIsShifted(a);
    XTimeIsShifted(b);
    XTimeIsShifted(a ^ b);
    ShiftedAdds(a, b);
  }

  lemma Row0(b: Byte, c: Byte, d: Byte, x: Byte, y: Byte)
    ensures Add(Add(Add(x, y), Add(b, c)), d) == Add(Add(Add(x, Add(y, b)), c), d)
  {
    hide Add;
    AddAssociates(Add(x, y), b, c);
    AddAssociates(x, y, b);
  }

  lemma Row1(a: Byte, c: Byte, d: Byte, y: Byte, z: Byte)
    ensures Add(Add(Add(y, z), a), Add(c, d)) == Add(Add(Add(a, y), Add(z, c)), d)
  {
    hide Add;
    AddCommutes(Add(y, z), a);
    AddAssociates(Add(a, Add(y, z)), c, d);
    AddAssociates(a, y, z);
    AddAssociates(Add(a, y), z, c);
  }

  lemma Row2(a: Byte, b: Byte, d: Byte, z: Byte, t: Byte)
    ensures Add(Add(Add(z, t), Add(a, b)), d) == Add(Add(Add(a, b), z), Add(t, d))
  {
    hide Add;
    var ab := Add(a, b);
    AddCommutes(Add(z, t), ab);
    AddAssociates(ab, z, t);
    AddAssociates(Add(ab, z), t, d);
  }

  lemma Row3(a: Byte, b: Byte, c: Byte, x: Byte, y: Byte, z: Byte, t: Byte)
    ensures Add(Add(Add(Add(Add(x, y), Add(y, z)), Add(z, t)), Add(a, b)), c)
         == Add(Add(Add(Add(x, a), b), c), t)
  {
    hide Add;
    AddAssociates(Add(x, y), y, z);
    AddCancels(x, y);
    AddAssociates(Add(x, z), z, t);
    AddCancels(x, z);
    AddAssociates(Add(x, t), a, b);
    AddAssociates(x, t, a);
    AddCommutes(t, a);
    AddAssociates(x, a, t);
    var p := Add(x, a);
    AddAssociates(p, t, b);
    AddCommutes(t, b);
    AddAssociates(p, b, t);
    var q := Add(p, b);
    AddAssociates(q, t, c);
    AddCommutes(t, c);
    AddAssociates(q, c, t);
  }

  lemma XorLane<W(!new)>(o: Words<W>, x: W, y: W, k: nat)
    requires ByteLanes(o) && k < o.size
    ensures o.byte(o.xor(x, y), k) == Add(o.byte(x, k), o.byte(y, k))
  {
    hide Add, XTime;
  }

  lemma DoubledSum<W(!new)>(o: Words<W>, x: W, y: W, k: nat)
    requires ByteLanes(o) && k < o.size
    ensures o.byte(o.double(o.xor(x, y)), k) == Add(XTime(o.byte(x, k)), XTime(o.byte(y, k)))
  {
    hide Add, XTime;
    XorLane(o, x, y, k);
    XTimeAdds(o.byte(x, k), o.byte(y, k));
  }

  /** In every byte lane, the word-parallel formulas are the matrix product. */
  lemma MixWordIsMatrix<W(!new)>(o: Words<W>, r: nat, a: W, b: W, c: W, d: W, k: nat)
    requires ByteLanes(o) && r < 4 && k < o.size
    ensures o.byte(MixWord(o, r, a, b, c, d), k)
         == MixByte(r, o.byte(a, k), o.byte(b, k), o.byte(c, k), o.byte(d, k))
  {
    hide Add, XTime, ByteLanes;
    var p, q, s, t := o.byte(a, k), o.byte(b, k), o.byte(c, k), o.byte(d, k);
    var ab, bc, cd := o.xor(a, b), o.xor(b, c), o.xor(c, d);
    XorLane(o, a, b, k); XorLane(o, b, c, k); XorLane(o, c, d, k);
    DoubledSum(o, a, b, k); DoubledSum(o, b, c, k); DoubledSum(o, c, d, k);
    if r == 0 {
      XorLane(o, o.double(ab), bc, k);
      XorLane(o, o.xor(o.double(ab), bc), d, k);
      Row0(q, s, t, XTime(p), XTime(q));
    } else if r == 1 {
      XorLane(o, o.double(bc), a, k);
      XorLane(o, o.xor(o.double(bc), a), cd, k);
      Row1(p, s, t, XTime(q), XTime(s));
    } else if r == 2 {
      XorLane(o, o.double(cd), ab, k);
      XorLane(o, o.xor(o.double(cd), ab), d, k);
      Row2(p, q, t, XTime(s), XTime(t));
    } else {
      var u := o.xor(o.double(ab), o.double(bc));
      XorLane(o, o.double(ab), o.double(bc), k);
      XorLane(o, u, o.double(cd), k);
      XorLane(o, o.xor(u, o.double(cd)), ab, k);
      XorLane(o, o.xor(o.xor(u, o.double(cd)), ab), c, k);
      Row3(p, q, s, XTime(p), XTime(q), XTime(s), XTime(t));
    }
  }

  // ----- The state: 16 rows of words -----

  ghost predicate Square<W>(o: Words<W>, m: seq<seq<W>>, cols: nat) {
    |m| == 16 && cols * o.size == 16 && o.size > 0 && forall i | 0 <= i < 16 :: |m[i]| == cols
  }

  /** Byte j of row i. */
  function Lane<W>(o: Words<W>, row: seq<W>, j: nat): (r: Byte)
    requires o.size > 0 && j < |row| * o.size
  {
    LaneInRange(j, o.size, |row|);
    o.byte(row[j / o.size], j % o.size)
  }

  lemma AtLeast(size: nat, cols: nat, q: nat)
    ensures q >= cols ==> size * q >= cols * size
  {
    if q >= cols {
      assert size * q == size * cols + size * (q - cols);
    }
  }

  lemma LaneInRange(j: nat, size: nat, cols: nat)
    requires 0 < size && j < cols * size
    ensures j / size < cols
  {
    assert j == size * (j / size) + j % size;
    AtLeast(size, cols, j / size);
  }

  /** Rows of four words, mixed word by word. */
  ghost predicate RowsMixed<W>(o: Words<W>, old4: seq<seq<W>>, r: nat, row: seq<W>)
    requires |old4| == 4
  {
    forall n | 0 <= n < |row| :: (forall q | 0 <= q < 4 :: n < |old4[q]|)
      && row[n] == MixWord(o, r, old4[0][n], old4[1][n], old4[2][n], old4[3][n])
  }

  /** `MIX_COLUMN(a, b, c, d)`: word n of the four rows is read before it is written. */
  method MixColumn<W>(o: Words<W>, m: seq<seq<W>>, ia: nat, ghost cols: nat) returns (w: seq<seq<W>>)
    requires Square(o, m, cols) && ia + 3 < 16
    ensures Square(o, w, cols)
    ensures forall i | 0 <= i < 16 && !(ia <= i < ia + 4) :: w[i] == m[i]
    ensures forall i | ia <= i < ia + 4 :: RowsMixed(o, m[ia..ia + 4], i - ia, w[i])
  {
    hide MixWord;
    var ib, ic, id := ia + 1, ia + 2, ia + 3;
    w := m;
    var n := 0;
    while n < |m[ia]|
      invariant 0 <= n <= cols && Square(o, w, cols)
      invariant forall i | 0 <= i < 16 && !(ia <= i < ia + 4) :: w[i] == m[i]
      invariant forall i, k | ia <= i < ia + 4 && n <= k < cols :: w[i][k] == m[i][k]
      invariant forall i, k | ia <= i < ia + 4 && 0 <= k < n ::
        w[i][k] == MixWord(o, i - ia, m[ia][k], m[ib][k], m[ic][k], m[id][k])
    {
      var a, b, c, d := w[ia][n], w[ib][n], w[ic][n], w[id][n];
      w := w[ia := w[ia][n := MixWord(o, 0, a, b, c, d)]];
      w := w[ib := w[ib][n := MixWord(o, 1, a, b, c, d)]];
      w := w[ic := w[ic][n := MixWord(o, 2, a, b, c, d)]];
      w := w[id := w[id][n := MixWord(o, 3, a, b, c, d)]];
      n := n + 1;
    }
  }

  /** Every byte lane of every group of four rows holds the matrix product of the old lane. */
  ghost predicate Mixed<W>(o: Words<W>, m: seq<seq<W>>, w: seq<seq<W>>, cols: nat)
    requires Square(o, m, cols) && Square(o, w, cols)
  {
    forall i, j | 0 <= i < 16 && 0 <= j < 16 :: LaneMixed(o, m, w, cols, i, j)
  }

  ghost predicate LaneMixed<W>(o: Words<W>, m: seq<seq<W>>, w: seq<seq<W>>, cols: nat, i: nat, j: nat)
    requires Square(o, m, cols) && Square(o, w, cols) && i < 16 && j < 16
  {
    var g := i / 4 * 4;
    Lane(o, w[i], j) == MixByte(i % 4, Lane(o, m[g], j), Lane(o, m[g + 1], j), Lane(o, m[g + 2], j), Lane(o, m[g + 3], j))
  }

  lemma RowMixedLane<W(!new)>(o: Words<W>, m: seq<seq<W>>, w: seq<seq<W>>, cols: nat, i: nat, j: nat)
    requires Square(o, m, cols) && Square(o, w, cols) && i < 16 && j < 16 && ByteLanes(o)
    requires RowsMixed(o, m[i / 4 * 4..i / 4 * 4 + 4], i % 4, w[i])
    ensures LaneMixed(o, m, w, cols, i, j)
  {
    hide MixWord, MixByte, ByteLanes;
    var g, n, k := i / 4 * 4, j / o.size, j % o.size;
    LaneInRange(j, o.size, cols);
    MixWordIsMatrix(o, i % 4, m[g][n], m[g + 1][n], m[g + 2][n], m[g + 3][n], k);
  }

  /** `BIG_MIX_COLUMNS`. */
  method BigMixColumns<W(!new)>(o: Words<W>, m: seq<seq<W>>, ghost cols: nat) returns (w: seq<seq<W>>)
    requires Square(o, m, cols) && ByteLanes(o)
    ensures Square(o, w, cols) && Mixed(o, m, w, cols)
  {
    hide ByteLanes, RowsMixed, LaneMixed;
    w := m;
    for c := 0 to 4
      invariant Square(o, w, cols)
      invariant forall i | 4 * c <= i < 16 :: w[i] == m[i]
      invariant forall i | 0 <= i < 4 * c :: RowsMixed(o, m[i / 4 * 4..i / 4 * 4 + 4], i % 4, w[i])
    {
      ghost var v := w;
      w := MixColumn(o, w, 4 * c, cols);
      assert v[4 * c..4 * c + 4] == m[4 * c..4 * c + 4];
      forall i | 4 * c <= i < 4 * c + 4
        ensures RowsMixed(o, m[i / 4 * 4..i / 4 * 4 + 4], i % 4, w[i])
      {
        assert i / 4 == c && i % 4 == i - 4 * c;
        assert RowsMixed(o, m[4 * c..4 * c + 4], i - 4 * c, w[i]);
      }
    }
    forall i, j | 0 <= i < 16 && 0 <= j < 16
      ensures LaneMixed(o, m, w, cols, i, j)
    {
      RowMixedLane(o, m, w, cols, i, j);
    }
  }

  ghost predicate SameBytes<W, V>(o: Words<W>, m: seq<seq<W>>, c: nat, p: Words<V>, n: seq<seq<V>>, d: nat)
    requires Square(o, m, c) && Square(p, n, d)
  {
    forall i, j | 0 <= i < 16 && 0 <= j < 16 :: Lane(o, m[i], j) == Lane(p, n[i], j)
  }

  /** Two versions that start from the same bytes end with the same bytes. */
  lemma WordSizesAgree<W, V>(o: Words<W>, m: seq<seq<W>>, m': seq<seq<W>>, c: nat,
                             p: Words<V>, n: seq<seq<V>>, n': seq<seq<V>>, d: nat)
    requires Square(o, m, c) && Square(o, m', c) && Square(p, n, d) && Square(p, n', d)
    requires Mixed(o, m, m', c) && Mixed(p, n, n', d) && SameBytes(o, m, c, p, n, d)
    ensures SameBytes(o, m', c, p, n', d)
  {
    hide MixByte, Lane;
    forall i, j | 0 <= i < 16 && 0 <= j < 16
      ensures Lane(o, m'[i], j) == Lane(p, n'[i], j)
    {
      var g := i / 4 * 4;
      assert LaneMixed(o, m, m', c, i, j) && LaneMixed(p, n, n', d, i, j);
    }
  }
}
