/** The step mappings of section 3.2 of FIPS 202 for w = 64, on a state of 25 lanes. Lane
    A[x,y] is at index 5x + y. */
module KeccakSpec {
  import opened KeccakLanes

  function Xor5(a: bv64, b: bv64, c: bv64, d: bv64, e: bv64): (r: bv64) {
    Xor64(Xor64(Xor64(Xor64(a, b), c), d), e)
  }

  /** C[x]: the parity of column x. */
  function Column(s: seq<bv64>, x: nat): (r: bv64)
    requires |s| == 25 && x < 5
  {
    Xor5(s[5 * x], s[5 * x + 1], s[5 * x + 2], s[5 * x + 3], s[5 * x + 4])
  }

  /** D[x] = C[x-1] xor C[x+1] rotated by one. */
  function Effect(s: seq<bv64>, x: nat): (r: bv64)
    requires |s| == 25 && x < 5
  {
    Xor64(Column(s, (x + 4) % 5), Rol(Column(s, (x + 1) % 5), 1))
  }

  function Theta(s: seq<bv64>): (t: seq<bv64>)
    requires |s| == 25
    ensures |t| == 25
  {
    seq(25, i requires 0 <= i < 25 => Xor64(s[i], Effect(s, i / 5)))
  }

  /** The rotation of lane (x, y), at index 5x + y. */
  function Shift(i: nat): (n: bv7)
    requires i < 25
    ensures n < 64
  {
    match i
    case 0 => 0 case 1 => 36 case 2 => 3 case 3 => 41 case 4 => 18
    case 5 => 1 case 6 => 44 case 7 => 10 case 8 => 45 case 9 => 2
    case 10 => 62 case 11 => 6 case 12 => 43 case 13 => 15 case 14 => 61
    case 15 => 28 case 16 => 55 case 17 => 25 case 18 => 21 case 19 => 56
    case 20 => 27 case 21 => 20 case 22 => 39 case 23 => 8 case _ => 14
  }

  function Rho(s: seq<bv64>): (t: seq<bv64>)
    requires |s| == 25
    ensures |t| == 25
  {
    seq(25, i requires 0 <= i < 25 => Rol(s[i], Shift(i)))
  }

  /** A'[x,y] = A[x + 3y, x]: where lane i of the result comes from. */
  function PiSource(i: nat): (j: nat)
    requires i < 25
    ensures j < 25
  {
    5 * ((i / 5 + 3 * (i % 5)) % 5) + i / 5
  }

  function Pi<L>(s: seq<L>): (t: seq<L>)
    requires |s| == 25
    ensures |t| == 25
  {
    seq(25, i requires 0 <= i < 25 => s[PiSource(i)])
  }

  function ChiLane(a: bv64, b: bv64, c: bv64): (r: bv64) {
    Xor64(a, And64(Not64(b), c))
  }

  function ChiOf(s: seq<bv64>, i: nat): (r: bv64)
    requires |s| == 25 && i < 25
  {
    ChiLane(s[i], s[(i + 5) % 25], s[(i + 10) % 25])
  }

  function Chi(s: seq<bv64>): (t: seq<bv64>)
    requires |s| == 25
    ensures |t| == 25
  {
    seq(25, i requires 0 <= i < 25 => ChiOf(s, i))
  }

  function Iota(s: seq<bv64>, rc: bv64): (t: seq<bv64>)
    requires |s| == 25
    ensures |t| == 25
  {
    s[0 := Xor64(s[0], rc)]
  }

  function Round(s: seq<bv64>, rc: bv64): (t: seq<bv64>)
    requires |s| == 25
    ensures |t| == 25
  {
    Iota(Chi(Pi(Rho(Theta(s)))), rc)
  }

  /** One round for each constant of `rc`, in order. */
  function Rounds(s: seq<bv64>, rc: seq<bv64>): (t: seq<bv64>)
    requires |s| == 25
    ensures |t| == 25
    decreases |rc|
  {
    hide Round;
    if rc == [] then s else Rounds(Round(s, rc[0]), rc[1..])
  }

  /** The 24 round constants. */
  function RC(i: nat): (r: bv64)
    requires i < 24
  {
    match i
    case 0 => 0x0000_0000_0000_0001 case 1 => 0x0000_0000_0000_8082 case 2 => 0x8000_0000_0000_808A
    case 3 => 0x8000_0000_8000_8000 case 4 => 0x0000_0000_0000_808B case 5 => 0x0000_0000_8000_0001
    case 6 => 0x8000_0000_8000_8081 case 7 => 0x8000_0000_0000_8009 case 8 => 0x0000_0000_0000_008A
    case 9 => 0x0000_0000_0000_0088 case 10 => 0x0000_0000_8000_8009 case 11 => 0x0000_0000_8000_000A
    case 12 => 0x0000_0000_8000_808B case 13 => 0x8000_0000_0000_008B case 14 => 0x8000_0000_0000_8089
    case 15 => 0x8000_0000_0000_8003 case 16 => 0x8000_0000_0000_8002 case 17 => 0x8000_0000_0000_0080
    case 18 => 0x0000_0000_0000_800A case 19 => 0x8000_0000_8000_000A case 20 => 0x8000_0000_8000_8081
    case 21 => 0x8000_0000_0000_8080 case 22 => 0x0000_0000_8000_0001 case _ => 0x8000_0000_8000_8008
  }
}
