/** Bit strings that the padding rules of all three hash functions use. */
module BitStrings {
  function Zeros(n: nat): (s: seq<bool>)
    ensures |s| == n
  {
    seq(n, _ => false)
  }
}
