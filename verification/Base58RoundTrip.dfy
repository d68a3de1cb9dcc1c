/** Base58 encoding and decoding undo each other, what the decoder accepts, how long an encoding
    is, and the same for the checked form and for `CBase58Data`. */
module Base58RoundTrip {
  import opened Options
  import opened CText
  import opened Arithmetic
  import opened Digits
  import opened BigNum
  import opened Base58

  predicate AllBase58(s: string) {
    forall i | 0 <= i < |s| :: IsBase58(s[i])
  }

  predicate AllSpace(s: string) {
    forall i | 0 <= i < |s| :: IsSpace(s[i])
  }

  // ----- What the decoder accepts -----

  lemma {:induction false} SpacesThen(a: string, t: string)
    requires AllSpace(a) && (t == "" || !IsSpace(t[0]))
    ensures SkipSpaces(a + t) == t
  {
    if a == [] {
      assert a + t == t;
    } else {
      SpacesThen(a[1..], t);
      assert (a + t)[1..] == a[1..] + t;
    }
  }

  lemma {:induction false} PrefixThen(b: string, t: string)
    requires AllBase58(b) && (t == "" || !IsBase58(t[0]))
    ensures |Prefix(b + t)| == |b|
    ensures Prefix(b + t) == Prefix(b)
  {
    hide IsBase58;
    if b == [] {
      assert b + t == t;
    } else {
      PrefixThen(b[1..], t);
      assert (b + t)[1..] == b[1..] + t;
    }
  }

  lemma {:induction false} SkippedAreSpaces(s: string)
    ensures var t := SkipSpaces(s);
      |t| <= |s| && t == s[|s| - |t|..] && AllSpace(s[..|s| - |t|]) && (t == "" || !IsSpace(t[0]))
  {
    if s != [] && IsSpace(s[0]) {
      SkippedAreSpaces(s[1..]);
      var t := SkipSpaces(s);
      assert s[..|s| - |t|] == [s[0]] + s[1..][..|s| - 1 - |t|];
    }
  }

  lemma {:induction false} PrefixIsBase58(s: string)
    ensures var n := |Prefix(s)|;
      n <= |s| && AllBase58(s[..n]) && (n < |s| ==> !IsBase58(s[n]))
  {
    hide IsBase58;
    if s != [] && IsBase58(s[0]) {
      PrefixIsBase58(s[1..]);
      var n := |Prefix(s)|;
      assert s[..n] == [s[0]] + s[1..][..n - 1];
    }
  }

  /** Spaces, characters of the alphabet, spaces. */
  predicate InParts(s: string, a: string, b: string, c: string) {
    s == a + b + c && AllSpace(a) && AllBase58(b) && AllSpace(c)
  }

  /** The decoder accepts exactly spaces, then characters of the alphabet, then spaces. */
  lemma AcceptedLanguage(s: string)
    ensures Decoded(s).Some? <==> exists a, b, c :: InParts(s, a, b, c)
  {
    hide Decoded, InParts;
    if Decoded(s).Some? {
      var a, b, c := PartsOf(s);
    }
    if a, b, c :| InParts(s, a, b, c) {
      PartsAreAccepted(s, a, b, c);
    }
  }

  lemma PartsAreAccepted(s: string, a: string, b: string, c: string)
    requires InParts(s, a, b, c)
    ensures Decoded(s).Some?
  {
    hide Decoded;
    AcceptsParts(a, b, c);
  }

  lemma PartsOf(s: string) returns (a: string, b: string, c: string)
    requires Decoded(s).Some?
    ensures InParts(s, a, b, c)
  {
    hide IsBase58, IsSpace, SkipSpaces, Prefix, AllSpace, AllBase58;
    var t := SkipSpaces(s);
    var n := |Prefix(t)|;
    SkippedAreSpaces(s);
    PrefixIsBase58(t);
    SkippedAreSpaces(t[n..]);
    a, b, c := s[..|s| - |t|], t[..n], t[n..];
    assert c == c[..|c|];
    assert t == b + c;
    assert s == a + b + c;
  }

  lemma AcceptsParts(a: string, b: string, c: string)
    requires AllSpace(a) && AllBase58(b) && AllSpace(c)
    ensures Decoded(a + b + c).Some?
  {
    hide IsBase58, IsSpace;
    if b == [] {
      assert a + b + c == (a + c) + "";
      SpacesThen(a + c, "");
    } else {
      NotSpace(b[0]);
      assert a + b + c == a + (b + c);
      SpacesThen(a, b + c);
      if c != [] { NotBase58(c[0]); }
      PrefixThen(b, c);
      PrefixLength(b);
      assert (b + c)[|b|..] == c + "";
      SpacesThen(c, "");
    }
  }

  lemma {:induction false} PrefixLength(b: string)
    requires AllBase58(b)
    ensures |Prefix(b)| == |b|
  {
    hide IsBase58;
    if b != [] {
      PrefixLength(b[1..]);
    }
  }

  lemma NotSpace(c: char)
    requires IsBase58(c)
    ensures !IsSpace(c)
  {
    if IsSpace(c) {
      SpaceIsNotBase58(c);
    }
  }

  lemma NotBase58(c: char)
    requires IsSpace(c)
    ensures !IsBase58(c)
  {
    SpaceIsNotBase58(c);
  }

  // ----- Decoding an encoding -----

  lemma {:induction false} PrefixOfChars(d: seq<nat>)
    requires AreDigits(58, d)
    ensures Prefix(Chars(d)) == d && AllBase58(Chars(d))
  {
    hide CharOf, IndexOf;
    if d != [] {
      IndexOfChar(d[0]);
      PrefixOfChars(d[1..]);
      var s := Chars(d);
      assert s[1..] == Chars(d[1..]);
      forall i | 0 <= i < |s|
        ensures IsBase58(s[i])
      {
        if i > 0 { assert s[i] == s[1..][i - 1]; }
      }
    }
  }

  function Zeros(n: nat): (z: seq<nat>)
    ensures |z| == n
  {
    seq(n, _ => 0)
  }

  lemma OnesAreChars(n: nat, d: seq<nat>)
    requires AreDigits(58, d)
    ensures AreDigits(58, Zeros(n) + d) && Ones(n) + Chars(d) == Chars(Zeros(n) + d)
  {
  }

  lemma {:induction false} CountedOnes(n: nat, d: seq<nat>)
    requires AreDigits(58, d) && Minimal(d)
    ensures LeadingOnes(Ones(n) + Chars(d)) == n
  {
    if n > 0 {
      CountedOnes(n - 1, d);
      assert (Ones(n) + Chars(d))[1..] == Ones(n - 1) + Chars(d);
    } else {
      assert Ones(0) + Chars(d) == Chars(d);
      if d != [] {
        CharsIncrease(0, d[0]);
      }
    }
  }

  lemma ValueBehindZeros(b: Base, n: nat, d: seq<nat>)
    ensures ValueOf(b, Zeros(n) + d) == ValueOf(b, d)
  {
    hide ValueOf;
    ValueOfConcat(b, Zeros(n), d);
    ValueOfZeros(b, n);
  }

  lemma ZerosAndRest(v: seq<Byte>)
    ensures var n := LeadingZeros(v);
      v == ZeroBytes(n) + v[n..] && Minimal(v[n..])
  {
  }

  /** `Decode(Encode(v)) = v` for every byte vector, leading zeros included. */
  lemma DecodeEncode(v: seq<Byte>)
    ensures Decoded(Encoded(v)) == Some(v)
  {
    hide Chars, ValueOf, DigitsOf, Prefix, LeadingOnes, LeadingZeros, SkipSpaces, IsBase58, IsSpace;
    var n, value := LeadingZeros(v), ValueOf(256, v);
    var d := DigitsOf(58, value);
    var s := Encoded(v);
    OnesAreChars(n, d);
    PrefixOfChars(Zeros(n) + d);
    if s != "" { NotSpace(s[0]); }
    assert [] + s == s;
    SpacesThen("", s);
    assert s[|s|..] == "" + "";
    SpacesThen("", "");
    CountedOnes(n, d);
    ValueBehindZeros(58, n, d);
    ValueOfDigits(58, value);
    ZerosAndRest(v);
    RestIsBytes(v, n);
  }

  lemma RestIsBytes(v: seq<Byte>, n: nat)
    requires n <= |v| && v == ZeroBytes(n) + v[n..] && Minimal(v[n..])
    ensures Bytes(ValueOf(256, v)) == v[n..]
  {
    hide ValueOf, DigitsOf;
    var z: seq<nat> := ZeroBytes(n);
    assert z == Zeros(n);
    ValueBehindZeros(256, n, v[n..]);
    DigitsOfValue(256, v[n..]);
  }

  // ----- Encoding a decoding -----

  lemma {:induction false} CharsOfPrefix(s: string)
    requires AllBase58(s)
    ensures Chars(Prefix(s)) == s
  {
    hide CharOf, IndexOf;
    if s != [] {
      CharsOfPrefix(s[1..]);
      CharsOf(IndexOf(s[0]).value, Prefix(s[1..]));
      IndexGives(s[0]);
    }
  }

  lemma IndexGives(c: char)
    requires IsBase58(c)
    ensures IndexOf(c).value < 58 && CharOf(IndexOf(c).value) == c
  {
    hide CharOf;
  }

  /** The leading ones are the leading zero digits. */
  lemma {:induction false} OnesAreZeroDigits(s: string)
    requires AllBase58(s)
    ensures var n, d := LeadingOnes(s), Prefix(s);
      n <= |d| && d == Zeros(n) + d[n..] && Minimal(d[n..])
  {
    hide IndexOf, CharOf;
    if s != [] {
      IndexGives(s[0]);
      IndexOfChar(0);
      FirstChar();
      if s[0] == '1' {
        OnesAreZeroDigits(s[1..]);
        var n, d := LeadingOnes(s), Prefix(s);
        assert Zeros(n) == [0] + Zeros(n - 1);
        assert d[n..] == Prefix(s[1..])[n - 1..];
      }
    }
  }

  lemma FirstChar()
    ensures CharOf(0) == '1'
  {
  }

  lemma {:induction false} ZerosOfZeros(n: nat, b: seq<Byte>)
    requires Minimal(b)
    ensures LeadingZeros(ZeroBytes(n) + b) == n
  {
    if n > 0 {
      ZerosOfZeros(n - 1, b);
      assert (ZeroBytes(n) + b)[1..] == ZeroBytes(n - 1) + b;
    } else {
      assert ZeroBytes(0) + b == b;
    }
  }

  /** `Encode(Decode(s)) = s` for every text over the alphabet. */
  lemma EncodeDecode(s: string)
    requires AllBase58(s)
    ensures Decoded(s).Some? && Encoded(Decoded(s).value) == s
  {
    hide Chars, ValueOf, DigitsOf, Prefix, LeadingOnes, LeadingZeros, SkipSpaces, IsBase58, IsSpace;
    if s != "" { NotSpace(s[0]); }
    assert [] + s == s;
    SpacesThen("", s);
    PrefixLength(s);
    assert s[|s|..] == "" + "";
    SpacesThen("", "");
    var n, d := LeadingOnes(s), Prefix(s);
    var value := ValueOf(58, d);
    OnesAreZeroDigits(s);
    ValueBehindZeros(58, n, d[n..]);
    DigitsOfValue(58, d[n..]);
    var v := ZeroBytes(n) + Bytes(value);
    ZerosOfZeros(n, Bytes(value));
    assert v == ZeroBytes(n) + v[n..] && v[n..] == Bytes(value);
    ValueOfDigits(256, value);
    var z: seq<nat> := ZeroBytes(n);
    assert z == Zeros(n);
    ValueBehindZeros(256, n, Bytes(value));
    OnesAreChars(n, d[n..]);
    CharsOfPrefix(s);
  }

  // ----- The length of an encoding -----

  lemma {:induction false} PowAdds(b: Base, m: nat, n: nat)
    ensures Pow(b, m + n) == Pow(b, m) * Pow(b, n)
  {
    if n > 0 {
      PowAdds(b, m, n - 1);
      assert Pow(b, m) * Pow(b, n - 1) * b == Pow(b, m) * (Pow(b, n - 1) * b);
    }
  }

  /** 8 bytes fit in 11 characters: 256^(8k) is at most 58^(11k). */
  lemma {:induction false} EightInEleven(k: nat)
    ensures Pow(256, 8 * k) <= Pow(58, 11 * k)
  {
    hide Pow;
    PowersOf58();
    PowersOf256();
    if k == 0 {
      PowZeros();
    } else {
      EightInEleven(k - 1);
      PowAdds(256, 8 * (k - 1), 8);
      PowAdds(58, 11 * (k - 1), 11);
      ProductsGrow(Pow(256, 8 * (k - 1)), Pow(58, 11 * (k - 1)), Pow(256, 8), Pow(58, 11));
    }
  }

  lemma PowZeros()
    ensures Pow(256, 0) == 1 && Pow(58, 0) == 1
  {
  }

  lemma PowersOf58()
    ensures Pow(58, 11) > TWO64
  {
    assert Pow(58, 4) == 11316496;
    assert Pow(58, 8) == 11316496 * 11316496;
  }

  lemma ProductsGrow(a: nat, b: nat, c: nat, d: nat)
    requires a <= b && c <= d
    ensures a * c <= b * d
  {
    assert b * d == a * c + a * (d - c) + (b - a) * d;
    assert a * (d - c) >= 0 && (b - a) * d >= 0;
  }

  function Square(x: nat): (r: nat) { x * x }

  lemma EighthPower(b: Base, k: nat)
    ensures Pow(b, 8 * k) == Square(Square(Square(Pow(b, k))))
  {
    hide Pow;
    PowAdds(b, k, k);
    PowAdds(b, 2 * k, 2 * k);
    PowAdds(b, 4 * k, 4 * k);
  }

  lemma SquaresGrow(x: nat, y: nat)
    ensures x < y ==> Square(x) < Square(y)
  {
    if x < y {
      assert y * y == x * x + x * (y - x) + (y - x) * y;
      assert x * (y - x) >= 0;
      AtLeastOnce(y - x, y);
    }
  }

  lemma {:induction false} PowersGrow(b: Base, m: nat, n: nat)
    requires m <= n
    ensures Pow(b, m) <= Pow(b, n)
  {
    if m < n {
      PowersGrow(b, m, n - 1);
      AtLeastOnce(Pow(b, n - 1), b);
    }
  }

  /** Fewer than 11/8 as many further digits in base 58 as there were bytes. */
  lemma DigitsPerByte(k: nat, m: nat)
    requires Pow(58, k) < Pow(256, m)
    ensures 8 * k < 11 * m
  {
    hide Pow, Square;
    var p, q := Pow(58, k), Pow(256, m);
    EighthPower(58, k);
    EighthPower(256, m);
    SquaresGrow(p, q);
    SquaresGrow(Square(p), Square(q));
    SquaresGrow(Square(Square(p)), Square(Square(q)));
    EightInEleven(m);
    if 8 * k >= 11 * m {
      PowersGrow(58, 11 * m, 8 * k);
    }
  }

  /** An encoding never outgrows what `EncodeBase58` reserves for it. */
  lemma EncodedLength(v: seq<Byte>)
    ensures |Encoded(v)| <= |v| * 138 / 100 + 1
  {
    hide ValueOf, DigitsOf, Pow, LeadingZeros, Chars;
    var n := LeadingZeros(v);
    var rest := v[n..];
    ZerosAndRest(v);
    var z: seq<nat> := ZeroBytes(n);
    assert z == Zeros(n);
    ValueBehindZeros(256, n, rest);
    var value := ValueOf(256, v);
    ValueBelow(256, rest);
    var d := DigitsOf(58, value);
    if d != [] {
      ValueOfDigits(58, value);
      ValueAtLeast(58, d);
      DigitsPerByte(|d| - 1, |rest|);
    }
  }
}
