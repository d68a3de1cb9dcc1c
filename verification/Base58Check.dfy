/** Base58Check and `CBase58Data` of `src/base58.cpp`, for any hash function: only the first four
    bytes of the hash matter. */
module Base58Check {
  import opened Options
  import opened Digits
  import opened BigNum
  import opened Base58
  import opened Base58RoundTrip

  type Checksum = seq<Byte> -> (Byte, Byte, Byte, Byte)

  function Four(h: Checksum, v: seq<Byte>): (b: seq<Byte>)
    ensures |b| == 4
  {
    var t := h(v);
    [t.0, t.1, t.2, t.3]
  }

  function EncodedCheck(h: Checksum, v: seq<Byte>): (r: string) {
    Encoded(v + Four(h, v))
  }

  /** The data in front of a matching checksum. */
  function Checked(h: Checksum, w: seq<Byte>): (r: Option<seq<Byte>>) {
    if |w| < 4 then None
    else
      var v := w[..|w| - 4];
      if Four(h, v) == w[|w| - 4..] then Some(v) else None
  }

  function DecodedCheck(h: Checksum, s: string): (r: Option<seq<Byte>>) {
    var r := Decoded(s);
    if r.None? then None else Checked(h, r.value)
  }

  /** `EncodeBase58Check`. */
  method EncodeBase58Check(h: Checksum, vchIn: seq<Byte>) returns (str: string)
    ensures |vchIn| + 9 < TWO31 ==> str == EncodedCheck(h, vchIn)
  {
    var hash := h(vchIn);
    str := EncodeBase58(vchIn + [hash.0, hash.1, hash.2, hash.3]);
  }

  /** `DecodeBase58Check`. */
  method DecodeBase58Check(h: Checksum, str: string) returns (r: Option<seq<Byte>>)
    ensures r == DecodedCheck(h, CString(str))
  {
    hide Decoded;
    r := DecodeBase58(str);
    if r.None? || |r.value| < 4 {
      return None;
    }
    var w := r.value;
    var hash := h(w[..|w| - 4]);
    if [hash.0, hash.1, hash.2, hash.3] != w[|w| - 4..] {
      return None;
    }
    r := Some(w[..|w| - 4]);
  }

  /** Every byte vector survives encoding and decoding with its checksum. */
  lemma CheckRoundTrip(h: Checksum, v: seq<Byte>)
    ensures DecodedCheck(h, EncodedCheck(h, v)) == Some(v)
  {
    hide Decoded, Encoded;
    var w := v + Four(h, v);
    DecodeEncode(w);
    assert w[..|w| - 4] == v && w[|w| - 4..] == Four(h, v);
  }

  /** A text over the alphabet that decodes is the encoding of its data. */
  lemma CheckedText(h: Checksum, s: string, v: seq<Byte>)
    requires AllBase58(s) && DecodedCheck(h, s) == Some(v)
    ensures EncodedCheck(h, v) == s
  {
    hide Decoded, Encoded, IsBase58;
    EncodeDecode(s);
    var w := Decoded(s).value;
    assert w == v + Four(h, v);
  }

  // ----- CBase58Data -----

  /** What a text holds: the version byte and the data behind it. */
  function Parsed(h: Checksum, s: string): (r: Option<(Byte, seq<Byte>)>) {
    var r := DecodedCheck(h, s);
    if r.None? || r.value == [] then None else Some((r.value[0], r.value[1..]))
  }

  function Text(h: Checksum, version: Byte, data: seq<Byte>): (r: string) {
    EncodedCheck(h, [version] + data)
  }

  class CBase58Data {
    var nVersion: Byte
    var vchData: seq<Byte>

    constructor ()
      ensures nVersion == 0 && vchData == []
    {
      nVersion, vchData := 0, [];
    }

    /** `SetString`: on failure the object is cleared. */
    method SetString(h: Checksum, psz: string) returns (ok: bool)
      modifies this
      ensures var p := Parsed(h, CString(psz));
        && ok == p.Some?
        && (nVersion, vchData) == if ok then p.value else (0, [])
    {
      hide DecodedCheck;
      var r := DecodeBase58Check(h, psz);
      if r.None? || r.value == [] {
        vchData := [];
        nVersion := 0;
        return false;
      }
      nVersion := r.value[0];
      vchData := r.value[1..];
      return true;
    }

    /** `ToString`. */
    method ToString(h: Checksum) returns (str: string)
      ensures |vchData| + 10 < TWO31 ==> str == Text(h, nVersion, vchData)
    {
      str := EncodeBase58Check(h, [nVersion] + vchData);
    }
  }

  lemma {:induction false} NoNul(s: string)
    requires '\0' !in s
    ensures CString(s) == s
  {
    if s != [] {
      NoNul(s[1..]);
    }
  }

  lemma EncodedHasNoNul(v: seq<Byte>)
    ensures '\0' !in Encoded(v)
  {
    hide ValueOf, DigitsOf;
    var d := DigitsOf(58, ValueOf(256, v));
    assert forall i | 0 <= i < |d| :: Chars(d)[i] != '\0';
  }

  /** `SetString(ToString(d))` restores version and data, for any hash function. */
  lemma DataRoundTrip(h: Checksum, version: Byte, data: seq<Byte>)
    ensures Parsed(h, CString(Text(h, version, data))) == Some((version, data))
  {
    hide DecodedCheck, Encoded;
    var v := [version] + data;
    EncodedHasNoNul(v + Four(h, v));
    NoNul(Text(h, version, data));
    CheckRoundTrip(h, v);
    assert v[1..] == data;
  }
}
