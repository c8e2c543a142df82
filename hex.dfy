/** Object digests as text: validation of a 40-character hex digest, its
    decoding into 20 raw bytes, and the lowercase encoding that `{:x}` produces. */
module Hex {
  import opened Results
  import opened Bytes

  /** `char::is_ascii_hexdigit`: either case is accepted. */
  predicate IsHexDigit(c: char) {
    '0' <= c <= '9' || 'a' <= c <= 'f' || 'A' <= c <= 'F'
  }

  predicate IsLowerHexDigit(c: char) {
    '0' <= c <= '9' || 'a' <= c <= 'f'
  }

  predicate AllHex(s: string) {
    forall i :: 0 <= i < |s| ==> IsHexDigit(s[i])
  }

  predicate AllLowerHex(s: string) {
    forall i :: 0 <= i < |s| ==> IsLowerHexDigit(s[i])
  }

  /** `is_valid_hex_sha`: exactly 40 ASCII hex digits. A valid digest is ASCII
      text, so the byte length the program tests is the character count and its
      bytes are its characters. */
  predicate IsValidHexSha(s: string): (r: bool)
    ensures r ==> IsAscii(s)
  {
    |s| == 40 && AllHex(s)
  }

  /** The canonical form of a digest, as SHA-1 output is printed. */
  predicate IsLowerHexSha(s: string) {
    |s| == 40 && AllLowerHex(s)
  }

  function HexDigitValue(c: char): (v: nat)
    requires IsHexDigit(c)
    ensures v < 16
  {
    if '0' <= c <= '9' then c as int - '0' as int
    else if 'a' <= c <= 'f' then c as int - 'a' as int + 10
    else c as int - 'A' as int + 10
  }

  function LowerHexDigit(v: nat): (c: char)
    requires v < 16
    ensures IsLowerHexDigit(c) && IsHexDigit(c) && HexDigitValue(c) == v
  {
    if v < 10 then ('0' as int + v) as char else ('a' as int + v - 10) as char
  }

  /** The byte a pair of hex digits denotes (`u8::from_str_radix(pair, 16)`,
      which cannot fail on two validated digits). */
  function PairValue(hi: char, lo: char): byte
    requires IsHexDigit(hi) && IsHexDigit(lo)
  {
    (16 * HexDigitValue(hi) + HexDigitValue(lo)) as byte
  }

  /** Hex text to bytes, one byte per pair of digits. */
  function HexDecode(s: string): (r: seq<byte>)
    requires |s| % 2 == 0 && AllHex(s)
    ensures |r| == |s| / 2
  {
    if s == [] then [] else [PairValue(s[0], s[1])] + HexDecode(s[2..])
  }

  /** Bytes to lowercase hex text, two digits per byte, high nibble first. */
  function EncodeHex(d: seq<byte>): (s: string)
    ensures |s| == 2 * |d| && AllLowerHex(s) && AllHex(s)
  {
    if d == [] then []
    else [LowerHexDigit(d[0] as int / 16), LowerHexDigit(d[0] as int % 16)] + EncodeHex(d[1..])
  }

  /** The 20 raw digest bytes a valid digest stands for. */
  function DigestBytes(s: string): (r: seq<byte>)
    requires IsValidHexSha(s)
    ensures |r| == 20
  {
    HexDecode(s)
  }

  /** Byte `i` of the decoding is the value of the `i`-th pair of digits. */
  lemma {:induction false} HexDecodeAt(s: string, i: nat)
    requires |s| % 2 == 0 && AllHex(s) && i < |s| / 2
    ensures HexDecode(s)[i] == PairValue(s[2 * i], s[2 * i + 1])
    decreases i
  {
    if i > 0 {
      HexDecodeAt(s[2..], i - 1);
    }
  }

  /** Decoding the lowercase encoding gives back the bytes. */
  lemma {:induction false} HexDecodeEncode(d: seq<byte>)
    ensures HexDecode(EncodeHex(d)) == d
  {
    if d != [] {
      var s := EncodeHex(d);
      assert s[2..] == EncodeHex(d[1..]);
      HexDecodeEncode(d[1..]);
      assert PairValue(s[0], s[1]) == d[0];
    }
  }

  /** Encoding the decoding of lowercase hex text gives back the text. */
  lemma {:induction false} HexEncodeDecode(s: string)
    requires |s| % 2 == 0 && AllLowerHex(s)
    ensures AllHex(s) && EncodeHex(HexDecode(s)) == s
  {
    if s != [] {
      assert AllLowerHex(s[2..]) && IsLowerHexDigit(s[0]) && IsLowerHexDigit(s[1]);
      HexEncodeDecode(s[2..]);
      var b := PairValue(s[0], s[1]);
      assert HexDecode(s) == [b] + HexDecode(s[2..]);
      assert EncodeHex(HexDecode(s)) == [s[0], s[1]] + s[2..] by {
        PairEncodes(s[0], s[1]);
      }
      SplitFirstTwo(s);
    }
  }

  /** A pair of lowercase digits is the encoding of the byte it denotes. */
  lemma PairEncodes(hi: char, lo: char)
    requires IsLowerHexDigit(hi) && IsLowerHexDigit(lo)
    ensures LowerHexDigit(PairValue(hi, lo) as int / 16) == hi
    ensures LowerHexDigit(PairValue(hi, lo) as int % 16) == lo
  {
    var b := PairValue(hi, lo) as int;
    assert b == 16 * HexDigitValue(hi) + HexDigitValue(lo);
    assert b / 16 == HexDigitValue(hi) && b % 16 == HexDigitValue(lo);
  }

  /** The text of any 20-byte digest is a valid (indeed canonical) digest, and
      decodes to those bytes; a canonical digest is the text of its bytes. */
  lemma DigestRoundTrip(d: seq<byte>, s: string)
    requires |d| == 20 && IsLowerHexSha(s)
    ensures IsLowerHexSha(EncodeHex(d)) && IsValidHexSha(EncodeHex(d))
    ensures DigestBytes(EncodeHex(d)) == d
    ensures IsValidHexSha(s) && EncodeHex(DigestBytes(s)) == s
  {
    HexDecodeEncode(d);
    HexEncodeDecode(s);
  }

  /** `hex_to_20_bytes`: validates the digest, then fills a 20-byte buffer one
      pair of digits at a time. It fails exactly when `IsValidHexSha` does not hold. */
  method HexTo20Bytes(s: string) returns (r: Result<seq<byte>>)
    ensures r.Err? <==> !IsValidHexSha(s)
    ensures r.Err? ==> r.error == InvalidObjectHash
    ensures r.Ok? ==> |r.value| == 20 && r.value == DigestBytes(s)
    ensures r.Ok? ==> forall i :: 0 <= i < 20 ==> r.value[i] == PairValue(s[2 * i], s[2 * i + 1])
  {
    if |s| != 40 || !(forall i :: 0 <= i < |s| ==> IsHexDigit(s[i])) {
      return Err(InvalidObjectHash);
    }
    var out := new byte[20](_ => 0);
    for i := 0 to 20
      invariant forall k :: 0 <= k < i ==> out[k] == PairValue(s[2 * k], s[2 * k + 1])
    {
      out[i] := PairValue(s[2 * i], s[2 * i + 1]);
    }
    forall k | 0 <= k < 20
      ensures out[k] == HexDecode(s)[k]
    {
      HexDecodeAt(s, k);
    }
    r := Ok(out[..]);
  }
}
