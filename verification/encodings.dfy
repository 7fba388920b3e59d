/** The two encodings behind a Basic `Authorization` value: .NET's ASCII
    encoding of a string, and the base64 alphabet encoding of section 4 of
    RFC 4648 (with `=` padding). */
module Encodings {
  import opened Wrappers

  type byte = b: int | 0 <= b < 256

  // ---------------------------------------------------------------------------
  // ASCII

  /** Byte `Encoding.ASCII` substitutes for a character outside ASCII: `?`. */
  const Replacement: byte := 63

  predicate IsAscii(s: string) {
    forall i :: 0 <= i < |s| ==> (s[i] as int) < 128
  }

  /** `Encoding.ASCII.GetBytes`: one byte per character, its code when below
      128, the replacement `?` otherwise. */
  function AsciiBytes(s: string): (r: seq<byte>)
    ensures |r| == |s|
    ensures forall i :: 0 <= i < |r| ==> r[i] < 128
    ensures forall i :: 0 <= i < |s| && (s[i] as int) < 128 ==> r[i] == s[i] as int
    ensures forall i :: 0 <= i < |s| && (s[i] as int) >= 128 ==> r[i] == Replacement
  {
    seq(|s|, i requires 0 <= i < |s| => if (s[i] as int) < 128 then s[i] as int else Replacement)
  }

  /** `Encoding.ASCII.GetString`: bytes below 128 are their characters, others `?`. */
  function AsciiString(b: seq<byte>): (r: string)
    ensures |r| == |b|
    ensures IsAscii(r)
  {
    seq(|b|, i requires 0 <= i < |b| => if b[i] < 128 then b[i] as char else '?')
  }

  /** ASCII text survives encoding; anything else comes back as `?`. */
  lemma AsciiRoundTrip(s: string)
    ensures IsAscii(s) ==> AsciiString(AsciiBytes(s)) == s
    ensures forall i :: 0 <= i < |s| && (s[i] as int) >= 128 ==> AsciiString(AsciiBytes(s))[i] == '?'
  {
  }

  // ---------------------------------------------------------------------------
  // Base64 (RFC 4648, section 4)

  type sextet = v: int | 0 <= v < 64

  const Pad := '='

  /** The base64 alphabet: `A`-`Z`, `a`-`z`, `0`-`9`, `+`, `/`. */
  function SextetChar(v: sextet): char {
    if v < 26 then ('A' as int + v) as char
    else if v < 52 then ('a' as int + (v - 26)) as char
    else if v < 62 then ('0' as int + (v - 52)) as char
    else if v == 62 then '+'
    else '/'
  }

  /** Position of `c` in the alphabet; `None` for the pad and every other character. */
  function SextetValue(c: char): (r: Option<sextet>)
    ensures r.Some? ==> SextetChar(r.value) == c
  {
    if 'A' <= c <= 'Z' then Some(c as int - 'A' as int)
    else if 'a' <= c <= 'z' then Some(c as int - 'a' as int + 26)
    else if '0' <= c <= '9' then Some(c as int - '0' as int + 52)
    else if c == '+' then Some(62)
    else if c == '/' then Some(63)
    else None
  }

  lemma SextetRoundTrip(v: sextet)
    ensures SextetValue(SextetChar(v)) == Some(v)
  {
  }

  predicate IsBase64Char(c: char) {
    SextetValue(c).Some? || c == Pad
  }

  /** Three bytes as four characters, six bits each, most significant first. */
  function EncodeGroup(b0: byte, b1: byte, b2: byte): seq<char> {
    [SextetChar(b0 / 4), SextetChar((b0 % 4) * 16 + b1 / 16),
     SextetChar((b1 % 16) * 4 + b2 / 64), SextetChar(b2 % 64)]
  }

  /** `Convert.ToBase64String`. */
  function Base64Encode(b: seq<byte>): (r: seq<char>)
    ensures |r| == 4 * ((|b| + 2) / 3)
    ensures forall i :: 0 <= i < |r| ==> IsBase64Char(r[i])
    decreases |b|
  {
    if |b| == 0 then []
    else if |b| == 1 then
      SextetRoundTrip(b[0] / 4);
      SextetRoundTrip((b[0] % 4) * 16);
      [SextetChar(b[0] / 4), SextetChar((b[0] % 4) * 16), Pad, Pad]
    else if |b| == 2 then
      SextetRoundTrip(b[0] / 4);
      SextetRoundTrip((b[0] % 4) * 16 + b[1] / 16);
      SextetRoundTrip((b[1] % 16) * 4);
      [SextetChar(b[0] / 4), SextetChar((b[0] % 4) * 16 + b[1] / 16), SextetChar((b[1] % 16) * 4), Pad]
    else
      SextetRoundTrip(b[0] / 4);
      SextetRoundTrip((b[0] % 4) * 16 + b[1] / 16);
      SextetRoundTrip((b[1] % 16) * 4 + b[2] / 64);
      SextetRoundTrip(b[2] % 64);
      assert (|b| + 2) / 3 == (|b[3..]| + 2) / 3 + 1;
      EncodeGroup(b[0], b[1], b[2]) + Base64Encode(b[3..])
  }

  /** The three bytes carried by four sextets. */
  function Unpack(s0: sextet, s1: sextet, s2: sextet, s3: sextet): seq<byte> {
    var v0, v1, v2, v3: int := s0, s1, s2, s3;
    [v0 * 4 + v1 / 16, (v1 % 16) * 16 + v2 / 4, (v2 % 4) * 64 + v3]
  }

  /** Bytes of one four-character group; `None` when a character is outside
      the alphabet or the padding is misplaced. */
  function DecodeGroup(g: seq<char>): Option<seq<byte>>
    requires |g| == 4
  {
    match (SextetValue(g[0]), SextetValue(g[1]), SextetValue(g[2]), SextetValue(g[3]))
    case (Some(s0), Some(s1), Some(s2), Some(s3)) => Some(Unpack(s0, s1, s2, s3))
    case (Some(s0), Some(s1), Some(s2), None) =>
      if g[3] == Pad then Some(Unpack(s0, s1, s2, 0)[..2]) else None
    case (Some(s0), Some(s1), None, None) =>
      if g[2] == Pad && g[3] == Pad then Some(Unpack(s0, s1, 0, 0)[..1]) else None
    case _ => None
  }

  /** Inverse of `Base64Encode`: padding may only end the last group. */
  function Base64Decode(s: seq<char>): Option<seq<byte>>
    decreases |s|
  {
    if |s| == 0 then Some([])
    else if |s| < 4 then None
    else match (DecodeGroup(s[..4]), Base64Decode(s[4..]))
      case (Some(head), Some(tail)) =>
        if |head| == 3 || |s| == 4 then Some(head + tail) else None
      case _ => None
  }

  lemma GroupRoundTrip(b0: byte, b1: byte, b2: byte)
    ensures DecodeGroup(EncodeGroup(b0, b1, b2)) == Some([b0, b1, b2])
  {
    var s0, s1, s2, s3 := b0 / 4, (b0 % 4) * 16 + b1 / 16, (b1 % 16) * 4 + b2 / 64, b2 % 64;
    SextetRoundTrip(s0);
    SextetRoundTrip(s1);
    SextetRoundTrip(s2);
    SextetRoundTrip(s3);
    assert s1 / 16 == b0 % 4 && s1 % 16 == b1 / 16;
    assert s2 / 4 == b1 % 16 && s2 % 4 == b2 / 64;
  }

  /** A final group carrying one byte (`xx==`) decodes to that byte. */
  lemma OneByteGroupRoundTrip(b0: byte)
    ensures DecodeGroup(Base64Encode([b0])) == Some([b0])
  {
    var s0, s1 := b0 / 4, (b0 % 4) * 16;
    SextetRoundTrip(s0);
    SextetRoundTrip(s1);
    assert s1 / 16 == b0 % 4;
    assert Unpack(s0, s1, 0, 0)[..1] == [b0];
  }

  /** A final group carrying two bytes (`xxx=`) decodes to those bytes. */
  lemma TwoByteGroupRoundTrip(b0: byte, b1: byte)
    ensures DecodeGroup(Base64Encode([b0, b1])) == Some([b0, b1])
  {
    var s0, s1, s2 := b0 / 4, (b0 % 4) * 16 + b1 / 16, (b1 % 16) * 4;
    SextetRoundTrip(s0);
    SextetRoundTrip(s1);
    SextetRoundTrip(s2);
    assert s1 / 16 == b0 % 4 && s1 % 16 == b1 / 16;
    assert s2 / 4 == b1 % 16;
    assert Unpack(s0, s1, s2, 0)[..2] == [b0, b1];
  }

  /** Encoding of one or two bytes is one padded group, and it decodes back. */
  lemma ShortRoundTrip(b: seq<byte>)
    requires 1 <= |b| <= 2
    ensures Base64Decode(Base64Encode(b)) == Some(b)
  {
    var e := Base64Encode(b);
    assert e[..4] == e;
    assert e[4..] == [];
    if |b| == 1 {
      assert b == [b[0]];
      OneByteGroupRoundTrip(b[0]);
    } else {
      assert b == [b[0], b[1]];
      TwoByteGroupRoundTrip(b[0], b[1]);
    }
    assert b + [] == b;
  }

  /** A full group followed by decodable text decodes group by group. */
  lemma DecodeFullGroup(g: seq<char>, rest: seq<char>, head: seq<byte>, tail: seq<byte>)
    requires |g| == 4 && DecodeGroup(g) == Some(head) && |head| == 3
    requires Base64Decode(rest) == Some(tail)
    ensures Base64Decode(g + rest) == Some(head + tail)
  {
    assert (g + rest)[..4] == g;
    assert (g + rest)[4..] == rest;
  }

  /** Decoding undoes encoding, for every byte sequence. */
  lemma {:induction false} Base64RoundTrip(b: seq<byte>)
    ensures Base64Decode(Base64Encode(b)) == Some(b)
    decreases |b|
  {
    if |b| == 1 || |b| == 2 {
      ShortRoundTrip(b);
    } else if |b| >= 3 {
      var g := EncodeGroup(b[0], b[1], b[2]);
      assert Base64Encode(b) == g + Base64Encode(b[3..]);
      GroupRoundTrip(b[0], b[1], b[2]);
      Base64RoundTrip(b[3..]);
      DecodeFullGroup(g, Base64Encode(b[3..]), [b[0], b[1], b[2]], b[3..]);
      assert [b[0], b[1], b[2]] + b[3..] == b;
    }
  }

  /** Test vectors of section 10 of RFC 4648, which pin the alphabet, the bit
      order and the padding independently of the decoder: one full group,
      then one and two bytes left over. */
  lemma Base64TestVectors()
    ensures Base64Encode(AsciiBytes("foo")) == "Zm9v"
    ensures Base64Encode(AsciiBytes("f")) == "Zg=="
    ensures Base64Encode(AsciiBytes("fo")) == "Zm8="
  {
    assert AsciiBytes("foo") == [102, 111, 111];
    assert AsciiBytes("f") == [102];
    assert AsciiBytes("fo") == [102, 111];
    assert [102, 111, 111][3..] == [];
  }
}
