/**
 * The hex encoding of strings used by the STRING parameter type on input:
 * the UTF-8 bytes of the string, two lower-case hex digits per byte, behind "0x".
 */
module Hex {
  import opened Wrappers

  type Byte = b: int | 0 <= b < 256

  /** The UTF-8 encoding of one Unicode scalar value. */
  function Utf8Char(c: char): (bs: seq<Byte>)
    ensures 1 <= |bs| <= 4
  {
    var n := c as int;
    if n < 0x80 then [n]
    else if n < 0x800 then [0xC0 + n / 64, 0x80 + n % 64]
    else if n < 0x10000 then [0xE0 + n / 4096, 0x80 + (n / 64) % 64, 0x80 + n % 64]
    else [0xF0 + n / 262144, 0x80 + (n / 4096) % 64, 0x80 + (n / 64) % 64, 0x80 + n % 64]
  }

  function Utf8Encode(s: string): (bs: seq<Byte>)
    ensures |bs| >= |s|
  {
    if s == [] then [] else Utf8Char(s[0]) + Utf8Encode(s[1..])
  }

  /** How many bytes a sequence starting with lead byte `b` takes, or 0 when `b` cannot lead. */
  function SequenceLength(b: Byte): nat {
    if b < 0x80 then 1
    else if 0xC0 <= b < 0xE0 then 2
    else if 0xE0 <= b < 0xF0 then 3
    else if 0xF0 <= b < 0xF8 then 4
    else 0
  }

  predicate IsScalar(n: int) {
    0 <= n < 0xD800 || 0xE000 <= n < 0x110000
  }

  /** The scalar value carried by the `len`-byte sequence at the head of `bs`. */
  function Utf8Value(bs: seq<Byte>, len: nat): int
    requires 1 <= len <= 4 && |bs| >= len
  {
    var b0: int, b1: int := bs[0], if len > 1 then bs[1] else 0;
    var b2: int, b3: int := if len > 2 then bs[2] else 0, if len > 3 then bs[3] else 0;
    if len == 1 then b0
    else if len == 2 then (b0 - 0xC0) * 64 + (b1 - 0x80)
    else if len == 3 then ((b0 - 0xE0) * 64 + (b1 - 0x80)) * 64 + (b2 - 0x80)
    else (((b0 - 0xF0) * 64 + (b1 - 0x80)) * 64 + (b2 - 0x80)) * 64 + (b3 - 0x80)
  }

  /** Decodes the first scalar value of `bs` and says how many bytes it took. */
  function Utf8DecodeFirst(bs: seq<Byte>): (r: Option<(char, nat)>)
    requires |bs| > 0
    ensures r.Some? ==> 1 <= r.value.1 <= |bs|
  {
    var len := SequenceLength(bs[0]);
    if len == 0 || |bs| < len then None
    else if exists k :: 1 <= k < len && !(0x80 <= bs[k] < 0xC0) then None
    else
      var n := Utf8Value(bs, len);
      if IsScalar(n) then Some((n as char, len)) else None
  }

  function Utf8Decode(bs: seq<Byte>): Option<string>
    decreases |bs|
  {
    if bs == [] then Some([])
    else match Utf8DecodeFirst(bs)
      case None => None
      case Some((c, len)) =>
        match Utf8Decode(bs[len..])
        case None => None
        case Some(rest) => Some([c] + rest)
  }

  lemma Utf8CharDecodes(c: char, tail: seq<Byte>)
    ensures Utf8DecodeFirst(Utf8Char(c) + tail) == Some((c, |Utf8Char(c)|))
  {
    var n := c as int;
    var bs := Utf8Char(c) + tail;
    if n < 0x80 {
    } else if n < 0x800 {
      assert Utf8Value(bs, 2) == n;
    } else if n < 0x10000 {
      assert bs[0] - 0xE0 == n / 4096;
      assert (n / 4096) * 64 + (n / 64) % 64 == n / 64;
      assert (n / 64) * 64 + n % 64 == n;
    } else {
      assert bs[0] - 0xF0 == n / 262144;
      assert (n / 262144) * 64 + (n / 4096) % 64 == n / 4096;
      assert (n / 4096) * 64 + (n / 64) % 64 == n / 64;
      assert (n / 64) * 64 + n % 64 == n;
    }
  }

  /** UTF-8 decoding undoes the encoding. */
  lemma {:induction false} Utf8RoundTrip(s: string)
    ensures Utf8Decode(Utf8Encode(s)) == Some(s)
  {
    if s != [] {
      var bs := Utf8Encode(s);
      assert bs == Utf8Char(s[0]) + Utf8Encode(s[1..]);
      Utf8CharDecodes(s[0], Utf8Encode(s[1..]));
      assert bs[|Utf8Char(s[0])|..] == Utf8Encode(s[1..]);
      Utf8RoundTrip(s[1..]);
      assert [s[0]] + s[1..] == s;
    }
  }

  /** A string of code points below 0x80 encodes to those code points, one byte each. */
  lemma {:induction false} Utf8Ascii(s: string)
    requires forall k :: 0 <= k < |s| ==> s[k] as int < 0x80
    ensures |Utf8Encode(s)| == |s|
    ensures forall k :: 0 <= k < |s| ==> Utf8Encode(s)[k] == s[k] as int
  {
    if s != [] {
      Utf8Ascii(s[1..]);
    }
  }

  function HexDigit(d: nat): (c: char)
    requires d < 16
  {
    "0123456789abcdef"[d]
  }

  /** The value of a lower-case hex digit. */
  function HexValue(c: char): (r: Option<nat>)
    ensures r.Some? ==> r.value < 16 && HexDigit(r.value) == c
  {
    if '0' <= c <= '9' then Some(c as int - '0' as int)
    else if 'a' <= c <= 'f' then Some(c as int - 'a' as int + 10)
    else None
  }

  function BytesToHex(bs: seq<Byte>): (h: string)
    ensures |h| == 2 * |bs|
  {
    if bs == [] then [] else [HexDigit(bs[0] / 16), HexDigit(bs[0] % 16)] + BytesToHex(bs[1..])
  }

  function HexToBytes(h: string): Option<seq<Byte>>
    decreases |h|
  {
    if h == [] then Some([])
    else if |h| == 1 then None
    else match (HexValue(h[0]), HexValue(h[1]), HexToBytes(h[2..]))
      case (Some(hi), Some(lo), Some(rest)) => Some([hi * 16 + lo] + rest)
      case _ => None
  }

  lemma HexDigitValue(d: nat)
    requires d < 16
    ensures HexValue(HexDigit(d)) == Some(d)
  {
  }

  lemma {:induction false} HexRoundTrip(bs: seq<Byte>)
    ensures HexToBytes(BytesToHex(bs)) == Some(bs)
  {
    if bs != [] {
      var h := BytesToHex(bs);
      HexDigitValue(bs[0] / 16);
      HexDigitValue(bs[0] % 16);
      assert h[0] == HexDigit(bs[0] / 16) && h[1] == HexDigit(bs[0] % 16);
      assert h[2..] == BytesToHex(bs[1..]);
      HexRoundTrip(bs[1..]);
      assert (bs[0] / 16) * 16 + bs[0] % 16 == bs[0];
      assert [bs[0]] + bs[1..] == bs;
    }
  }

  /** The wire form of a string argument: "0x" followed by the hex of its UTF-8 bytes. */
  function StringToHex(s: string): (h: string)
    ensures |h| >= 2 + 2 * |s|
    ensures h[..2] == "0x"
  {
    "0x" + BytesToHex(Utf8Encode(s))
  }

  /** The inverse of StringToHex, for the round-trip property. */
  function HexToString(h: string): Option<string> {
    if |h| < 2 || h[..2] != "0x" then None
    else match HexToBytes(h[2..])
      case None => None
      case Some(bs) => Utf8Decode(bs)
  }

  /** Hex-encoding a string loses nothing: decoding the wire form gives the string back. */
  lemma StringHexRoundTrip(s: string)
    ensures HexToString(StringToHex(s)) == Some(s)
  {
    var h := StringToHex(s);
    assert h[2..] == BytesToHex(Utf8Encode(s));
    HexRoundTrip(Utf8Encode(s));
    Utf8RoundTrip(s);
  }

  /** The example of the codec's tests: "james" goes on the wire as "0x6a616d6573". */
  lemma StringToHexJames()
    ensures StringToHex("james") == "0x6a616d6573"
  {
    Utf8Ascii("james");
    var bs := Utf8Encode("james");
    assert bs == [0x6a, 0x61, 0x6d, 0x65, 0x73];
    assert BytesToHex(bs) == "6a616d6573";
  }
}
