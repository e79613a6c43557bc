/** Python's `bytes.hex()`: two lower-case hexadecimal digits per byte, high nibble
    first. This is the form the Tor control protocol's AUTHENTICATE command expects
    for a cookie (section 3.5 of the Tor control-spec), and `HexDecode` is the
    daemon's side of it. */
module Hex {
  import opened Wrappers
  import opened Text

  predicate IsHexDigit(c: char) {
    '0' <= c <= '9' || 'a' <= c <= 'f'
  }

  /** The lower-case digit for a nibble. */
  function DigitChar(n: nat): (c: char)
    requires n < 16
    ensures IsHexDigit(c)
  {
    if n < 10 then ('0' as int + n) as char else ('a' as int + n - 10) as char
  }

  /** The inverse of DigitChar on the sixteen lower-case digits. */
  function DigitValue(c: char): (r: Option<nat>)
    ensures r.Some? <==> IsHexDigit(c)
    ensures r.Some? ==> r.value < 16 && DigitChar(r.value) == c
  {
    if '0' <= c <= '9' then Some(c as int - '0' as int)
    else if 'a' <= c <= 'f' then Some(c as int - 'a' as int + 10)
    else None
  }

  lemma DigitRoundTrip(n: nat)
    requires n < 16
    ensures DigitValue(DigitChar(n)) == Some(n)
  {
  }

  function HexEncode(b: seq<byte>): (s: string)
    ensures |s| == 2 * |b|
    ensures forall k :: 0 <= k < |s| ==> IsHexDigit(s[k])
  {
    if b == [] then []
    else [DigitChar(b[0] / 16), DigitChar(b[0] % 16)] + HexEncode(b[1..])
  }

  /** Reads two digits per byte; fails on an odd length or on any character that
      is not a lower-case hexadecimal digit. */
  function HexDecode(s: string): (r: Option<seq<byte>>)
    ensures r.Some? ==> 2 * |r.value| == |s|
    decreases |s|
  {
    if s == [] then Some([])
    else if |s| == 1 then None
    else match (DigitValue(s[0]), DigitValue(s[1]), HexDecode(s[2..]))
      case (Some(hi), Some(lo), Some(rest)) => Some([hi * 16 + lo] + rest)
      case _ => None
  }

  /** A byte is its high nibble times sixteen plus its low nibble. */
  lemma NibbleSplit(x: byte)
    ensures x / 16 < 16 && x == x / 16 * 16 + x % 16
  {
  }

  /** Decoding an encoding gives back exactly the bytes encoded. */
  lemma {:induction false} DecodeEncode(b: seq<byte>)
    ensures HexDecode(HexEncode(b)) == Some(b)
  {
    if b != [] {
      var hi, lo := b[0] / 16, b[0] % 16;
      NibbleSplit(b[0]);
      DigitRoundTrip(hi);
      DigitRoundTrip(lo);
      var s := HexEncode(b);
      assert s == [DigitChar(hi), DigitChar(lo)] + HexEncode(b[1..]);
      assert s[0] == DigitChar(hi) && s[1] == DigitChar(lo) && s[2..] == HexEncode(b[1..]);
      DecodeEncode(b[1..]);
      assert HexDecode(s) == Some([hi * 16 + lo] + b[1..]);
      assert [hi * 16 + lo] + b[1..] == b;
    }
  }

  /** Whatever decodes successfully is the encoding of what it decodes to: there is
      no second spelling of the same bytes. */
  lemma {:induction false} DecodedIsEncoding(s: string)
    requires HexDecode(s).Some?
    ensures HexEncode(HexDecode(s).value) == s
    decreases |s|
  {
    if s != [] {
      var b := HexDecode(s).value;
      var hi, lo := DigitValue(s[0]).value, DigitValue(s[1]).value;
      assert DigitChar(hi) == s[0] && DigitChar(lo) == s[1];
      DecodedIsEncoding(s[2..]);
      assert b[0] == hi * 16 + lo;
      assert b[0] / 16 == hi && b[0] % 16 == lo;
      assert b[1..] == HexDecode(s[2..]).value;
      assert HexEncode(b) == [DigitChar(hi), DigitChar(lo)] + HexEncode(b[1..]);
      assert HexEncode(b) == [s[0], s[1]] + s[2..];
    }
  }

  /** Both directions: `s` decodes to `b` exactly when `s` is the encoding of `b`. */
  lemma HexDecodeIff(s: string, b: seq<byte>)
    ensures HexDecode(s) == Some(b) <==> s == HexEncode(b)
  {
    if s == HexEncode(b) {
      DecodeEncode(b);
    }
    if HexDecode(s) == Some(b) {
      DecodedIsEncoding(s);
    }
  }
}
