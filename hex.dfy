/**
 * The hex codec of miner.js (`hexToBytes`, `bytesToHex`): pool job fields arrive as
 * hex strings and are turned into Uint8Array buffers, and nonces and digests go back
 * to the pool as lower-case hex.
 */
module Hex {

  /** One element of a JavaScript Uint8Array. */
  type Byte = b: int | 0 <= b < 256

  /** Characters `parseInt(_, 16)` reads as a hex digit. */
  predicate IsHexChar(c: char) {
    '0' <= c <= '9' || 'a' <= c <= 'f' || 'A' <= c <= 'F'
  }

  /** Characters `Number.prototype.toString(16)` produces for a value below 16. */
  predicate IsLowerHexChar(c: char) {
    '0' <= c <= '9' || 'a' <= c <= 'f'
  }

  /** The value of one hex digit, either case. */
  function HexValue(c: char): (v: int)
    requires IsHexChar(c)
    ensures 0 <= v < 16
  {
    if c <= '9' then c as int - '0' as int
    else if c <= 'F' then c as int - 'A' as int + 10
    else c as int - 'a' as int + 10
  }

  /** `v.toString(16)` for a nibble: one lower-case digit. */
  function HexDigit(v: int): (c: char)
    requires 0 <= v < 16
    ensures IsLowerHexChar(c) && HexValue(c) == v
  {
    if v < 10 then ('0' as int + v) as char else ('a' as int + v - 10) as char
  }

  /** A string `hexToBytes` decodes without loss: even length, hex digits only. */
  predicate IsHex(s: string) {
    |s| % 2 == 0 && forall i :: 0 <= i < |s| ==> IsHexChar(s[i])
  }

  predicate IsLowerHex(s: string) {
    |s| % 2 == 0 && forall i :: 0 <= i < |s| ==> IsLowerHexChar(s[i])
  }

  /** `parseInt(hi + lo, 16)`: most significant nibble first. */
  function DecodePair(hi: char, lo: char): Byte
    requires IsHexChar(hi) && IsHexChar(lo)
  {
    16 * HexValue(hi) + HexValue(lo)
  }

  /** The two characters `bytesToHex` appends for one byte: `b >>> 4`, then `b & 15`. */
  function EncodeByte(b: Byte): string {
    [HexDigit(b / 16), HexDigit(b % 16)]
  }

  /** The string `bytesToHex` has built after consuming `bytes`, left to right. */
  function HexEncode(bytes: seq<Byte>): string
  {
    if bytes == [] then ""
    else HexEncode(bytes[..|bytes| - 1]) + EncodeByte(bytes[|bytes| - 1])
  }

  /** The buffer `hexToBytes` has filled after consuming `hex`, two characters per byte. */
  function HexDecode(hex: string): seq<Byte>
    requires IsHex(hex)
  {
    if hex == [] then []
    else
      var init := hex[..|hex| - 2];
      assert IsHex(init) by {
        forall i | 0 <= i < |init| ensures IsHexChar(init[i]) { assert init[i] == hex[i]; }
      }
      HexDecode(init) + [DecodePair(hex[|hex| - 2], hex[|hex| - 1])]
  }

  /** `bytesToHex` yields two lower-case digits per byte: byte i is characters 2i (high nibble) and 2i + 1 (low nibble). */
  lemma {:induction false} HexEncodeShape(bytes: seq<Byte>)
    ensures |HexEncode(bytes)| == 2 * |bytes|
    ensures IsLowerHex(HexEncode(bytes))
    ensures forall i :: 0 <= i < |bytes| ==>
      HexEncode(bytes)[2 * i] == HexDigit(bytes[i] / 16) && HexEncode(bytes)[2 * i + 1] == HexDigit(bytes[i] % 16)
    decreases |bytes|
  {
    if bytes != [] {
      var init := bytes[..|bytes| - 1];
      HexEncodeShape(init);
      forall i | 0 <= i < |init| ensures init[i] == bytes[i] { }
    }
  }

  /** `hexToBytes` yields |hex| / 2 bytes, byte i being the value of characters 2i and 2i + 1. */
  lemma {:induction false} HexDecodeShape(hex: string)
    requires IsHex(hex)
    ensures |HexDecode(hex)| == |hex| / 2
    ensures forall i :: 0 <= i < |hex| / 2 ==> HexDecode(hex)[i] == DecodePair(hex[2 * i], hex[2 * i + 1])
    decreases |hex|
  {
    if hex != [] {
      var init := hex[..|hex| - 2];
      assert IsHex(init) by {
        forall i | 0 <= i < |init| ensures IsHexChar(init[i]) { assert init[i] == hex[i]; }
      }
      HexDecodeShape(init);
    }
  }

  lemma DecodeEncodeByte(b: Byte)
    ensures DecodePair(HexDigit(b / 16), HexDigit(b % 16)) == b
  {
  }

  /** Decoding what `bytesToHex` produced gives the bytes back. */
  lemma {:induction false} DecodeEncode(bytes: seq<Byte>)
    ensures IsHex(HexEncode(bytes))
    ensures HexDecode(HexEncode(bytes)) == bytes
    decreases |bytes|
  {
    HexEncodeShape(bytes);
    if bytes != [] {
      var init := bytes[..|bytes| - 1];
      var b := bytes[|bytes| - 1];
      var hex := HexEncode(bytes);
      assert hex == HexEncode(init) + EncodeByte(b);
      HexEncodeShape(init);
      assert hex[..|hex| - 2] == HexEncode(init);
      DecodeEncode(init);
      DecodeEncodeByte(b);
      assert bytes == init + [b];
    }
  }

  lemma LowerHexIsHex(hex: string)
    requires IsLowerHex(hex)
    ensures IsHex(hex)
  {
    forall i | 0 <= i < |hex| ensures IsHexChar(hex[i]) { assert IsLowerHexChar(hex[i]); }
  }

  lemma LowerHexInit(hex: string)
    requires IsLowerHex(hex) && |hex| >= 2
    ensures IsLowerHex(hex[..|hex| - 2])
  {
    var init := hex[..|hex| - 2];
    forall i | 0 <= i < |init| ensures IsLowerHexChar(init[i]) { assert init[i] == hex[i]; }
  }

  lemma EncodeDecodePair(hi: char, lo: char)
    requires IsLowerHexChar(hi) && IsLowerHexChar(lo)
    ensures EncodeByte(DecodePair(hi, lo)) == [hi, lo]
  {
  }

  /** Encoding what `hexToBytes` decoded from a lower-case hex string gives the string back. */
  lemma {:induction false} EncodeDecode(hex: string)
    requires IsLowerHex(hex)
    ensures IsHex(hex) && HexEncode(HexDecode(hex)) == hex
    decreases |hex|
  {
    LowerHexIsHex(hex);
    if hex != [] {
      var n := |hex|;
      var init := hex[..n - 2];
      LowerHexInit(hex);
      EncodeDecode(init);
      var b := DecodePair(hex[n - 2], hex[n - 1]);
      var bytes := HexDecode(hex);
      assert bytes == HexDecode(init) + [b];
      assert bytes[..|bytes| - 1] == HexDecode(init);
      assert IsLowerHexChar(hex[n - 2]) && IsLowerHexChar(hex[n - 1]);
      EncodeDecodePair(hex[n - 2], hex[n - 1]);
      assert HexEncode(bytes) == init + [hex[n - 2], hex[n - 1]];
      assert hex == init + [hex[n - 2], hex[n - 1]];
    }
  }

  /** Decoding, encoding and decoding again changes nothing. */
  lemma DecodeIdempotent(hex: string)
    requires IsHex(hex)
    ensures IsHex(HexEncode(HexDecode(hex)))
    ensures HexDecode(HexEncode(HexDecode(hex))) == HexDecode(hex)
  {
    DecodeEncode(HexDecode(hex));
  }

  /** `hexToBytes`: a fresh buffer of |hex| / 2 bytes filled two characters at a time. */
  method HexToBytes(hex: string) returns (bytes: array<Byte>)
    requires IsHex(hex)
    ensures fresh(bytes)
    ensures bytes[..] == HexDecode(hex)
  {
    bytes := new Byte[|hex| / 2];
    var i, c := 0, 0;
    while c < |hex|
      invariant c == 2 * i && c <= |hex| && i <= bytes.Length
      invariant IsHex(hex[..c])
      invariant bytes[..i] == HexDecode(hex[..c])
    {
      bytes[i] := DecodePair(hex[c], hex[c + 1]);
      assert hex[..c + 2][..c] == hex[..c];
      c, i := c + 2, i + 1;
    }
    assert hex[..c] == hex;
    assert bytes[..i] == bytes[..];
  }

  /** `bytesToHex`: two lower-case digits per byte, high nibble first. */
  method BytesToHex(bytes: seq<Byte>) returns (hex: string)
    ensures hex == HexEncode(bytes)
    ensures |hex| == 2 * |bytes| && IsLowerHex(hex)
    ensures forall i :: 0 <= i < |bytes| ==> hex[2 * i] == HexDigit(bytes[i] / 16) && hex[2 * i + 1] == HexDigit(bytes[i] % 16)
  {
    hex := "";
    var i := 0;
    while i < |bytes|
      invariant 0 <= i <= |bytes|
      invariant hex == HexEncode(bytes[..i])
    {
      assert bytes[..i + 1][..i] == bytes[..i];
      hex := hex + [HexDigit(bytes[i] / 16)];
      hex := hex + [HexDigit(bytes[i] % 16)];
      i := i + 1;
    }
    assert bytes[..i] == bytes;
    HexEncodeShape(bytes);
  }
}
