/**
 * The candidate input of one search iteration in miner.js `work`: the job blob copied
 * into an 84-byte buffer, then a 32-bit nonce written big-endian at bytes 39..42
 * with JavaScript's signed 32-bit bit operators.
 */
module CandidateBuffer {
  import opened Hex

  const InputSize := 84
  const NonceOffset := 39
  const NonceBound := 0x1_0000_0000

  /** ECMAScript ToInt32 of a value already in [0, 2^32): the signed reading of its 32 bits. */
  function ToInt32(x: nat): int
    requires x < NonceBound
  {
    if x < 0x8000_0000 then x else x - NonceBound
  }

  /** ECMAScript ToUint8, applied when a number is stored into a Uint8Array. */
  function ToUint8(x: int): Byte {
    x % 256
  }

  predicate IsByteScale(scale: nat) {
    scale == 1 || scale == 0x100 || scale == 0x1_0000 || scale == 0x100_0000
  }

  /**
   * `(nonce & (0xFF * scale)) >> log2(scale)`: `&` keeps one byte of the nonce in place and
   * yields a signed 32-bit result, `>>` shifts arithmetically (rounding toward minus
   * infinity), so the top byte of a nonce of 2^31 or more comes out negative.
   */
  function MaskShift(nonce: nat, scale: nat): int
    requires nonce < NonceBound && IsByteScale(scale)
  {
    var kept := nonce / scale % 256 * scale;
    ToInt32(kept) / scale
  }

  /** The four bytes of a 32-bit nonce, most significant first. */
  function NonceBytes(nonce: nat): (b: seq<Byte>)
    ensures |b| == 4
  {
    [nonce / 0x100_0000 % 256, nonce / 0x1_0000 % 256, nonce / 0x100 % 256, nonce % 256]
  }

  /** The unsigned integer a buffer holds with index 0 most significant. */
  function BigEndian(s: seq<Byte>): nat {
    if s == [] then 0 else BigEndian(s[..|s| - 1]) * 256 + s[|s| - 1]
  }

  /** Storing the signed field into the Uint8Array gives exactly the nonce byte at that scale. */
  lemma StoredFieldIsByte(nonce: nat, scale: nat)
    requires nonce < NonceBound && IsByteScale(scale)
    ensures ToUint8(MaskShift(nonce, scale)) == nonce / scale % 256
  {
    var b := nonce / scale % 256;
    var kept := b * scale;
    if scale == 0x100_0000 {
      if b >= 128 {
        assert ToInt32(kept) == (b - 256) * 0x100_0000;
        assert ToInt32(kept) / scale == b - 256;
      } else {
        assert ToInt32(kept) / scale == b;
      }
    } else if scale == 0x1_0000 {
      assert ToInt32(kept) / scale == b;
    } else if scale == 0x100 {
      assert ToInt32(kept) / scale == b;
    }
  }

  /** The four nonce bytes decode back to the nonce. */
  lemma NonceRoundTrip(nonce: nat)
    requires nonce < NonceBound
    ensures BigEndian(NonceBytes(nonce)) == nonce
  {
    var b := NonceBytes(nonce);
    assert b[..3][..2][..1][..0] == [];
    assert BigEndian(b[..1]) == nonce / 0x100_0000;
    assert BigEndian(b[..2]) == nonce / 0x1_0000;
    var q := nonce / 0x100;
    assert q / 256 == nonce / 0x1_0000;
    assert q == q / 256 * 256 + q % 256;
    assert b[..3][..2] == b[..2] && b[2] == q % 256;
    assert BigEndian(b[..3]) == BigEndian(b[..2]) * 256 + b[2];
    assert BigEndian(b[..3]) == nonce / 0x100;
    assert b[..4] == b;
  }

  /** `nonceHex` is eight lower-case hex digits that decode to the nonce's bytes, most significant first. */
  lemma NonceHexShape(nonce: nat)
    requires nonce < NonceBound
    ensures |HexEncode(NonceBytes(nonce))| == 8 && IsLowerHex(HexEncode(NonceBytes(nonce)))
    ensures IsHex(HexEncode(NonceBytes(nonce)))
    ensures BigEndian(HexDecode(HexEncode(NonceBytes(nonce)))) == nonce
  {
    HexEncodeShape(NonceBytes(nonce));
    DecodeEncode(NonceBytes(nonce));
    NonceRoundTrip(nonce);
  }

  /**
   * The candidate after one iteration's writes: the blob copied over the start of the
   * buffer (the rest keeps what the buffer held), then the nonce over bytes 39..42.
   */
  function Candidate(buffer: seq<Byte>, blob: seq<Byte>, nonce: nat): seq<Byte>
    requires |buffer| == InputSize && |blob| <= InputSize && nonce < NonceBound
  {
    var filled := blob + buffer[|blob|..];
    filled[..NonceOffset] + NonceBytes(nonce) + filled[NonceOffset + 4..]
  }

  /**
   * Bytes 39..42 of the candidate hold the nonce big-endian and decode back to it; every
   * other byte is the blob's byte where the blob reaches and the buffer's beyond it.
   */
  lemma CandidateShape(buffer: seq<Byte>, blob: seq<Byte>, nonce: nat)
    requires |buffer| == InputSize && |blob| <= InputSize && nonce < NonceBound
    ensures |Candidate(buffer, blob, nonce)| == InputSize
    ensures Candidate(buffer, blob, nonce)[NonceOffset..NonceOffset + 4] == NonceBytes(nonce)
    ensures BigEndian(Candidate(buffer, blob, nonce)[NonceOffset..NonceOffset + 4]) == nonce
    ensures forall i :: 0 <= i < InputSize && !(NonceOffset <= i < NonceOffset + 4) ==>
      Candidate(buffer, blob, nonce)[i] == if i < |blob| then blob[i] else buffer[i]
  {
    var c := Candidate(buffer, blob, nonce);
    assert c[NonceOffset..NonceOffset + 4] == NonceBytes(nonce);
    NonceRoundTrip(nonce);
  }

  /** `input.set(blob)`: the blob overwrites the start of the input, the rest is untouched. */
  method CopyBlob(input: array<Byte>, blob: array<Byte>)
    requires blob.Length <= input.Length && blob != input
    modifies input
    ensures input[..] == blob[..] + old(input[..])[blob.Length..]
  {
    forall i | 0 <= i < blob.Length {
      input[i] := blob[i];
    }
  }

  /** The four byte stores of `work` at input[39..42]. */
  method WriteNonce(input: array<Byte>, nonce: nat)
    requires input.Length == InputSize && nonce < NonceBound
    modifies input
    ensures input[..] == old(input[..])[..NonceOffset] + NonceBytes(nonce) + old(input[..])[NonceOffset + 4..]
  {
    StoredFieldIsByte(nonce, 0x100_0000);
    StoredFieldIsByte(nonce, 0x1_0000);
    StoredFieldIsByte(nonce, 0x100);
    StoredFieldIsByte(nonce, 1);
    input[39] := ToUint8(MaskShift(nonce, 0x100_0000));
    input[40] := ToUint8(MaskShift(nonce, 0x1_0000));
    input[41] := ToUint8(MaskShift(nonce, 0x100));
    input[42] := ToUint8(MaskShift(nonce, 1));
  }
}
