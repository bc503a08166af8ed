/**
 * The hand-written byte codec of the identity pallet's `Data` type.
 *
 * One leading byte selects the variant: 0 is `None`, 1..=33 is `Raw` whose
 * payload length is the tag minus one, 34..=37 are the four 32-byte hash
 * variants, and every other tag is rejected. `Raw` payloads longer than
 * 32 bytes are truncated to their first 32 bytes when encoding.
 */
module DataCodec {
  import opened Wrappers

  type byte = b: int | 0 <= b < 0x100

  /** A fixed 32-byte array (`[u8; 32]`). */
  type Hash32 = s: seq<byte> | |s| == 32 witness seq(32, i => 0)

  /** Either a data blob of at most 32 bytes, or one of four hashes of it. */
  datatype Data =
    | None
    | Raw(bytes: seq<byte>)
    | BlakeTwo256(hash: Hash32)
    | Sha256(hash: Hash32)
    | Keccak256(hash: Hash32)
    | ShaThree256(hash: Hash32)

  /** Failures of `Decode`: the input ran out, or the tag byte is not a variant. */
  datatype CodecError = EndOfInput | InvalidLeadingByte

  /** The values the codec reproduces exactly: a `Raw` blob of at most 32 bytes or any other variant. */
  predicate WellFormed(d: Data) {
    d.Raw? ==> |d.bytes| <= 32
  }

  /** Number of `Raw` payload bytes actually written: `min(|x|, 32)`. */
  function RawLength(x: seq<byte>): (l: nat)
    ensures l <= 32 && l <= |x|
    ensures l == |x| || l == 32
  {
    if |x| < 32 then |x| else 32
  }

  /** The value a round trip through the codec produces: `Raw` payloads cut to 32 bytes. */
  function Truncated(d: Data): (t: Data)
    ensures WellFormed(t)
    ensures WellFormed(d) ==> t == d
  {
    if d.Raw? then Raw(d.bytes[..RawLength(d.bytes)]) else d
  }

  /** The byte image of `d`: a tag byte, then at most 32 payload bytes. */
  function Encode(d: Data): (r: seq<byte>)
    ensures 1 <= |r| <= 33 && r[0] <= 37
    ensures r[0] == 0 <==> d.None?
  {
    match d
    case None => [0]
    case Raw(x) =>
      var l := RawLength(x);
      [l + 1] + x[..l]
    case BlakeTwo256(h) => [34] + h
    case Sha256(h) => [35] + h
    case Keccak256(h) => [36] + h
    case ShaThree256(h) => [37] + h
  }

  /** The hash variant that a tag in 34..=37 selects. */
  function HashData(tag: byte, h: Hash32): Data
    requires 34 <= tag <= 37
  {
    if tag == 34 then BlakeTwo256(h)
    else if tag == 35 then Sha256(h)
    else if tag == 36 then Keccak256(h)
    else ShaThree256(h)
  }

  /**
   * Reads one `Data` from the front of `input` and returns it with the
   * unread rest of the input.
   */
  function Decode(input: seq<byte>): (r: Result<(Data, seq<byte>), CodecError>)
    ensures r.Ok? ==> |r.value.1| < |input|
  {
    if |input| == 0 then Err(EndOfInput)
    else
      var b, rest := input[0], input[1..];
      if b == 0 then Ok((Data.None, rest))
      else if b <= 33 then
        if |rest| < b - 1 then Err(EndOfInput)
        else Ok((Raw(rest[..b - 1]), rest[b - 1..]))
      else if b <= 37 then
        if |rest| < 32 then Err(EndOfInput)
        else
          Ok((HashData(b, rest[..32]), rest[32..]))
      else Err(InvalidLeadingByte)
  }

  /**
   * Shape of an encoding: one byte for `None`, `min(|x|, 32) + 1` bytes led
   * by that same count for `Raw(x)`, 33 bytes for a hash; the tag is 0 only
   * for `None` and never exceeds 37.
   */
  lemma EncodeLayout(d: Data)
    ensures 1 <= |Encode(d)| <= 33 && Encode(d)[0] <= 37
    ensures Encode(d)[0] == 0 <==> d.None?
    ensures d.Raw? ==> |Encode(d)| == RawLength(d.bytes) + 1 == Encode(d)[0]
    ensures d.Raw? ==> Encode(d)[1..] == d.bytes[..RawLength(d.bytes)]
    ensures !d.None? && !d.Raw? ==> |Encode(d)| == 33 && Encode(d)[1..] == d.hash
  {
  }

  /** A `Raw` blob longer than 32 bytes encodes like its first 32 bytes. */
  lemma EncodeTruncates(x: seq<byte>)
    requires |x| > 32
    ensures Encode(Raw(x)) == Encode(Raw(x[..32]))
  {
  }

  /** Decoding a `Raw` encoding followed by `rest`. */
  lemma DecodeRaw(x: seq<byte>, rest: seq<byte>)
    ensures Decode(Encode(Raw(x)) + rest) == Ok((Raw(x[..RawLength(x)]), rest))
  {
    var l := RawLength(x);
    var s := Encode(Raw(x)) + rest;
    assert s[0] == l + 1;
    assert s[1..] == x[..l] + rest;
    assert s[1..][..l] == x[..l];
    assert s[1..][l..] == rest;
  }

  /** Decoding a hash encoding with the given tag followed by `rest`. */
  lemma DecodeHash(d: Data, rest: seq<byte>)
    requires !d.None? && !d.Raw?
    ensures Decode(Encode(d) + rest) == Ok((d, rest))
  {
    var s := Encode(d) + rest;
    assert HashData(s[0], d.hash) == d;
    assert s[1..] == d.hash + rest;
    assert s[1..][..32] == d.hash;
    assert s[1..][32..] == rest;
  }

  /** Decoding an encoding, followed by anything, gives back the value (truncated) and the rest. */
  lemma DecodeEncode(d: Data, rest: seq<byte>)
    ensures Decode(Encode(d) + rest) == Ok((Truncated(d), rest))
  {
    if d.None? {
      assert (Encode(d) + rest)[1..] == rest;
    } else if d.Raw? {
      DecodeRaw(d.bytes, rest);
    } else {
      DecodeHash(d, rest);
    }
  }

  /** Decoding a whole encoding gives back the value (truncated) and nothing left over. */
  lemma DecodeWhole(d: Data)
    ensures Decode(Encode(d)) == Ok((Truncated(d), []))
  {
    DecodeEncode(d, []);
    assert Encode(d) + [] == Encode(d);
  }

  /** The round trip of the codec on the values it reproduces exactly. */
  lemma RoundTrip(d: Data)
    requires WellFormed(d)
    ensures Decode(Encode(d)) == Ok((d, []))
  {
    DecodeWhole(d);
  }

  /** Whatever `Decode` accepts is well formed and is exactly the encoding of what it returns. */
  lemma {:induction false} EncodeDecode(input: seq<byte>)
    requires Decode(input).Ok?
    ensures WellFormed(Decode(input).value.0)
    ensures Encode(Decode(input).value.0) + Decode(input).value.1 == input
  {
    var d, rest := Decode(input).value.0, Decode(input).value.1;
    var b := input[0];
    if 1 <= b <= 33 {
      assert RawLength(d.bytes) == b - 1;
      assert input == [b] + input[1..][..b - 1] + input[1..][b - 1..];
    } else if 34 <= b <= 37 {
      assert Encode(HashData(b, input[1..][..32])) == [b] + input[1..][..32];
      assert input == [b] + input[1..][..32] + input[1..][32..];
    } else {
      assert input == [b] + input[1..];
    }
  }

  /** `Decode` reports an invalid leading byte exactly when the first byte is above 37. */
  lemma DecodeRejects(input: seq<byte>)
    ensures Decode(input) == Err(InvalidLeadingByte) <==> |input| > 0 && input[0] > 37
  {
  }
}
