/** Key text: a key is written as standard base64 with padding (section 4 of RFC 4648).
    The base64 codec itself is an abstract encode/decode pair; only the length check that
    the package adds on top of it is modelled. */
module Keys {
  import opened Common
  import opened Codec

  /** What decoding base64 text yields: the bytes, or the prefix decoded before the input
      turned out to be corrupt. */
  datatype Decoding = Decoded(bytes: seq<byte>) | Corrupt(prefix: seq<byte>)

  datatype Base64 = Base64(encode: seq<byte> -> string, decode: string -> Decoding)

  /** The one fact about base64 the model relies on: decoding an encoding is lossless. */
  ghost predicate Sound(codec: Base64)
  {
    forall b :: codec.decode(codec.encode(b)) == Decoded(b)
  }

  /** One codec satisfying Sound (each byte as the character with that code point, no
      padding): the hypothesis is consistent. */
  function OctetCodec(): (codec: Base64)
  {
    Base64((b: seq<byte>) => seq(|b|, i requires 0 <= i < |b| => (b[i] as int) as char),
           (s: string) => Decoded(seq(|s|, i requires 0 <= i < |s| => ((s[i] as int) % 0x100) as byte)))
  }

  lemma OctetCodecSound()
    ensures Sound(OctetCodec())
  {
    var codec := OctetCodec();
    forall b: seq<byte>
      ensures codec.decode(codec.encode(b)) == Decoded(b)
    {
      var s := codec.encode(b);
      assert |s| == |b| && forall i :: 0 <= i < |b| ==> s[i] as int == b[i] as int;
      assert codec.decode(s).bytes == b;
    }
  }

  /** What DecodeBase64Key returns: a key and, beside it, an error or none. */
  datatype KeyDecoding = KeyDecoding(key: Key, err: Option<Error>)

  /** `copy(key[:], k)` into a zeroed 32-byte key. */
  function CopyKey(k: seq<byte>): (key: Key)
    ensures forall i :: 0 <= i < KeySize ==> key[i] == if i < |k| then k[i] else 0
  {
    if |k| >= KeySize then k[..KeySize] else k + seq(KeySize - |k|, _ => 0)
  }

  /** Key.String: the key's bytes in standard base64. */
  function KeyString(codec: Base64, key: Key): (text: string)
    ensures Sound(codec) ==> codec.decode(text) == Decoded(key)
  {
    codec.encode(key)
  }

  /** Decodes key text: a decode failure is reported as such, and text that decodes to any
      length other than 32 bytes is rejected with InvalidKeyLength. Whatever was decoded is
      copied into the returned key either way. */
  function DecodeBase64Key(codec: Base64, s: string): (r: KeyDecoding)
    ensures r.err.None? <==> codec.decode(s).Decoded? && |codec.decode(s).bytes| == KeySize
    ensures r.err.None? ==> r.key == codec.decode(s).bytes
    ensures codec.decode(s).Corrupt? ==> r.err == Some(CorruptBase64)
    ensures codec.decode(s).Decoded? && |codec.decode(s).bytes| != KeySize ==> r.err == Some(InvalidKeyLength)
    ensures codec.decode(s).Decoded? ==> r.key == CopyKey(codec.decode(s).bytes)
    ensures codec.decode(s).Corrupt? ==> r.key == CopyKey(codec.decode(s).prefix)
  {
    match codec.decode(s)
    case Corrupt(k) => KeyDecoding(CopyKey(k), Some(CorruptBase64))
    case Decoded(k) =>
      KeyDecoding(CopyKey(k), if |k| != KeySize then Some(InvalidKeyLength) else None)
  }

  /** Key text round-trips: decoding a key's text gives the key back without error. */
  lemma KeyTextRoundTrip(codec: Base64, key: Key)
    requires Sound(codec)
    ensures DecodeBase64Key(codec, KeyString(codec, key)) == KeyDecoding(key, None)
  {
    assert codec.decode(codec.encode(key)) == Decoded(key);
  }
}
