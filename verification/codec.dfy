/** The chunk codec: constants, the abstract AEAD (AES-256 in GCM mode, FIPS 197 and
    NIST SP 800-38D), the framing `nonce || ciphertext || tag` of one chunk, and the
    concatenation of framed chunks that makes up an encrypted stream. */
module Codec {
  import opened Common

  const Blocks := 4094
  const AesBlockSize := 16
  /** Plaintext bytes per chunk. */
  const ChunkSize := AesBlockSize * Blocks
  const NonceSize := 12
  const TagSize := 16
  /** Bytes a framed chunk carries beyond its plaintext. */
  const Overhead := NonceSize + TagSize
  /** Bytes of a full framed chunk on the wire. */
  const SectorSize := NonceSize + ChunkSize + TagSize
  const KeySize := 32

  type Key = k: seq<byte> | |k| == KeySize witness seq(KeySize, _ => 0)

  type Nonce = n: seq<byte> | |n| == NonceSize witness seq(NonceSize, _ => 0)

  /** The AEAD primitive, seen only through its interface: `seal` returns what GCM's Seal
      appends after the nonce (ciphertext || tag), `open` authenticates and decrypts it. */
  datatype Aead = Aead(
    seal: (Key, Nonce, seq<byte>) -> seq<byte>,
    open: (Key, Nonce, seq<byte>) -> Option<seq<byte>>)

  /** The two facts about AES-GCM the model relies on: sealing adds exactly one tag, and
      opening what was sealed under the same key and nonce gives the plaintext back. */
  ghost predicate Sound(aead: Aead)
  {
    && (forall key, nonce, p :: |aead.seal(key, nonce, p)| == |p| + TagSize)
    && (forall key, nonce, p :: aead.open(key, nonce, aead.seal(key, nonce, p)) == Some(p))
  }

  /** One AEAD satisfying Sound (a tag of zeros, no secrecy): the hypothesis is consistent. */
  function PlainAead(): (aead: Aead)
  {
    Aead((key: Key, nonce: Nonce, p: seq<byte>) => p + seq(TagSize, _ => 0),
         (key: Key, nonce: Nonce, c: seq<byte>) =>
           if |c| >= TagSize then Some(c[..|c| - TagSize]) else None)
  }

  lemma PlainAeadSound()
    ensures Sound(PlainAead())
  {
  }

  /** Seals one chunk under a nonce the caller drew from the random source; the result is
      framed as nonce || ciphertext || tag. */
  function Encrypt(aead: Aead, key: Key, nonce: Nonce, plaintext: seq<byte>): (c: seq<byte>)
    ensures |c| >= NonceSize && c[..NonceSize] == nonce
  {
    nonce + aead.seal(key, nonce, plaintext)
  }

  /** Opens one framed chunk. Input shorter than the nonce is malformed; otherwise the
      nonce is split off and the AEAD decides. */
  function Decrypt(aead: Aead, key: Key, c: seq<byte>): (r: Result<seq<byte>, Error>)
    ensures |c| < NonceSize ==> r == Err(MalformedCiphertext)
    ensures r.Err? ==> r.error == MalformedCiphertext || r.error == AuthenticationFailed
    ensures r.Ok? <==> |c| >= NonceSize && aead.open(key, c[..NonceSize], c[NonceSize..]).Some?
    ensures r.Ok? ==> r.value == aead.open(key, c[..NonceSize], c[NonceSize..]).value
  {
    if |c| < NonceSize then Err(MalformedCiphertext)
    else
      match aead.open(key, c[..NonceSize], c[NonceSize..])
      case None => Err(AuthenticationFailed)
      case Some(p) => Ok(p)
  }

  lemma EncryptLength(aead: Aead, key: Key, nonce: Nonce, p: seq<byte>)
    requires Sound(aead)
    ensures |Encrypt(aead, key, nonce, p)| == |p| + Overhead
  {
  }

  lemma DecryptEncrypt(aead: Aead, key: Key, nonce: Nonce, p: seq<byte>)
    requires Sound(aead)
    ensures Decrypt(aead, key, Encrypt(aead, key, nonce, p)) == Ok(p)
  {
    var c := Encrypt(aead, key, nonce, p);
    assert c[..NonceSize] == nonce && c[NonceSize..] == aead.seal(key, nonce, p);
  }

  /** A chunk as the writer sealed it: the nonce it drew and the plaintext it held. */
  datatype Frame = Frame(nonce: Nonce, plain: seq<byte>)

  /** The plaintexts of a sequence of frames. */
  function Plains(fs: seq<Frame>): (ps: seq<seq<byte>>)
    ensures |ps| == |fs|
  {
    if fs == [] then [] else [fs[0].plain] + Plains(fs[1..])
  }

  lemma {:induction false} PlainsIndex(fs: seq<Frame>, i: int)
    requires 0 <= i < |fs|
    ensures Plains(fs)[i] == fs[i].plain
  {
    if i > 0 {
      PlainsIndex(fs[1..], i - 1);
    }
  }

  lemma {:induction false} PlainsAppend(fs: seq<Frame>, f: Frame)
    ensures Plains(fs + [f]) == Plains(fs) + [f.plain]
  {
    if fs != [] {
      assert (fs + [f])[1..] == fs[1..] + [f];
      PlainsAppend(fs[1..], f);
    }
  }

  function Flatten(ps: seq<seq<byte>>): (flat: seq<byte>)
  {
    if ps == [] then [] else ps[0] + Flatten(ps[1..])
  }

  /** The wire form of a sequence of frames: their encryptions, back to back, with no
      header, length prefix or count. */
  function Stream(aead: Aead, key: Key, fs: seq<Frame>): (wire: seq<byte>)
  {
    if fs == [] then [] else Encrypt(aead, key, fs[0].nonce, fs[0].plain) + Stream(aead, key, fs[1..])
  }

  /** The framing the writer guarantees: no empty chunk, none longer than ChunkSize, and
      every chunk but the last exactly ChunkSize. */
  ghost predicate WellChunked(ps: seq<seq<byte>>)
    decreases |ps|
  {
    ps != [] ==>
      && 0 < |ps[0]| <= ChunkSize
      && (|ps| > 1 ==> |ps[0]| == ChunkSize)
      && WellChunked(ps[1..])
  }

  /** A chunk of at most ChunkSize bytes may follow a full one. */
  lemma {:induction false} WellChunkedAppend(ps: seq<seq<byte>>, q: seq<byte>)
    requires WellChunked(ps) && 0 < |q| <= ChunkSize
    requires ps == [] || |ps[|ps| - 1]| == ChunkSize
    ensures WellChunked(ps + [q])
  {
    if ps != [] {
      assert (ps + [q])[1..] == ps[1..] + [q];
      WellChunkedAppend(ps[1..], q);
    }
  }

  /** The unique well-chunked split of a plaintext. */
  function Chunked(s: seq<byte>): (ps: seq<seq<byte>>)
    ensures WellChunked(ps)
    ensures Flatten(ps) == s
    decreases |s|
  {
    if s == [] then []
    else if |s| <= ChunkSize then [s]
    else [s[..ChunkSize]] + Chunked(s[ChunkSize..])
  }

  /** Ceiling of n / ChunkSize: the number of chunks n plaintext bytes need. */
  function ChunkCount(n: nat): (count: nat)
  {
    (n + ChunkSize - 1) / ChunkSize
  }

  /** Size of the encrypted stream for n plaintext bytes: 28 bytes of overhead per chunk. */
  function CipherLength(n: nat): (len: nat)
  {
    n + Overhead * ChunkCount(n)
  }

  lemma {:induction false} FlattenAppend(ps: seq<seq<byte>>, p: seq<byte>)
    ensures Flatten(ps + [p]) == Flatten(ps) + p
  {
    if ps != [] {
      assert (ps + [p])[1..] == ps[1..] + [p];
      FlattenAppend(ps[1..], p);
    }
  }

  lemma {:induction false} StreamAppend(aead: Aead, key: Key, fs: seq<Frame>, f: Frame)
    ensures Stream(aead, key, fs + [f]) == Stream(aead, key, fs) + Encrypt(aead, key, f.nonce, f.plain)
  {
    if fs != [] {
      assert (fs + [f])[1..] == fs[1..] + [f];
      StreamAppend(aead, key, fs[1..], f);
    }
  }

  /** Appending a chunk after a full one keeps the frames well chunked and extends both the
      plaintext and the sealed stream by that chunk. */
  lemma FrameAppend(aead: Aead, key: Key, fs: seq<Frame>, f: Frame)
    requires WellChunked(Plains(fs)) && 0 < |f.plain| <= ChunkSize
    requires fs == [] || |fs[|fs| - 1].plain| == ChunkSize
    ensures Stream(aead, key, fs + [f]) == Stream(aead, key, fs) + Encrypt(aead, key, f.nonce, f.plain)
    ensures WellChunked(Plains(fs + [f]))
    ensures Flatten(Plains(fs + [f])) == Flatten(Plains(fs)) + f.plain
  {
    StreamAppend(aead, key, fs, f);
    PlainsAppend(fs, f);
    if fs != [] {
      PlainsIndex(fs, |fs| - 1);
    }
    WellChunkedAppend(Plains(fs), f.plain);
    FlattenAppend(Plains(fs), f.plain);
  }

  /** Frames that are all full carry ChunkSize plaintext bytes each. */
  lemma {:induction false} FullFramesLength(fs: seq<Frame>)
    requires forall i :: 0 <= i < |fs| ==> |fs[i].plain| == ChunkSize
    ensures |Flatten(Plains(fs))| == |fs| * ChunkSize
  {
    if fs != [] {
      assert Flatten(Plains(fs)) == fs[0].plain + Flatten(Plains(fs[1..]));
      FullFramesLength(fs[1..]);
    }
  }

  /** A well-chunked split is the one Chunked computes: the writer's framing of a
      plaintext is determined by the plaintext alone. */
  lemma {:induction false} ChunkedUnique(ps: seq<seq<byte>>)
    requires WellChunked(ps)
    ensures Chunked(Flatten(ps)) == ps
  {
    if ps != [] {
      var s := Flatten(ps);
      assert WellChunked(ps[1..]);
      ChunkedUnique(ps[1..]);
      if |ps| == 1 {
        assert s == ps[0];
      } else {
        assert |ps[0]| == ChunkSize && |ps[1]| > 0;
        assert s[..ChunkSize] == ps[0] && s[ChunkSize..] == Flatten(ps[1..]);
      }
    }
  }

  lemma ChunkCountStep(m: nat)
    ensures ChunkCount(ChunkSize + m) == 1 + ChunkCount(m)
  {
  }

  /** A well-chunked split of n bytes has ceil(n / ChunkSize) chunks. */
  lemma {:induction false} ChunkCountOf(ps: seq<seq<byte>>)
    requires WellChunked(ps)
    ensures |ps| == ChunkCount(|Flatten(ps)|)
  {
    if ps != [] {
      ChunkCountOf(ps[1..]);
      if |ps| == 1 {
        assert ps[1..] == [];
      } else {
        ChunkCountStep(|Flatten(ps[1..])|);
      }
    }
  }

  /** Each frame adds its plaintext and 28 bytes of overhead to the stream. */
  lemma {:induction false} StreamOverhead(aead: Aead, key: Key, fs: seq<Frame>)
    requires Sound(aead)
    ensures |Stream(aead, key, fs)| == |Flatten(Plains(fs))| + Overhead * |fs|
  {
    if fs != [] {
      var ps := Plains(fs);
      assert ps == [fs[0].plain] + Plains(fs[1..]);
      assert ps[1..] == Plains(fs[1..]);
      StreamOverhead(aead, key, fs[1..]);
      EncryptLength(aead, key, fs[0].nonce, fs[0].plain);
    }
  }

  /** A well-chunked stream of k frames holding n plaintext bytes has k == ceil(n / ChunkSize)
      frames, so it is CipherLength(n) bytes long. */
  lemma StreamLength(aead: Aead, key: Key, fs: seq<Frame>)
    requires Sound(aead)
    requires WellChunked(Plains(fs))
    ensures |Plains(fs)| == ChunkCount(|Flatten(Plains(fs))|)
    ensures |Stream(aead, key, fs)| == CipherLength(|Flatten(Plains(fs))|)
  {
    ChunkCountOf(Plains(fs));
    StreamOverhead(aead, key, fs);
  }
}
