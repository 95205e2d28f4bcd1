/** What the writer and the reader promise together: the reader decodes the writer's output
    back to the plaintext, a seek lands on the byte it names, and the scenarios the package's
    own tests exercise. */
module Validation {
  import opened Common
  import opened Codec
  import opened Sectors
  import opened Writing
  import opened Reading

  /** One sector-sized read of a stream that starts with a sealed chunk takes exactly that
      chunk: a full one is followed by the rest of the stream, a short one ends it. */
  lemma DecodeChunk(aead: Aead, key: Key, f: Frame, tail: seq<byte>, skip: int)
    requires Sound(aead) && 0 < |f.plain| <= ChunkSize && 0 <= skip <= |f.plain|
    requires tail != [] ==> |f.plain| == ChunkSize
    ensures Decode(aead, key, Encrypt(aead, key, f.nonce, f.plain) + tail, skip)
      == match Decode(aead, key, tail, 0)
         case None => None
         case Some(d) => Some(f.plain[skip..] + d)
  {
    var c := Encrypt(aead, key, f.nonce, f.plain);
    EncryptLength(aead, key, f.nonce, f.plain);
    DecryptEncrypt(aead, key, f.nonce, f.plain);
    var s := c + tail;
    assert SectorOf(s) == c;
    if |c| == SectorSize {
      assert s[SectorSize..] == tail;
    } else {
      assert tail == [];
      assert f.plain[skip..] + [] == f.plain[skip..];
    }
  }

  /** Reading a writer's output from the start of a chunk, dropping `skip` bytes of it,
      yields the written plaintext from that point on: each sector-sized read lands exactly
      on one sealed chunk. */
  lemma {:induction false} DecodeStream(aead: Aead, key: Key, fs: seq<Frame>, skip: int)
    requires Sound(aead) && WellChunked(Plains(fs))
    requires 0 <= skip && (fs == [] ==> skip == 0) && (fs != [] ==> skip <= |fs[0].plain|)
    ensures Decode(aead, key, Stream(aead, key, fs), skip) == Some(Flatten(Plains(fs))[skip..])
  {
    if fs != [] {
      var f := fs[0];
      var ps := Plains(fs);
      var later := Flatten(Plains(fs[1..]));
      assert ps == [f.plain] + Plains(fs[1..]);
      assert ps[1..] == Plains(fs[1..]);
      assert Flatten(ps) == f.plain + later;
      DecodeStream(aead, key, fs[1..], 0);
      assert later[0..] == later;
      DecodeChunk(aead, key, f, Stream(aead, key, fs[1..]), skip);
      assert (f.plain + later)[skip..] == f.plain[skip..] + later;
    }
  }

  /** The round trip: a reader over the whole of a writer's output reads back what was
      written. */
  lemma DecodeWriterStream(aead: Aead, key: Key, fs: seq<Frame>)
    requires Sound(aead) && WellChunked(Plains(fs))
    ensures Decode(aead, key, Stream(aead, key, fs), 0) == Some(Flatten(Plains(fs)))
  {
    DecodeStream(aead, key, fs, 0);
    assert Flatten(Plains(fs))[0..] == Flatten(Plains(fs));
  }

  /** Skipping k full chunks of plaintext skips k whole sectors of the stream. */
  lemma {:induction false} StreamDrop(aead: Aead, key: Key, fs: seq<Frame>, k: nat)
    requires Sound(aead)
    requires k <= |fs| && forall i :: 0 <= i < k ==> |fs[i].plain| == ChunkSize
    ensures k * SectorSize <= |Stream(aead, key, fs)|
    ensures Stream(aead, key, fs)[k * SectorSize..] == Stream(aead, key, fs[k..])
  {
    if k > 0 {
      var f := fs[0];
      EncryptLength(aead, key, f.nonce, f.plain);
      StreamDrop(aead, key, fs[1..], k - 1);
      assert fs[1..][k - 1..] == fs[k..];
      var c := Encrypt(aead, key, f.nonce, f.plain);
      var later := Stream(aead, key, fs[1..]);
      assert Stream(aead, key, fs) == c + later;
      assert (c + later)[k * SectorSize..] == later[(k - 1) * SectorSize..];
    } else {
      assert fs[0..] == fs;
    }
  }

  /** Skipping k full chunks of plaintext leaves the plaintext of the later chunks, and
      these are still well chunked. */
  lemma {:induction false} PlainDrop(fs: seq<Frame>, k: nat)
    requires WellChunked(Plains(fs))
    requires k <= |fs| && forall i :: 0 <= i < k ==> |fs[i].plain| == ChunkSize
    ensures k * ChunkSize <= |Flatten(Plains(fs))|
    ensures Flatten(Plains(fs))[k * ChunkSize..] == Flatten(Plains(fs[k..]))
    ensures WellChunked(Plains(fs[k..]))
  {
    if k > 0 {
      var f := fs[0];
      var ps := Plains(fs);
      var later := Flatten(Plains(fs[1..]));
      assert ps == [f.plain] + Plains(fs[1..]);
      assert ps[1..] == Plains(fs[1..]);
      PlainDrop(fs[1..], k - 1);
      assert fs[1..][k - 1..] == fs[k..];
      assert Flatten(ps) == f.plain + later;
      assert (f.plain + later)[k * ChunkSize..] == later[(k - 1) * ChunkSize..];
    } else {
      assert fs[0..] == fs;
    }
  }

  /** In a well-chunked stream, plaintext offset k * ChunkSize + r (r below ChunkSize, the
      offset at most the length) lies in chunk k: every chunk before it is full, and r
      falls within it or, past the last chunk, is zero. */
  lemma {:induction false} ChunkOfOffset(fs: seq<Frame>, k: nat, r: int)
    requires WellChunked(Plains(fs)) && 0 <= r < ChunkSize
    requires k * ChunkSize + r <= |Flatten(Plains(fs))|
    ensures k <= |fs|
    ensures forall i :: 0 <= i < k ==> |fs[i].plain| == ChunkSize
    ensures k < |fs| ==> r <= |fs[k].plain|
    ensures k == |fs| ==> r == 0
  {
    if fs == [] {
      assert Flatten(Plains(fs)) == [];
    } else {
      var f := fs[0];
      var ps := Plains(fs);
      var later := Flatten(Plains(fs[1..]));
      assert ps == [f.plain] + Plains(fs[1..]);
      assert ps[1..] == Plains(fs[1..]);
      assert Flatten(ps) == f.plain + later;
      if k > 0 {
        if |fs| == 1 {
          assert later == [];
        }
        assert |f.plain| == ChunkSize;
        ChunkOfOffset(fs[1..], k - 1, r);
        forall i | 0 <= i < k
          ensures |fs[i].plain| == ChunkSize
        {
          if i > 0 {
            assert fs[i] == fs[1..][i - 1];
          }
        }
        if k < |fs| {
          assert fs[k] == fs[1..][k - 1];
        }
      }
    }
  }

  /** A seek to plaintext offset t (within the data) places the source at the start of
      the sector holding t and primes `skip` so that the reader's remaining output is the
      plaintext from t on. */
  lemma SeekLands(aead: Aead, key: Key, fs: seq<Frame>, t: int)
    requires Sound(aead) && WellChunked(Plains(fs))
    requires 0 <= t <= |Flatten(Plains(fs))|
    ensures Decode(aead, key, Suffix(Stream(aead, key, fs), GetSectorStart(t)), GoRem(t, ChunkSize))
      == Some(Flatten(Plains(fs))[t..])
  {
    var k, r := t / ChunkSize, t % ChunkSize;
    SectorOfOffset(t);
    ChunkOfOffset(fs, k, r);
    StreamDrop(aead, key, fs, k);
    PlainDrop(fs, k);
    DropTwice(Flatten(Plains(fs)), k * ChunkSize, r);
    DecodeStream(aead, key, fs[k..], r);
  }

  lemma DropTwice(s: seq<byte>, a: nat, b: nat)
    requires a + b <= |s|
    ensures s[a..][b..] == s[a + b..]
  {
  }

  /** Whatever it holds, a non-empty stream read with a negative skip fails: the first
      chunk either does not open or cannot be cut at a negative index. */
  lemma DecodeNegativeSkip(aead: Aead, key: Key, rem: seq<byte>, skip: int)
    requires rem != [] && skip < 0
    ensures Decode(aead, key, rem, skip) == None
  {
  }

  /** Seeking past the end with SeekEnd, when the last chunk is partial, leaves nothing to
      read, so Read reports EOF as it would on an os.File. */
  lemma SeekEndPastEnd(aead: Aead, key: Key, fs: seq<Frame>, offset: int, current: int)
    requires Sound(aead) && WellChunked(Plains(fs))
    requires |Flatten(Plains(fs))| % ChunkSize != 0 && offset > 0
    ensures
      var n := |Flatten(Plains(fs))|;
      var s := Stream(aead, key, fs);
      var r := SeekTarget(SeekEnd, offset, current, Ok(|s|));
      && r.Ok? && r.value.overshot && r.value.offset == n + offset
      && Decode(aead, key, Suffix(s, GetSectorStart(r.value.offset)), r.value.lastChunkSize) == Some([])
  {
    var n := |Flatten(Plains(fs))|;
    var s := Stream(aead, key, fs);
    var t := n + offset;
    StreamLength(aead, key, fs);
    DataSizeOfCipherLength(n);
    SeekLands(aead, key, fs, n);
    if t / ChunkSize != n / ChunkSize {
      SectorPastEnd(n, t);
    } else {
      SectorOfOffset(n);
      SectorOfOffset(t);
    }
  }

  /** A SeekStart past the end of the data but inside the last, partial, chunk puts the
      next cut beyond the decrypted chunk (a panic in Go): the read fails. */
  lemma SeekStartPastEndFails(aead: Aead, key: Key, fs: seq<Frame>, t: int)
    requires Sound(aead) && WellChunked(Plains(fs))
    requires |Flatten(Plains(fs))| % ChunkSize != 0 && |Flatten(Plains(fs))| < t
    requires t / ChunkSize == |Flatten(Plains(fs))| / ChunkSize
    ensures Decode(aead, key, Suffix(Stream(aead, key, fs), GetSectorStart(t)), GoRem(t, ChunkSize)) == None
  {
    var n := |Flatten(Plains(fs))|;
    var k := n / ChunkSize;
    SectorOfOffset(n);
    ChunkOfOffset(fs, k, n % ChunkSize);
    StreamDrop(aead, key, fs, k);
    PlainDrop(fs, k);
    var f := fs[k];
    assert fs[k..] == [f] by { PlainsIndex(fs[k..], 0); }
    DecryptEncrypt(aead, key, f.nonce, f.plain);
  }

  /** As written, Seek(0, SeekEnd) on a stream whose last chunk is full lands 28 bytes
      before the end, and the reader then hands out the last 28 bytes again instead of
      reporting EOF. */
  lemma SeekEndShortOfEnd(aead: Aead, key: Key, fs: seq<Frame>, current: int)
    requires Sound(aead) && WellChunked(Plains(fs))
    requires fs != [] && |Flatten(Plains(fs))| % ChunkSize == 0
    ensures
      var n := |Flatten(Plains(fs))|;
      var s := Stream(aead, key, fs);
      var r := SeekTarget(SeekEnd, 0, current, Ok(|s|));
      && r.Ok? && !r.value.overshot && r.value.offset == n - Overhead
      && Decode(aead, key, Suffix(s, GetSectorStart(r.value.offset)), GoRem(r.value.offset, ChunkSize))
         == Some(Flatten(Plains(fs))[n - Overhead..])
      && |Flatten(Plains(fs))[n - Overhead..]| == Overhead
  {
    var n := |Flatten(Plains(fs))|;
    StreamLength(aead, key, fs);
    DataSizeShortOnFullLastChunk(n);
    SeekLands(aead, key, fs, n - Overhead);
  }

  /** As written, a SeekEnd a little past the end of such a stream sets a negative skip,
      and the next Read cuts the decrypted chunk at a negative index (a panic in Go). */
  lemma SeekEndPastFullChunkFails(aead: Aead, key: Key, fs: seq<Frame>, offset: int, current: int)
    requires Sound(aead) && WellChunked(Plains(fs))
    requires fs != [] && |Flatten(Plains(fs))| % ChunkSize == 0 && 0 < offset < Overhead
    ensures
      var s := Stream(aead, key, fs);
      var r := SeekTarget(SeekEnd, offset, current, Ok(|s|));
      && r.Ok? && r.value.overshot && r.value.lastChunkSize == -Overhead && r.value.offset >= 0
      && Decode(aead, key, Suffix(s, GetSectorStart(r.value.offset)), r.value.lastChunkSize) == None
  {
    var n := |Flatten(Plains(fs))|;
    var s := Stream(aead, key, fs);
    var t := n - Overhead + offset;
    StreamLength(aead, key, fs);
    DataSizeShortOnFullLastChunk(n);
    LastSectorOfFull(n, t);
    DecodeNegativeSkip(aead, key, Suffix(s, GetSectorStart(t)), -Overhead);
  }

  /** With the plaintext size Seek evidently intends, SeekEnd lands on the byte it names:
      offset 0 leaves nothing to read, a negative offset the last -offset bytes. */
  lemma SeekEndLands(aead: Aead, key: Key, fs: seq<Frame>, offset: int)
    requires Sound(aead) && WellChunked(Plains(fs))
    requires -|Flatten(Plains(fs))| <= offset <= 0
    ensures
      var t := PlainSize(|Stream(aead, key, fs)|) + offset;
      && t == |Flatten(Plains(fs))| + offset
      && Decode(aead, key, Suffix(Stream(aead, key, fs), GetSectorStart(t)), GoRem(t, ChunkSize))
         == Some(Flatten(Plains(fs))[t..])
  {
    StreamLength(aead, key, fs);
    PlainSizeOfCipherLength(|Flatten(Plains(fs))|);
    SeekLands(aead, key, fs, |Flatten(Plains(fs))| + offset);
  }

  /** `rest` is what is left of `goal` once `data` has been handed out; None, a failure
      to come, stays None. */
  ghost predicate Leaves(goal: Option<seq<byte>>, data: seq<byte>, rest: Option<seq<byte>>)
  {
    && (goal.Some? ==> rest.Some? && goal.value == data + rest.value)
    && (goal.None? ==> rest.None?)
  }

  lemma LeavesTrans(goal: Option<seq<byte>>, data: seq<byte>, mid: Option<seq<byte>>,
                    got: seq<byte>, rest: Option<seq<byte>>)
    requires Leaves(goal, data, mid) && Leaves(mid, got, rest)
    ensures Leaves(goal, data + got, rest)
  {
    if goal.Some? {
      assert goal.value == data + (got + rest.value);
    }
  }

  /** io.ReadAll: calls Read with a `size`-byte buffer until it reports an error, and
      counts EOF as success. */
  method ReadAll(r: Reader, size: nat) returns (data: seq<byte>, e: Option<Error>)
    requires r.Valid() && size > 0
    modifies r
    ensures r.Valid()
    ensures old(r.Rest()).Some? ==> e.None? && data == old(r.Rest()).value
    ensures old(r.Rest()).None? ==> e.Some? && e != Some(EOF)
  {
    ghost var goal := r.Rest();
    assert goal.Some? ==> goal.value == [] + goal.value;
    var buf := new byte[size];
    data := [];
    while true
      invariant r.Valid() && buf.Length == size
      invariant Leaves(goal, data, r.Rest())
      decreases |r.Tail()|, |r.plaintext|
    {
      ghost var mid := r.Rest();
      var got, err := ReadInto(r, buf);
      if err.Some? {
        e := if err == Some(EOF) then None else err;
        if err == Some(EOF) {
          LeavesTrans(goal, data, mid, got, Some([]));
          assert data + got + [] == data + got;
        }
        data := data + got;
        return;
      }
      LeavesTrans(goal, data, mid, got, r.Rest());
      data := data + got;
    }
  }

  /** One Read of io.ReadAll's loop, seen through what it hands out: a prefix of what the
      reader had left to give, with progress towards the end of the source. */
  method ReadInto(r: Reader, buf: array<byte>) returns (got: seq<byte>, err: Option<Error>)
    requires r.Valid() && buf.Length > 0
    modifies r, buf
    ensures r.Valid()
    ensures err.None? ==> Leaves(old(r.Rest()), got, r.Rest())
    ensures err == Some(EOF) ==> got == [] && old(r.Rest()) == Some([])
    ensures err.Some? && err != Some(EOF) ==> old(r.Rest()).None?
    ensures err.None? ==>
      |r.Tail()| < old(|r.Tail()|) || (|r.Tail()| == old(|r.Tail()|) && |r.plaintext| < old(|r.plaintext|))
  {
    var n;
    n, err := r.Read(buf);
    got := buf[..n];
  }

  /** The writing half of encryptValidate: a Writer over an empty buffer that never fails,
      one Write of the whole plaintext (what io.Copy from a bytes.Reader amounts to), then
      Close. The output is the sealed chunks of the plaintext's one well-chunked split, so
      it is N + 28 * ceil(N / ChunkSize) bytes long and decodes to the input. */
  method EncryptAll(aead: Aead, key: Key, entropy: nat -> Nonce, plaintext: seq<byte>)
    returns (ciphertext: seq<byte>, err: Option<Error>, ghost frames: seq<Frame>)
    requires Sound(aead)
    ensures err.None?
    ensures ciphertext == Stream(aead, key, frames) && Plains(frames) == Chunked(plaintext)
    ensures |ciphertext| == CipherLength(|plaintext|)
    ensures Decode(aead, key, ciphertext, 0) == Some(plaintext)
  {
    var sink := new Sink(0);
    var w := new Writer(sink, aead, key, entropy);
    assert w.Accepted() == [] && w.Pending() == [];
    var _, e1 := w.Write(plaintext);
    ghost var sent, pending := w.Accepted(), w.Pending();
    assert sent + pending == plaintext;
    var e2 := w.Close();
    assert w.Accepted() == sent + pending;
    err := if e1.Some? then e1 else e2;
    ciphertext := sink.data;
    frames := w.frames;
    assert ciphertext == Stream(aead, key, frames);
    ChunkedUnique(Plains(frames));
    StreamLength(aead, key, frames);
    DecodeWriterStream(aead, key, frames);
  }

  /** encryptValidate: encrypt into a buffer, read it all back through a Reader over a
      bytes.Reader, and compare. */
  method EncryptValidate(aead: Aead, key: Key, entropy: nat -> Nonce, plaintext: seq<byte>, size: nat)
    returns (err: Option<Error>)
    requires Sound(aead) && size > 0
    ensures err.None?
  {
    var ciphertext, e1, _ := EncryptAll(aead, key, entropy, plaintext);
    var r := new Reader(aead, key, ciphertext, true, Sizer);
    var pt, e2 := ReadAll(r, size);
    err := if e1.Some? then e1 else if e2.Some? then e2 else if pt != plaintext then Some(Mismatch) else None;
  }

  /** Encrypts, seeks a fresh reader to plaintext offset t with SeekStart, and reads the
      rest: the reader hands out the plaintext from t on. */
  method SeekThenReadAll(aead: Aead, key: Key, entropy: nat -> Nonce, plaintext: seq<byte>, t: int, size: nat)
    returns (pos: int, data: seq<byte>, err: Option<Error>)
    requires Sound(aead) && size > 0 && 0 <= t <= |plaintext|
    ensures pos == t && err.None? && data == plaintext[t..]
  {
    ghost var frames;
    var ciphertext, e1;
    ciphertext, e1, frames := EncryptAll(aead, key, entropy, plaintext);
    var r, e2;
    r, pos, e2 := ReaderAt(aead, key, ciphertext, t);
    assert Flatten(Plains(frames)) == plaintext;
    SeekLands(aead, key, frames, t);
    data, err := ReadAll(r, size);
  }

  /** NewReader over a seekable source, then Seek(t, SeekStart). */
  method ReaderAt(aead: Aead, key: Key, ciphertext: seq<byte>, t: int)
    returns (r: Reader, pos: int, e: Option<Error>)
    requires t >= 0
    ensures fresh(r) && r.Valid() && pos == t && e.None?
    ensures r.Rest() == Decode(aead, key, Suffix(ciphertext, GetSectorStart(t)), GoRem(t, ChunkSize))
  {
    r := new Reader(aead, key, ciphertext, true, Sizer);
    pos, e := r.Seek(t, SeekStart);
    assert r.Tail() == Suffix(ciphertext, GetSectorStart(t));
    var d := Decode(aead, key, r.Tail(), r.skip);
    if d.Some? {
      assert [] + d.value == d.value;
    }
  }

  /** Seek keeps a latched EOF: wherever the seek lands, the next Read reports EOF without
      reading anything. */
  method SeekKeepsEof(r: Reader, p: array<byte>, t: int)
    returns (pos: int, e1: Option<Error>, n: nat, e2: Option<Error>)
    requires r.Valid() && r.seekable && r.err == Some(EOF) && t >= 0
    modifies r, p
    ensures pos == t && e1.None? && n == 0 && e2 == Some(EOF)
  {
    pos, e1 := r.Seek(t, SeekStart);
    n, e2 := r.Read(p);
  }

  /** A sink whose second write fails, and one Write of at least two chunks: the first
      chunk is delivered and counted, the second is lost, and Write reports the failure. */
  method SecondWriteFails(aead: Aead, key: Key, entropy: nat -> Nonce, plaintext: seq<byte>)
    returns (n: nat, err: Option<Error>)
    requires |plaintext| >= 2 * ChunkSize
    ensures n == ChunkSize && err == Some(SinkWriteFailed)
  {
    var sink := new Sink(2);
    var w := new Writer(sink, aead, key, entropy);
    n, err := w.Write(plaintext);
    FullFramesLength(w.frames);
  }

  /** Write, Close, Close again, then Write: the second Close emits nothing and succeeds,
      and the last Write is refused without touching anything. The sink ends up holding one
      sealed chunk, or nothing for an empty message. */
  method WriteCloseTwice(aead: Aead, key: Key, entropy: nat -> Nonce, msg: seq<byte>)
    returns (out: seq<byte>, e1: Option<Error>, e2: Option<Error>, e3: Option<Error>, n4: nat, e4: Option<Error>)
    requires |msg| < ChunkSize
    ensures e1.None? && e2.None? && e3.None?
    ensures n4 == 0 && e4 == Some(WriterClosed)
    ensures out == if msg == [] then [] else Encrypt(aead, key, entropy(0), msg)
  {
    var sink := new Sink(0);
    var w := new Writer(sink, aead, key, entropy);
    assert w.Accepted() == [] && w.Pending() == [];
    var n1;
    n1, e1 := w.Write(msg);
    FullFramesLength(w.frames);
    assert e1.None?;
    assert w.Accepted() + w.Pending() == msg;
    assert w.frames == [] && w.drawn == 0 && w.Accepted() == [];
    assert w.Pending() == msg;
    e2 := w.Close();
    if msg != [] {
      assert Stream(aead, key, w.frames) == Encrypt(aead, key, entropy(0), msg) + Stream(aead, key, []);
    }
    e3 := w.Close();
    n4, e4 := w.Write(msg);
    out := sink.data;
  }
}
