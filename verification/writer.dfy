/** The encrypting sink: caller bytes are buffered in a fixed chunk array, each full chunk
    is sealed and handed to the underlying writer at once, and Close seals what is left. */
module Writing {
  import opened Common
  import opened Codec

  /** The underlying io.Writer: a buffer that keeps what it accepts and counts its calls;
      the call whose number (counting from 1) is `failAt` fails and accepts nothing. With
      `failAt` below 1 no call fails. */
  class Sink {
    var data: seq<byte>
    var calls: nat
    const failAt: int

    constructor (failAt: int)
      ensures data == [] && calls == 0 && this.failAt == failAt
    {
      data := [];
      calls := 0;
      this.failAt := failAt;
    }

    method Write(b: seq<byte>) returns (n: nat, err: Option<Error>)
      modifies this
      ensures calls == old(calls) + 1
      ensures calls == failAt ==> n == 0 && err == Some(SinkWriteFailed) && data == old(data)
      ensures calls != failAt ==> n == |b| && err.None? && data == old(data) + b
    {
      calls := calls + 1;
      if calls == failAt {
        n, err := 0, Some(SinkWriteFailed);
      } else {
        data := data + b;
        n, err := |b|, None;
      }
    }
  }

  /** Moving the first nn bytes of `rest` to the end of `consumed`. */
  lemma Advance(before: seq<byte>, consumed: seq<byte>, rest: seq<byte>, nn: nat)
    requires nn <= |rest|
    ensures before + consumed + rest[..nn] == before + (consumed + rest[..nn])
    ensures consumed + rest == (consumed + rest[..nn]) + rest[nn..]
  {
    assert rest == rest[..nn] + rest[nn..];
  }

  class Writer {
    const sink: Sink
    const aead: Aead
    const key: Key
    /** The random source: the i-th nonce drawn is entropy(i). */
    const entropy: nat -> Nonce
    /** The pending chunk; its first `pos` bytes are buffered plaintext. */
    const chunk: array<byte>
    var pos: int
    var closed: bool
    /** Nonces drawn so far, one per sealed chunk, delivered or not. */
    var drawn: nat
    /** What the sink held before this writer wrote to it. */
    ghost const base: seq<byte>
    /** The chunks the sink has accepted, in order. */
    ghost var frames: seq<Frame>

    ghost function Pending(): seq<byte>
      reads this, chunk
      requires 0 <= pos <= chunk.Length
    {
      chunk[..pos]
    }

    /** The plaintext of the chunks the sink has accepted, in order. */
    ghost function Accepted(): seq<byte>
      reads this
    {
      Flatten(Plains(frames))
    }

    ghost predicate LastFull()
      reads this
    {
      frames == [] || |frames[|frames| - 1].plain| == ChunkSize
    }

    /** The sink holds exactly the delivered chunks, and these are well chunked. */
    ghost predicate Framed()
      reads this, chunk, sink
    {
      && chunk.Length == ChunkSize
      && 0 <= pos <= ChunkSize
      && sink.data == base + Stream(aead, key, frames)
      && WellChunked(Plains(frames))
      && (pos > 0 ==> LastFull())
    }

    /** Between calls the chunk is never full, a closed writer buffers nothing, and only a
        closed writer can have emitted a short chunk. */
    ghost predicate Valid()
      reads this, chunk, sink
    {
      && Framed()
      && pos < ChunkSize
      && (closed ==> pos == 0)
      && (!LastFull() ==> closed)
    }

    /** NewWriter. */
    constructor (sink: Sink, aead: Aead, key: Key, entropy: nat -> Nonce)
      ensures Valid() && fresh(chunk)
      ensures this.sink == sink && this.aead == aead && this.key == key && this.entropy == entropy
      ensures pos == 0 && !closed && drawn == 0 && frames == [] && base == sink.data
    {
      this.sink := sink;
      this.aead := aead;
      this.key := key;
      this.entropy := entropy;
      chunk := new byte[ChunkSize];
      pos := 0;
      closed := false;
      drawn := 0;
      base := sink.data;
      frames := [];
    }

    /** Seals the buffered bytes, if any, and hands them to the sink; the buffer is emptied
        whether or not the sink accepts them. */
    method Flush() returns (err: Option<Error>)
      requires Framed() && (pos < ChunkSize ==> closed)
      modifies this, sink
      ensures Framed() && pos == 0 && closed == old(closed)
      ensures old(pos) == 0 ==> err.None? && frames == old(frames) && drawn == old(drawn)
      ensures old(pos) == 0 ==> sink.calls == old(sink.calls) && sink.data == old(sink.data)
      ensures old(pos) > 0 ==> drawn == old(drawn) + 1 && sink.calls == old(sink.calls) + 1
      ensures old(pos) > 0 ==> (err.None? <==> sink.calls != sink.failAt)
      ensures old(pos) > 0 && err.None? ==> frames == old(frames) + [Frame(entropy(old(drawn)), old(Pending()))]
      ensures old(pos) > 0 && err.None? ==> Accepted() == old(Accepted()) + old(Pending())
      ensures err.Some? ==> err == Some(SinkWriteFailed) && frames == old(frames) && sink.data == old(sink.data)
    {
      if pos == 0 {
        return None;
      }
      err := Seal();
    }

    /** The sealing half of Flush: one fresh nonce, one call to the sink. */
    method Seal() returns (err: Option<Error>)
      requires Framed() && pos > 0 && (pos < ChunkSize ==> closed)
      modifies this, sink
      ensures Framed() && pos == 0 && closed == old(closed)
      ensures drawn == old(drawn) + 1 && sink.calls == old(sink.calls) + 1
      ensures err.None? <==> sink.calls != sink.failAt
      ensures err.None? ==> frames == old(frames) + [Frame(entropy(old(drawn)), old(Pending()))]
      ensures err.None? ==> Accepted() == old(Accepted()) + old(Pending())
      ensures err.Some? ==> err == Some(SinkWriteFailed) && frames == old(frames) && sink.data == old(sink.data)
    {
      var plaintext := chunk[..pos];
      var nonce := entropy(drawn);
      drawn := drawn + 1;
      var ciphertext := Encrypt(aead, key, nonce, plaintext);
      var _, e := sink.Write(ciphertext);
      pos := 0;
      err := e;
      if err.None? {
        var f := Frame(nonce, plaintext);
        FrameAppend(aead, key, frames, f);
        frames := frames + [f];
      }
    }

    /** `copy(w.chunk[w.pos:], p)` followed by `w.pos += nn`: appends the first nn bytes of
        `p` to the pending chunk. */
    method CopyIn(p: seq<byte>, nn: int)
      requires chunk.Length == ChunkSize && 0 <= pos && 0 <= nn <= |p| && pos + nn <= ChunkSize
      modifies chunk, this`pos
      ensures pos == old(pos) + nn
      ensures Pending() == old(Pending()) + p[..nn]
    {
      forall i | 0 <= i < nn {
        chunk[pos + i] := p[i];
      }
      pos := pos + nn;
    }

    /** Copies `p` into the chunk, sealing and sending each chunk as it fills. `n` counts
        only bytes of `p` that went into chunks the sink accepted during this call. */
    method Write(p: seq<byte>) returns (n: nat, err: Option<Error>)
      requires Valid()
      modifies this, chunk, sink
      ensures Valid() && closed == old(closed) && n <= |p|
      ensures old(closed) ==> n == 0 && err == Some(WriterClosed)
      ensures old(closed) ==> pos == old(pos) && frames == old(frames) && drawn == old(drawn)
      ensures old(closed) ==> sink.data == old(sink.data) && sink.calls == old(sink.calls)
      ensures |old(frames)| <= |frames| && frames[..|old(frames)|] == old(frames)
      ensures forall i :: |old(frames)| <= i < |frames| ==> |frames[i].plain| == ChunkSize
      ensures drawn == old(drawn) + (sink.calls - old(sink.calls))
      ensures !old(closed) ==>
        sink.calls == old(sink.calls) + (|frames| - |old(frames)|) + (if err.Some? then 1 else 0)
      ensures !old(closed) ==> (err.None? <==> !(old(sink.calls) < sink.failAt <= sink.calls))
      ensures !old(closed) && err.None? ==>
        n == |p| && Accepted() + Pending() == old(Accepted()) + old(Pending()) + p
      ensures !old(closed) && err.Some? ==>
        err == Some(SinkWriteFailed) && sink.calls == sink.failAt && Pending() == []
      ensures !old(closed) && err.Some? ==>
        if n == 0 then frames == old(frames)
        else Accepted() == old(Accepted()) + old(Pending()) + p[..n]
    {
      if closed {
        return 0, Some(WriterClosed);
      }
      n, err := 0, None;
      var rest := p;
      ghost var consumed: seq<byte> := [];
      while |rest| > 0
        invariant Valid() && !closed
        invariant p == consumed + rest && n == |consumed|
        invariant |old(frames)| <= |frames| && frames[..|old(frames)|] == old(frames)
        invariant forall i :: |old(frames)| <= i < |frames| ==> |frames[i].plain| == ChunkSize
        invariant sink.calls == old(sink.calls) + (|frames| - |old(frames)|)
        invariant drawn == old(drawn) + (sink.calls - old(sink.calls))
        invariant !(old(sink.calls) < sink.failAt <= sink.calls)
        invariant Accepted() + Pending() == old(Accepted()) + old(Pending()) + consumed
        invariant consumed == [] ==> frames == old(frames)
        invariant consumed != [] && rest != [] ==> Pending() == []
        invariant err.None?
        decreases |rest|
      {
        var nn;
        nn, err := Fill(rest);
        if err.Some? {
          return n, err;
        }
        Advance(old(Accepted()) + old(Pending()), consumed, rest, nn);
        consumed := consumed + rest[..nn];
        rest := rest[nn..];
        n := n + nn;
      }
    }

    /** One turn of Write's loop: copy as much of `rest` as fits into the chunk and, if
        that fills it, seal and send it. */
    method Fill(rest: seq<byte>) returns (nn: nat, err: Option<Error>)
      requires Valid() && !closed && |rest| > 0
      modifies this, chunk, sink
      ensures Valid() && !closed && 0 < nn <= |rest|
      ensures |old(frames)| <= |frames| <= |old(frames)| + 1 && frames[..|old(frames)|] == old(frames)
      ensures |frames| > |old(frames)| ==> |frames[|frames| - 1].plain| == ChunkSize
      ensures sink.calls == old(sink.calls) + (|frames| - |old(frames)|) + (if err.Some? then 1 else 0)
      ensures drawn == old(drawn) + (sink.calls - old(sink.calls))
      ensures err.None? ==> !(old(sink.calls) < sink.failAt <= sink.calls)
      ensures err.None? ==> Accepted() + Pending() == old(Accepted()) + old(Pending()) + rest[..nn]
      ensures err.None? && nn < |rest| ==> Pending() == []
      ensures err.Some? ==> err == Some(SinkWriteFailed) && sink.calls == sink.failAt
      ensures err.Some? ==> frames == old(frames) && Pending() == []
    {
      nn := Min(ChunkSize - pos, |rest|);
      CopyIn(rest, nn);
      err := None;
      if pos == ChunkSize {
        ghost var full := Pending();
        assert full == old(Pending()) + rest[..nn];
        err := Flush();
        if err.None? {
          assert Accepted() + Pending() == old(Accepted()) + full;
        }
      }
    }

    /** Marks the writer closed and seals the final, possibly short, chunk. Closing again
        finds nothing buffered and emits nothing. */
    method Close() returns (err: Option<Error>)
      requires Valid()
      modifies this, sink
      ensures Valid() && closed && pos == 0
      ensures old(closed) ==> err.None? && frames == old(frames) && sink.data == old(sink.data)
      ensures old(Pending()) == [] ==> err.None? && frames == old(frames) && drawn == old(drawn)
      ensures old(Pending()) == [] ==> sink.data == old(sink.data) && sink.calls == old(sink.calls)
      ensures old(Pending()) != [] ==> drawn == old(drawn) + 1 && sink.calls == old(sink.calls) + 1
      ensures old(Pending()) != [] ==> (err.None? <==> sink.calls != sink.failAt)
      ensures old(Pending()) != [] && err.None? ==>
        frames == old(frames) + [Frame(entropy(old(drawn)), old(Pending()))]
      ensures old(Pending()) != [] && err.None? ==> Accepted() == old(Accepted()) + old(Pending())
      ensures err.Some? ==> err == Some(SinkWriteFailed) && frames == old(frames) && sink.data == old(sink.data)
    {
      closed := true;
      err := Flush();
    }
  }
}
