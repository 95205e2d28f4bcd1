/** The decrypting source: it pulls one sector of ciphertext at a time from the underlying
    reader, opens it, and hands out the plaintext; Seek repositions it on a sector boundary
    and records how much of the next decrypted chunk to drop. */
module Reading {
  import opened Common
  import opened Codec
  import opened Sectors

  /** The bytes of `s` from position `at` on; a position past the end (where a
      bytes.Reader may be seeked) has nothing left to read. */
  function Suffix(s: seq<byte>, at: int): (t: seq<byte>)
    requires at >= 0
    ensures at <= |s| ==> t == s[at..]
    ensures |t| == if at <= |s| then |s| - at else 0
  {
    if at <= |s| then s[at..] else []
  }

  /** What one io.ReadFull of a sector-sized buffer takes from `rem`: a whole sector, or
      all that is left when less remains. */
  function SectorOf(rem: seq<byte>): (c: seq<byte>)
    ensures |c| == Min(SectorSize, |rem|) && c == rem[..|c|]
  {
    rem[..Min(SectorSize, |rem|)]
  }

  /** The plaintext a reader hands out from ciphertext `rem` when it drops the first `skip`
      bytes of the first chunk: None when a chunk fails to open or the skip falls outside
      the chunk. A short sector is the last one. */
  function Decode(aead: Aead, key: Key, rem: seq<byte>, skip: int): (r: Option<seq<byte>>)
    ensures rem == [] ==> r == Some([])
    ensures rem != [] && Decrypt(aead, key, SectorOf(rem)).Err? ==> r.None?
    ensures rem != [] && skip < 0 ==> r.None?
    ensures 0 < |rem| <= SectorSize ==>
      (r.Some? <==> Decrypt(aead, key, rem).Ok? && 0 <= skip <= |Decrypt(aead, key, rem).value|)
    ensures 0 < |rem| <= SectorSize && r.Some? ==> r.value == Decrypt(aead, key, rem).value[skip..]
    decreases |rem|
  {
    if rem == [] then Some([])
    else
      var c := SectorOf(rem);
      assert |rem| <= SectorSize ==> c == rem;
      match Decrypt(aead, key, c)
      case Err(_) => None
      case Ok(pt) =>
        if skip < 0 || skip > |pt| then None
        else if |c| < SectorSize then Some(pt[skip..])
        else
          match Decode(aead, key, rem[SectorSize..], 0)
          case None => None
          case Some(d) => Some(pt[skip..] + d)
  }

  /** Which optional size interface the underlying reader offers: Size() (a bytes.Reader),
      Stat() (an os.File; `statFails` says whether the call errs), or neither. */
  datatype Sizing = Sizer | StatSizer(statFails: bool) | NoSizer

  /** `copy(p, s)` for the first n bytes: the rest of `p` is untouched. */
  method CopyOut(p: array<byte>, s: seq<byte>, n: nat)
    requires n <= p.Length && n <= |s|
    modifies p
    ensures p[..n] == s[..n] && p[n..] == old(p[n..])
  {
    forall i | 0 <= i < n {
      p[i] := s[i];
    }
  }

  /** What the remaining reads of a reader hand out before they report EOF, or None when
      one of them will fail: the pending plaintext, then (unless EOF is latched) the
      decoding of the ciphertext not yet read. */
  ghost function Remaining(aead: Aead, key: Key, err: Option<Error>, plaintext: seq<byte>,
                           tail: seq<byte>, skip: int): (rest: Option<seq<byte>>)
  {
    if err.Some? then Some(plaintext)
    else match Decode(aead, key, tail, skip)
      case None => None
      case Some(d) => Some(plaintext + d)
  }

  /** One refill that read the sector `SectorOf(tail)` with `skip0` pending, into a buffer
      of `room` bytes: what was latched, handed out (`out`), returned and left pending. */
  ghost predicate Stepped(aead: Aead, key: Key, tail: seq<byte>, skip0: int, room: nat, out: seq<byte>,
                          e: Option<Error>, err: Option<Error>, plaintext: seq<byte>, skip: int)
  {
    var c := SectorOf(tail);
    && err == (if |c| < SectorSize then Some(EOF) else None)
    && (c == [] ==> out == [] && e == Some(EOF) && plaintext == [] && skip == skip0)
    && (c != [] ==> Opened(aead, key, c, skip0, room, out, e, plaintext, skip))
  }

  /** Opening sector `c` with `skip0` pending, into a buffer of `room` bytes: a chunk that
      does not open leaves nothing pending, a skip outside the chunk leaves the whole chunk
      pending, and otherwise what fits is handed out (`out`) and the rest kept. */
  ghost predicate Opened(aead: Aead, key: Key, c: seq<byte>, skip0: int, room: nat, out: seq<byte>,
                         e: Option<Error>, plaintext: seq<byte>, skip: int)
  {
    match Decrypt(aead, key, c)
    case Err(x) => out == [] && e == Some(x) && plaintext == [] && skip == skip0
    case Ok(pt) =>
      if skip0 < 0 || skip0 > |pt| then
        out == [] && e == Some(SkipOutOfRange) && plaintext == pt && skip == skip0
      else
        && e.None? && |out| == Min(room, |pt| - skip0) && skip == 0
        && out == pt[skip0..skip0 + |out|] && plaintext == pt[skip0 + |out|..]
  }

  /** A refill hands out a prefix of what the reader had left to give and keeps the rest
      for later reads; it reports EOF only when nothing was left, and an error exactly
      when what was left could not be decoded. */
  lemma StepRemaining(aead: Aead, key: Key, tail: seq<byte>, skip0: int, room: nat, out: seq<byte>,
                      e: Option<Error>, err: Option<Error>, plaintext: seq<byte>, skip: int)
    requires Stepped(aead, key, tail, skip0, room, out, e, err, plaintext, skip)
    ensures
      var d := Decode(aead, key, tail, skip0);
      var rest := Remaining(aead, key, err, plaintext, tail[|SectorOf(tail)|..], skip);
      && (d.Some? ==> e.None? || e == Some(EOF))
      && (d.Some? && e.None? ==> rest.Some? && d.value == out + rest.value)
      && (e == Some(EOF) ==> out == [] && tail == [])
      && (d.None? ==> e != Some(EOF) && (e.None? ==> rest.None?))
  {
    var c := SectorOf(tail);
    if c != [] && Decrypt(aead, key, c).Ok? {
      var pt := Decrypt(aead, key, c).value;
      if 0 <= skip0 <= |pt| {
        assert pt[skip0..] == out + plaintext;
        if |c| == SectorSize {
          assert tail[|c|..] == tail[SectorSize..];
          var later := Decode(aead, key, tail[SectorSize..], 0);
          if later.Some? {
            assert pt[skip0..] + later.value == out + (plaintext + later.value);
          }
        }
      }
    }
  }

  class Reader {
    const aead: Aead
    const key: Key
    /** The ciphertext the underlying reader serves. */
    const src: seq<byte>
    /** Whether the underlying reader is an io.Seeker. */
    const seekable: bool
    const sizing: Sizing
    /** Position of the underlying reader in `src`; a seek may leave it past the end. */
    var cursor: nat
    var offset: int
    var skip: int
    var plaintext: seq<byte>
    var err: Option<Error>

    /** The only error the reader ever latches is EOF. */
    ghost predicate Valid()
      reads this
    {
      err == None || err == Some(EOF)
    }

    /** The ciphertext not yet pulled from the underlying reader. */
    ghost function Tail(): seq<byte>
      reads this
    {
      Suffix(src, cursor)
    }

    /** What the remaining calls to Read hand out before they report EOF, or None when one
        of them will fail: the pending plaintext, then (unless EOF is latched) the decoding
        of the rest of the source. */
    ghost function Rest(): Option<seq<byte>>
      reads this
    {
      Remaining(aead, key, err, plaintext, Tail(), skip)
    }

    /** NewReader, over a source with the given capabilities. */
    constructor (aead: Aead, key: Key, src: seq<byte>, seekable: bool, sizing: Sizing)
      ensures Valid() && Rest() == Decode(aead, key, src, 0)
      ensures this.aead == aead && this.key == key && this.src == src
      ensures this.seekable == seekable && this.sizing == sizing
      ensures cursor == 0 && offset == 0 && skip == 0 && plaintext == [] && err == None
    {
      this.aead := aead;
      this.key := key;
      this.src := src;
      this.seekable := seekable;
      this.sizing := sizing;
      cursor := 0;
      offset := 0;
      skip := 0;
      plaintext := [];
      err := None;
      new;
      assert Tail() == src;
      var d := Decode(aead, key, src, 0);
      if d.Some? {
        assert [] + d.value == d.value;
      }
    }

    /** Hands out pending plaintext if there is any; otherwise, unless an error is latched,
        reads the next sector, opens it, drops `skip` bytes and hands out what fits in `p`.
        A read that comes up short latches EOF; one that comes up empty returns it. */
    method Read(p: array<byte>) returns (n: nat, e: Option<Error>)
      requires Valid()
      modifies this, p
      ensures Valid() && n <= p.Length && offset == old(offset) + n
      ensures p[n..] == old(p[n..])
      ensures |old(plaintext)| > 0 ==>
        && e.None? && n == Min(p.Length, |old(plaintext)|) && p[..n] == old(plaintext)[..n]
        && plaintext == old(plaintext)[n..]
        && cursor == old(cursor) && skip == old(skip) && err == old(err)
      ensures |old(plaintext)| == 0 && old(err).Some? ==>
        && n == 0 && e == old(err) && plaintext == []
        && cursor == old(cursor) && skip == old(skip) && err == old(err)
      ensures |old(plaintext)| == 0 && old(err).None? ==>
        cursor == old(cursor) + |SectorOf(old(Tail()))| && Refilled(old(Tail()), old(skip), p, n, e)
      ensures old(Rest()).Some? ==> e.None? || e == Some(EOF)
      ensures old(Rest()).Some? && e.None? ==> Rest().Some? && old(Rest()).value == p[..n] + Rest().value
      ensures e == Some(EOF) ==> n == 0 && old(Rest()) == Some([])
      ensures old(Rest()).None? ==> e != Some(EOF) && (e.None? ==> Rest().None?)
      ensures e.None? && p.Length > 0 ==>
        |Tail()| < |old(Tail())| || (|Tail()| == |old(Tail())| && |plaintext| < |old(plaintext)|)
    {
      if |plaintext| > 0 {
        n, e := Drain(p);
      } else if err.Some? {
        n, e := 0, err;
      } else {
        ghost var d := Decode(aead, key, Tail(), skip);
        assert d.Some? ==> Rest() == Some([] + d.value) && [] + d.value == d.value;
        n, e := Refill(p);
      }
    }

    /** The state after a refill that read the sector `SectorOf(tail)` with `skip` pending:
        where the source stands, what was latched, and what was handed out. */
    ghost predicate Refilled(tail: seq<byte>, skip0: int, p: array<byte>, n: nat, e: Option<Error>)
      reads this, p
      requires n <= p.Length
    {
      && Tail() == tail[|SectorOf(tail)|..]
      && Stepped(aead, key, tail, skip0, p.Length, p[..n], e, err, plaintext, skip)
    }

    /** `n = copy(p, r.plaintext)` and the reslice that follows. */
    method Drain(p: array<byte>) returns (n: nat, e: Option<Error>)
      requires Valid() && |plaintext| > 0
      modifies this, p
      ensures Valid() && e.None? && n == Min(p.Length, |old(plaintext)|) && offset == old(offset) + n
      ensures p[..n] == old(plaintext)[..n] && p[n..] == old(p[n..])
      ensures plaintext == old(plaintext)[n..]
      ensures cursor == old(cursor) && skip == old(skip) && err == old(err)
      ensures old(Rest()).Some? ==> Rest().Some? && old(Rest()).value == p[..n] + Rest().value
      ensures old(Rest()).None? ==> Rest().None?
    {
      n := Min(p.Length, |plaintext|);
      CopyOut(p, plaintext, n);
      assert plaintext == plaintext[..n] + plaintext[n..];
      plaintext := plaintext[n..];
      offset := offset + n;
      e := None;
    }

    /** Reads the next sector with io.ReadFull, opens it, and hands out its plaintext from
        `skip` on. */
    method Refill(p: array<byte>) returns (n: nat, e: Option<Error>)
      requires Valid() && plaintext == [] && err.None?
      modifies this, p
      ensures Valid() && n <= p.Length && offset == old(offset) + n
      ensures p[n..] == old(p[n..])
      ensures cursor == old(cursor) + |SectorOf(old(Tail()))|
      ensures Refilled(old(Tail()), old(skip), p, n, e)
      ensures
        var d := Decode(aead, key, old(Tail()), old(skip));
        && (d.Some? ==> e.None? || e == Some(EOF))
        && (d.Some? && e.None? ==> Rest().Some? && d.value == p[..n] + Rest().value)
        && (e == Some(EOF) ==> n == 0 && old(Tail()) == [])
        && (d.None? ==> e != Some(EOF) && (e.None? ==> Rest().None?))
      ensures e.None? && p.Length > 0 ==> |Tail()| < |old(Tail())|
    {
      ghost var tail := Tail();
      var tmp := SectorOf(Suffix(src, cursor));
      cursor := cursor + |tmp|;
      assert Tail() == tail[|tmp|..];
      if |tmp| < SectorSize {
        err := Some(EOF);
      }
      if |tmp| == 0 {
        n, e := 0, Some(EOF);
      } else {
        n, e := Open(p, tmp);
      }
      StepRemaining(aead, key, tail, old(skip), p.Length, p[..n], e, err, plaintext, skip);
    }

    /** decrypt, then `n = copy(p, r.plaintext[r.skip:])`, the reslice and the reset of
        `skip`. Cutting at a `skip` outside the chunk is a Go panic, modelled as an error
        that leaves the decrypted chunk pending. */
    method Open(p: array<byte>, c: seq<byte>) returns (n: nat, e: Option<Error>)
      modifies this`plaintext, this`skip, this`offset, p
      ensures n <= p.Length && offset == old(offset) + n && p[n..] == old(p[n..])
      ensures Opened(aead, key, c, old(skip), p.Length, p[..n], e, plaintext, skip)
    {
      match Decrypt(aead, key, c)
      case Err(x) =>
        plaintext := [];
        return 0, Some(x);
      case Ok(pt) =>
        if skip < 0 || skip > |pt| {
          plaintext := pt;
          return 0, Some(SkipOutOfRange);
        }
        n := Min(p.Length, |pt| - skip);
        CopyOut(p, pt[skip..], n);
        assert pt[skip..] == pt[skip..skip + n] + pt[skip + n..];
        plaintext := pt[skip + n..];
        skip := 0;
        offset := offset + n;
        e := None;
    }

    /** The physical size of the source, when it can report one. */
    function SourceSize(): (r: Result<int, Error>)
      reads this
      ensures r.Ok? ==> r.value == |src|
      ensures r.Err? <==> sizing == NoSizer || sizing == StatSizer(true)
      ensures r.Err? ==> r.error == if sizing == NoSizer then SeekEndUnsupported else StatFailed
    {
      match sizing
      case Sizer => Ok(|src|)
      case StatSizer(fails) => if fails then Err(StatFailed) else Ok(|src|)
      case NoSizer => Err(SeekEndUnsupported)
    }

    /** Moves the source to the start of the sector holding the target and primes `skip`
        so that the next decrypted chunk is cut at the target. Pending plaintext is dropped;
        a latched EOF is kept. */
    method Seek(offset: int, whence: int) returns (pos: int, e: Option<Error>)
      requires Valid()
      modifies this
      ensures Valid()
      ensures !seekable ==> pos == 0 && e == Some(SeekUnsupported)
      ensures seekable ==>
        match SeekTarget(whence, offset, old(this.offset), SourceSize())
        case Err(x) => pos == 0 && e == Some(x)
        case Ok(t) =>
          if t.offset < 0 then pos == 0 && e == Some(NegativePosition)
          else
            && e.None? && pos == t.offset && this.offset == t.offset
            && cursor == GetSectorStart(t.offset)
            && skip == (if t.overshot then t.lastChunkSize else GoRem(t.offset, ChunkSize))
            && plaintext == [] && err == old(err)
      ensures e.Some? ==> unchanged(this)
    {
      if !seekable {
        return 0, Some(SeekUnsupported);
      }
      match SeekTarget(whence, offset, this.offset, SourceSize())
      case Err(x) =>
        return 0, Some(x);
      case Ok(t) =>
        if t.offset < 0 {
          return 0, Some(NegativePosition);
        }
        cursor := GetSectorStart(t.offset);
        skip := if t.overshot then t.lastChunkSize else GoRem(t.offset, ChunkSize);
        this.offset := t.offset;
        plaintext := [];
        return t.offset, None;
    }
  }
}
