/** Seek arithmetic: the map from a logical (plaintext) offset to the physical start of the
    sector holding it, the plaintext size derived from a physical size, and the target a
    `whence`/offset pair selects. All of it is pure integer logic over Go's int64, whose
    division truncates toward zero. */
module Sectors {
  import opened Common
  import opened Codec

  /** io.SeekStart, io.SeekCurrent and io.SeekEnd. */
  const SeekStart := 0
  const SeekCurrent := 1
  const SeekEnd := 2

  /** Go's `/` on integers: the quotient truncated toward zero. */
  function GoQuot(a: int, b: int): (q: int)
    requires b > 0
    ensures a >= 0 ==> q == a / b
    ensures a < 0 ==> q == -((-a) / b)
  {
    if a >= 0 then a / b else -((-a) / b)
  }

  /** Go's `%` on integers: the remainder takes the sign of the dividend. */
  function GoRem(a: int, b: int): (r: int)
    requires b > 0
    ensures a >= 0 ==> r == a % b
  {
    a - GoQuot(a, b) * b
  }

  /** Physical offset of the first byte of the sector holding logical offset `offset`. */
  function GetSectorStart(offset: int): (start: int)
    ensures offset >= 0 ==> start >= 0 && start % SectorSize == 0
    ensures offset >= 0 ==>
      (start / SectorSize) * ChunkSize <= offset < (start / SectorSize) * ChunkSize + ChunkSize
  {
    GoQuot(offset, ChunkSize) * SectorSize
  }

  /** A non-negative logical offset t lies t % ChunkSize bytes into chunk t / ChunkSize,
      whose sector starts at byte (t / ChunkSize) * SectorSize of the stream. */
  lemma SectorOfOffset(t: int)
    requires t >= 0
    ensures t == (t / ChunkSize) * ChunkSize + t % ChunkSize
    ensures 0 <= (t / ChunkSize) * ChunkSize <= t
    ensures GetSectorStart(t) == (t / ChunkSize) * SectorSize
    ensures GoRem(t, ChunkSize) == t % ChunkSize
  {
  }

  /** Plaintext length of the last chunk of a stream `size` bytes long, as Seek computes it
      (negative, -28, when `size` is a multiple of SectorSize). */
  function LastChunkSize(size: int): (last: int)
    ensures size >= 0 ==> -Overhead <= last < ChunkSize
    ensures size >= 0 ==> size == GoQuot(size, SectorSize) * SectorSize + last + Overhead
  {
    GoRem(size, SectorSize) - Overhead
  }

  /** Plaintext length of a stream `size` bytes long, as Seek computes it. */
  function DataSize(size: int): (data: int)
    ensures size >= 0 ==> data == size - Overhead * (size / SectorSize + 1)
  {
    GoQuot(size, SectorSize) * ChunkSize + LastChunkSize(size)
  }

  /** Where a seek lands and how it primes the reader: the new logical offset, whether it
      overshot the end of the data, and the last chunk's length when whence was SeekEnd. */
  datatype Target = Target(offset: int, overshot: bool, lastChunkSize: int)

  /** The target of Seek(offset, whence) for a reader at logical position `current`; `size`
      is what the source reported when asked for its physical size. Any whence other than
      SeekCurrent and SeekEnd counts as SeekStart. */
  function SeekTarget(whence: int, offset: int, current: int, size: Result<int, Error>): (r: Result<Target, Error>)
    ensures whence != SeekEnd ==> r.Ok? && !r.value.overshot
    ensures whence != SeekCurrent && whence != SeekEnd ==> r.value.offset == offset
    ensures whence == SeekCurrent ==> r.value.offset == current + offset
    ensures whence == SeekEnd ==> (r.Ok? <==> size.Ok?)
    ensures whence == SeekEnd && size.Err? ==> r.error == size.error
    ensures whence == SeekEnd && size.Ok? ==>
      && r.value.offset == DataSize(size.value) + offset
      && r.value.lastChunkSize == LastChunkSize(size.value)
      && (r.value.overshot <==> offset > 0)
  {
    if whence == SeekCurrent then Ok(Target(offset + current, false, 0))
    else if whence == SeekEnd then
      match size
      case Err(e) => Err(e)
      case Ok(sz) =>
        var dataSize := DataSize(sz);
        var newOffset := dataSize + offset;
        Ok(Target(newOffset, newOffset > dataSize, LastChunkSize(sz)))
    else Ok(Target(offset, false, 0))
  }

  /** A stream of k full sectors followed by a final sector holding L plaintext bytes is
      read back by Seek as holding k * ChunkSize + L bytes. */
  lemma DataSizeInverts(k: nat, last: nat)
    requires last < ChunkSize
    ensures LastChunkSize(k * SectorSize + last + Overhead) == last
    ensures DataSize(k * SectorSize + last + Overhead) == k * ChunkSize + last
  {
    var size := k * SectorSize + last + Overhead;
    assert size / SectorSize == k;
  }

  /** For a plaintext whose last chunk is partial, Seek's size arithmetic recovers the
      plaintext length from the length of the writer's output. */
  lemma DataSizeOfCipherLength(n: nat)
    requires n % ChunkSize != 0
    ensures CipherLength(n) == (n / ChunkSize) * SectorSize + n % ChunkSize + Overhead
    ensures LastChunkSize(CipherLength(n)) == n % ChunkSize
    ensures DataSize(CipherLength(n)) == n
  {
    var k := n / ChunkSize;
    assert ChunkCount(n) == k + 1;
    assert CipherLength(n) == k * SectorSize + n % ChunkSize + Overhead;
    DataSizeInverts(k, n % ChunkSize);
  }

  /** As written, Seek's size arithmetic is 28 bytes short when the plaintext fills its last
      chunk exactly, and gives -28 for an empty stream. */
  lemma DataSizeShortOnFullLastChunk(n: nat)
    requires n % ChunkSize == 0
    ensures LastChunkSize(CipherLength(n)) == -Overhead
    ensures DataSize(CipherLength(n)) == n - Overhead
  {
    var k := n / ChunkSize;
    assert ChunkCount(n) == k;
    assert CipherLength(n) == k * SectorSize;
    assert GoQuot(k * SectorSize, SectorSize) == k;
  }

  /** A logical offset past the end of a plaintext whose last chunk is partial, and in a
      later chunk, maps to a sector at or beyond the end of the stream. */
  lemma SectorPastEnd(n: nat, t: int)
    requires n % ChunkSize != 0 && n <= t && t / ChunkSize != n / ChunkSize
    ensures GetSectorStart(t) >= CipherLength(n)
  {
    DataSizeOfCipherLength(n);
    SectorOfOffset(t);
    var k, j := n / ChunkSize, t / ChunkSize;
    assert j >= k + 1;
    assert j * SectorSize >= (k + 1) * SectorSize;
  }

  /** When the plaintext fills its last chunk, an offset within that chunk maps to the
      stream's last sector. */
  lemma LastSectorOfFull(n: nat, t: int)
    requires n % ChunkSize == 0 && 0 < n && n - ChunkSize <= t < n
    ensures t >= 0 && GetSectorStart(t) == CipherLength(n) - SectorSize
  {
    var k := n / ChunkSize;
    assert n == k * ChunkSize;
    assert ChunkCount(n) == k;
    assert t / ChunkSize == k - 1;
    assert CipherLength(n) == k * SectorSize;
  }

  /** The plaintext size Seek evidently intends: a stream that is a whole number of sectors
      ends with a full chunk, not with a chunk of -28 bytes. */
  function PlainSize(size: nat): (data: int)
    ensures data == size - Overhead * ((size + SectorSize - 1) / SectorSize)
    ensures size % SectorSize == 0 ==> data >= 0
  {
    if size % SectorSize == 0 then (size / SectorSize) * ChunkSize else DataSize(size)
  }

  lemma PlainSizeOfCipherLength(n: nat)
    ensures PlainSize(CipherLength(n)) == n
  {
    if n % ChunkSize == 0 {
      var k := n / ChunkSize;
      assert ChunkCount(n) == k;
      assert CipherLength(n) == k * SectorSize;
      assert (k * SectorSize) / SectorSize == k;
    } else {
      DataSizeOfCipherLength(n);
      var k := n / ChunkSize;
      assert CipherLength(n) == k * SectorSize + n % ChunkSize + Overhead;
      assert CipherLength(n) % SectorSize == n % ChunkSize + Overhead;
    }
  }
}
