# Chunked stream encryption, modelled in Dafny

This project models the Go package `encrypt` (`encrypt.go`). The package encrypts a byte
stream in chunks of 65504 plaintext bytes. Each chunk is sealed with AES-256-GCM and
written as `nonce(12) || ciphertext || tag(16)`, a sector of at most 65532 bytes.

- A `Writer` buffers caller bytes in a fixed chunk array. It seals and sends every full
  chunk, and `Close` seals the final short one.
- A `Reader` pulls one sector at a time from its source, opens it and hands out the
  plaintext. A short read marks the last sector.
- `Seek` maps a plaintext offset to the start of the sector that holds it, and tells the
  next read how many decrypted bytes to drop (`skip`). For `SeekEnd` it derives the
  plaintext size from the physical size of the source.
- Keys are written as standard base64 with padding (section 4 of RFC 4648).
  `DecodeBase64Key` rejects text that decodes to anything but 32 bytes.

The model has seven modules, one per file:

| module | file | contents |
|---|---|---|
| `Common` | `common.dfy` | bytes, `Option`, `Result`, and the error kinds as one enumeration |
| `Codec` | `codec.dfy` | the constants, the abstract AEAD with its two axioms as the hypothesis `Sound`, the framing of one chunk (`Encrypt`/`Decrypt`), a stream as the concatenation of sealed frames, and the unique well-chunked split of a plaintext |
| `Sectors` | `sectors.dfy` | Go's truncating `/` and `%`, `getSectorStart`, the `SeekEnd` size arithmetic as written, the target that `whence` selects, and the plaintext size the arithmetic evidently intends |
| `Keys` | `keys.dfy` | the length check of `DecodeBase64Key` over an abstract base64 codec, and `Key.String` |
| `Writing` | `writer.dfy` | the underlying writer (`Sink`: an appended buffer that counts calls and can fail on a chosen call, like the tests' `badWriter`) and the `Writer` class |
| `Reading` | `reader.dfy` | `Decode`, which specifies what a reader hands out from a stretch of ciphertext, and the `Reader` class over a source held as a byte sequence and a cursor |
| `Validation` | `validation.dfy` | the round trip, where seeks land, the `SeekEnd` quirks, `io.ReadAll`, and the scenarios of the package's tests |

The Writer is a class with the chunk as an `array<byte>` and `pos`, `closed` and a nonce
counter as fields. Two ghost fields, `frames` and `base`, record what the sink has
accepted. `Valid()` ties the state together:

- the sink holds its earlier contents followed by the sealed frames;
- the frames are well chunked: none is empty, and all but the last are full;
- `pos < ChunkSize` between calls;
- a closed writer buffers nothing.

The Reader is a class with the fields `cursor`, `offset`, `skip`, `plaintext` and `err`.
`Rest()` is everything the remaining `Read` calls will hand out before EOF, or `None` if one
of them will fail. `Read` is proved to hand out a prefix of `Rest()` and keep the rest.

Random nonces come from a function parameter, `entropy: nat -> Nonce`. The writer draws
the i-th nonce at its i-th seal.

## Model

| member | source | states |
|---|---|---|
| `Codec.Encrypt` | encrypt.go:121-143 | a sealed chunk starts with the 12-byte nonce it was sealed under |
| `Codec.Decrypt` | encrypt.go:199-219 | input shorter than 12 bytes is `MalformedCiphertext`; otherwise it succeeds exactly when the AEAD opens the bytes after the nonce under that nonce, and then returns what the AEAD opened; the only other error is an authentication failure |
| `Codec.EncryptLength` | encrypt.go:136-142 | a sealed chunk is its plaintext length plus 28 bytes |
| `Codec.DecryptEncrypt` | encrypt.go:121-143 | decrypting a sealed chunk gives its plaintext back, under the AEAD hypothesis |
| `Codec.Chunked` | encrypt.go:70-83 | the split of a plaintext into chunks is well chunked and concatenates back to the plaintext |
| `Codec.ChunkedUnique` | encrypt.go:64-94 | any well-chunked split of a plaintext is `Chunked` of it, so the framing depends on the plaintext alone |
| `Codec.FrameAppend` | encrypt.go:97-116 | appending one non-empty chunk of at most `ChunkSize` bytes after a full chunk keeps the frames well chunked, and extends the stream by its sealed form and the plaintext by its bytes |
| `Codec.ChunkCountOf` | encrypt.go:70-94 | a well-chunked split of n bytes has exactly ceil(n / 65504) chunks |
| `Codec.StreamOverhead` | encrypt.go:136-142 | a stream of k frames is its plaintext length plus 28·k bytes long |
| `Codec.StreamLength` | encrypt.go:97-116 | the output for N plaintext bytes is N + 28·ceil(N / 65504) bytes long, and 0 bytes for N = 0 |
| `Sectors.GetSectorStart` | encrypt.go:332-335 | for a non-negative offset the result is a sector boundary, and the chunk that starts there contains the offset |
| `Sectors.SectorOfOffset` | encrypt.go:318 | a non-negative offset t is t % 65504 bytes into chunk t / 65504, whose sector starts at (t / 65504)·65532 |
| `Sectors.LastChunkSize` | encrypt.go:288 | for a non-negative size the last-chunk size lies in [-28, 65504), and the size is whole sectors plus that chunk and its 28 bytes of overhead; `Sectors.DataSizeShortOnFullLastChunk` shows it is -28 on the output of a plaintext whose last chunk is full |
| `Sectors.DataSize` | encrypt.go:289 | for a non-negative size the data size is the size less 28 bytes for every whole sector and 28 more for a last, partial (possibly empty) one; `Sectors.DataSizeInverts` shows it inverts a partial last chunk |
| `Sectors.SeekTarget` | encrypt.go:263-293 | `SeekCurrent` targets the current offset plus the offset; `SeekEnd` targets the derived data size plus the offset, fails exactly when the size is unavailable, and overshoots exactly when the offset is positive; any other whence targets the offset itself |
| `Sectors.DataSizeInverts` | encrypt.go:287-293 | for k full sectors followed by a sector holding L < 65504 plaintext bytes, the last-chunk size is L and the data size is 65504·k + L |
| `Sectors.DataSizeOfCipherLength` | encrypt.go:287-293 | when the last chunk is partial, the size arithmetic recovers the plaintext length from the writer's output length |
| `Sectors.DataSizeShortOnFullLastChunk` | encrypt.go:288-289 | as written, when the plaintext fills its last chunk (or is empty) the last-chunk size is -28 and the data size is 28 short |
| `Sectors.SectorPastEnd` | encrypt.go:332-335 | past the end of a partial last chunk, an offset in a later chunk maps to a sector at or beyond the end of the stream |
| `Sectors.LastSectorOfFull` | encrypt.go:332-335 | when the last chunk is full, an offset inside it maps to the stream's last sector |
| `Sectors.PlainSize` | encrypt.go:287-293 | the corrected size: the physical size less 28 bytes for each sector it starts, never negative on a whole number of sectors; `Sectors.PlainSizeOfCipherLength` shows it inverts the writer's output length |
| `Sectors.PlainSizeOfCipherLength` | encrypt.go:287-293 | the corrected size arithmetic recovers the plaintext length from every output length, including full last chunks and the empty stream |
| `Keys.KeyString` | encrypt.go:233-235 | under the base64 hypothesis, the text decodes back to exactly the key's 32 bytes |
| `Keys.OctetCodecSound` | encrypt.go:233-246 | the base64 hypothesis is consistent: a byte-per-character codec satisfies it |
| `Keys.CopyKey` | encrypt.go:244 | the key holds the decoded bytes, truncated or zero-padded to 32 |
| `Keys.DecodeBase64Key` | encrypt.go:238-246 | the error is none exactly when the text decodes to 32 bytes, in which case the key is those bytes; corrupt text gives the decode error, and any other length gives `InvalidKeyLength`; in every case the key is the decoded bytes (or the prefix decoded before the corruption) truncated or zero-padded to 32 |
| `Keys.KeyTextRoundTrip` | encrypt.go:233-246 | decoding a key's text gives the key back with no error |
| `Writing.Sink.constructor` | encrypt_test.go:185-188 | a fresh sink is empty, with no calls yet and the given failing call |
| `Writing.Sink.Write` | encrypt_test.go:190-196 | each call is counted; the call numbered `failAt` accepts nothing and fails, and every other call appends all its bytes |
| `Writing.Writer.constructor` | encrypt.go:42-47 | a new writer is open and empty, has drawn no nonce, and is valid over whatever the sink already holds |
| `Writing.Writer.Write` | encrypt.go:64-84 | on a closed writer it returns (0, error) and changes nothing; otherwise each chunk sent carries exactly 65504 bytes, and one nonce and one sink call are used per seal. On success n = len(p) and the accepted plus buffered bytes grow by p. On a sink failure, n counts only the bytes of earlier, delivered chunks, the failed chunk is dropped, and the buffer is empty |
| `Writing.Writer.Fill` | encrypt.go:71-81 | one loop turn copies 1..len(rest) bytes into the chunk and seals at most one chunk, which is full; when bytes of `rest` are left over, the chunk filled and was sent, and the buffer is empty |
| `Writing.Writer.CopyIn` | encrypt.go:71-72 | the pending chunk grows by exactly the first nn bytes of the input |
| `Writing.Writer.Flush` | encrypt.go:97-116 | an empty buffer emits nothing and succeeds; otherwise it draws one nonce and makes one sink call, the sink gains the sealed buffer exactly when that call succeeds, and `pos` is 0 either way |
| `Writing.Writer.Seal` | encrypt.go:101-115 | the non-empty case of flush: one nonce, one sink call, and on success one more frame holding the buffered bytes |
| `Writing.Writer.Close` | encrypt.go:89-94 | the writer is closed and empty afterwards; the final, possibly short, chunk is emitted if and only if bytes were buffered, so a second Close emits nothing and succeeds |
| `Reading.Suffix` | encrypt.go:300-303 | the source from a position on; past the end nothing is left |
| `Reading.SectorOf` | encrypt.go:178-181 | `io.ReadFull` of a sector buffer takes min(65532, remaining) bytes from the front |
| `Reading.Decode` | encrypt.go:168-194 | the reference definition of what reads hand out: an empty source gives nothing; a sector that does not open, or a negative skip, makes it fail; a single (last) sector gives its plaintext from `skip` on, and fails exactly when it does not open or `skip` is outside it. `Validation.DecodeWriterStream` and `Validation.SeekLands` tie it to the writer's plaintext |
| `Reading.CopyOut` | encrypt.go:171 | `copy` writes the first n bytes and leaves the rest of the buffer alone |
| `Reading.StepRemaining` | encrypt.go:178-193 | one refill hands out a prefix of what the reader had left to give and keeps the rest; EOF only when nothing was left, and an error exactly when the rest cannot be decoded |
| `Reading.Reader.constructor` | encrypt.go:147-152 | a new reader is at offset 0 with nothing pending, and what it will hand out is the decoding of the whole source |
| `Reading.Reader.Read` | encrypt.go:168-194 | `offset` grows by exactly n, and the buffer beyond n is untouched. Pending plaintext is drained first. Once an error is latched and nothing is pending, it returns (0, err). Otherwise it reads one sector: a short read latches EOF, and an empty one returns (0, EOF). `skip` bytes are dropped only from the freshly decrypted chunk and then reset to 0. What it returns is a prefix of `Rest()`, and the rest stays for later calls |
| `Reading.Reader.Drain` | encrypt.go:170-174 | hands out min(len(p), pending) pending bytes and touches nothing else |
| `Reading.Reader.Refill` | encrypt.go:178-193 | reads exactly one sector and latches EOF on a short read; returns (0, EOF) when nothing was read; otherwise opens the sector and hands out a prefix of what was left |
| `Reading.Reader.Open` | encrypt.go:187-192 | a decrypt error leaves nothing pending; a skip outside the chunk is an error (a panic in Go) with the chunk pending; otherwise it copies what fits from `skip` on, keeps the rest pending and resets `skip` |
| `Reading.Reader.SourceSize` | encrypt.go:275-286 | a `Size()` source reports its length; a `Stat()` source reports its length or the stat error; any other source cannot seek from the end |
| `Reading.Reader.Seek` | encrypt.go:255-323 | a non-seekable source, an unavailable size or a negative target is an error that changes nothing; otherwise the source moves to the target's sector start, `skip` is the offset within that chunk (the last-chunk size after an overshoot), `offset` is the target, pending plaintext is dropped, and a latched EOF stays |
| `Validation.DecodeChunk` | encrypt.go:178-193 | a sector-sized read of a stream that starts with a sealed chunk takes exactly that chunk |
| `Validation.DecodeStream` | encrypt.go:178-193 | decoding a writer's stream with `skip` dropped from the first chunk gives the written plaintext from `skip` on |
| `Validation.DecodeWriterStream` | encrypt_test.go:162-183 | a reader over the whole of a writer's output hands out exactly the plaintext written |
| `Validation.StreamDrop` | encrypt.go:332-335 | k full chunks of plaintext occupy exactly k whole sectors of the stream |
| `Validation.PlainDrop` | encrypt.go:318 | after k full chunks the rest of the plaintext is that of the later frames, which are still well chunked |
| `Validation.ChunkOfOffset` | encrypt.go:318 | an offset within the data lies in the chunk that `offset / 65504` names, and all chunks before it are full |
| `Validation.SeekLands` | encrypt.go:300-321 | after a seek to any offset within the data, the reader hands out the plaintext from exactly that offset on |
| `Validation.DecodeNegativeSkip` | encrypt.go:190 | a negative skip makes the next read of a non-empty source fail |
| `Validation.SeekEndPastEnd` | encrypt.go:287-293 | with a partial last chunk, `SeekEnd` with a positive offset overshoots to data size + offset, and the reader then hands out nothing |
| `Validation.SeekStartPastEndFails` | encrypt.go:190-191 | a `SeekStart` past the end of the data but inside a partial last chunk makes the next read fail (a panic in Go) |
| `Validation.SeekEndShortOfEnd` | encrypt.go:287-293 | as written, `Seek(0, SeekEnd)` on a stream whose last chunk is full lands 28 bytes before the end, and the reader hands those 28 bytes out again |
| `Validation.SeekEndPastFullChunkFails` | encrypt.go:288 | as written, `SeekEnd` with an offset of 1..27 on such a stream sets `skip` to -28, and the next read fails |
| `Validation.SeekEndLands` | encrypt.go:287-293 | with the corrected size, `SeekEnd` with offset -m lands on the last m bytes of the plaintext, and offset 0 on its end |
| `Validation.ReadAll` | encrypt_test.go:171-178 | `io.ReadAll` over a reader gives exactly `Rest()` with no error when that is defined, and a non-EOF error otherwise |
| `Validation.EncryptAll` | encrypt_test.go:163-170 | one Write of the whole plaintext and a Close succeed; the output is the sealed chunks of `Chunked(plaintext)`, it is N + 28·ceil(N / 65504) bytes long, and it decodes to the plaintext |
| `Validation.EncryptValidate` | encrypt_test.go:162-183 | the round trip always succeeds: the plaintext read back equals the plaintext written |
| `Validation.SeekThenReadAll` | encrypt.go:270-271 | a seek with `SeekStart` to any offset within the data returns that offset, and reading on gives the plaintext from there |
| `Validation.SeekKeepsEof` | encrypt.go:175-177 | after EOF is latched, a seek succeeds but the next Read still returns (0, EOF) |
| `Validation.SecondWriteFails` | encrypt_test.go:142-149 | with a sink whose second call fails, one Write of at least two chunks returns exactly 65504 and the sink's error |
| `Validation.WriteCloseTwice` | encrypt_test.go:121-141 | Write then Close succeed; a second Close succeeds and emits nothing; a later Write returns (0, error); the sink holds the one sealed chunk, or nothing for an empty message |

## Left out

- AES-GCM itself (encrypt.go:122-134, 200-218) is foreign cryptography. The model keeps an abstract seal/open pair with two hypotheses: the tag is 16 bytes, and open undoes seal. Tamper detection is a cryptographic claim and is not modelled.
- `crypto/rand` and `NewKey` (encrypt.go:136-139, 223-226) are randomness. Nonces come from the `entropy` parameter. The failure of `rand.Read` is not modelled.
- The `encoding/base64` codec (encrypt.go:234, 240) is a library call. It is an abstract encode/decode pair whose only hypothesis is that decoding an encoding gives the bytes back. `Keys.OctetCodecSound` shows the hypothesis can be met.
- The runtime type assertions for `io.Seeker`, `sizer` and `statSizer` (encrypt.go:259-261, 275-286) are a `seekable` flag and a `Sizing` value of the reader.
- The underlying seek (encrypt.go:302-309) always succeeds at the requested position, so neither its error nor the position-mismatch check is modelled.
- A sink that accepts fewer bytes than asked without an error ("write size mismatch", encrypt.go:111-114) is not modelled. The model's sink takes all the bytes or fails.
- Read errors other than EOF from the underlying reader (encrypt.go:180) cannot come from a source held as a byte sequence.
- `int64` overflow of offsets and sizes is not modelled. Integers are unbounded.
- Error texts and `fmt.Errorf` wrapping are not modelled. Errors are one enumeration.
- `ExampleNewWriter` and the file-backed test fixtures (encrypt_test.go:21-29, 198-236) are file I/O.
- `io.ReadAll` is modelled with a fixed, positive buffer size. Its buffer growth policy is not modelled.
- `io.Copy` from a `bytes.Reader` is modelled as the single `Write` call it makes.
- The tests call `encrypt.KeyFromBase64` (encrypt_test.go:65, 100). The source defines `DecodeBase64Key` (encrypt.go:238), and the model follows the source.
- `Reading.Reader.Read`: the Go panic at `r.plaintext[r.skip:]` (encrypt.go:190) is an error result, `SkipOutOfRange`. It leaves the decrypted chunk pending and `skip` unchanged, which is the state the panic would find.
- `Reading.Reader.Seek` keeps the size arithmetic as written (see Findings). The corrected size is used only in `Validation.SeekEndLands`.

## Findings

| source | as written | input that shows it | evidently intended | confidence | as-written member | corrected member |
|---|---|---|---|---|---|---|
| encrypt.go:287-293 | `lastChunkSize = size % sectorSize - 28`, so a stream that is a whole number of sectors is read as ending in a chunk of -28 bytes | a plaintext of exactly 65504 bytes (one full chunk, 65532 bytes of output): `Seek(0, io.SeekEnd)` returns 65476 rather than 65504, and the next reads hand out the last 28 bytes again; `Seek(5, io.SeekEnd)` sets `skip = -28`, and the next Read panics; an empty stream gives a data size of -28 | a stream that is a whole number of sectors ends with a full chunk, so the data size is (size / 65532)·65504 | not executed | `Validation.SeekEndShortOfEnd` | `Validation.SeekEndLands` |
