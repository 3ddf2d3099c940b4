# A verified model of the sync532 compressor and decompressor

The repository sends a file to a server in packets; the server cuts each packet into
content-defined chunks, sends a chunk already seen as a reference and a new one compressed
with LZW, and a separate decoder turns the resulting file back. This project models that
path in Dafny and proves what it keeps, and exactly when it loses something.

| module | part of the system |
|---|---|
| `Bytes`, `Bits` | byte strings; the C operators `&`, `\|`, `<<`, `>>` digit by digit |
| `LzwCoding` | the string table and the codes the encoder emits; the reference notion of an LZW parse |
| `LzwDecoding` | the decoder's table, its lock-step agreement with the encoder, LZW round trip |
| `LzwLimit` | the exact chunk length up to which 13-bit codes suffice |
| `Packing` | codes as a bit stream, its bytes, and reading them back |
| `Lzw` | the imperative encoder: table loop, eight-state packer, flush and padding |
| `Decoder` | the imperative bit reader, `Decompress`, and the record loop |
| `Chunking` | the window hash, chunk ends and chunks, and how buffers that end alike are cut |
| `Dedup` | the persistent digest map |
| `Framing` | record headers, the records of a file, and what the decoder makes of them |
| `Encoder` | the chunk loop of `encode` writing records in place |
| `RoundTrip` | what the decoder writes for each record of a run, and when that is its chunk |
| `Ids` | the ids digests are recorded under: documented and actual |
| `Client`, `Server` | packet segmentation and headers; the receiving loop |
| `EndToEnd` | the whole path |
| `BlockLimit`, `LostFile` | the block sizes up to which compression loses nothing; files the recorded ids lose |

The imperative parts are methods over arrays and fields, each proved equal to a
specification function; the laws are lemmas about those functions. An integer model of the
bit operators is used throughout, and every store into an `unsigned char` is reduced
modulo 256 as in C.

`dafny verify dfyconfig.toml` checks the whole project with Dafny 4.11.

## What the proofs say

* **LZW.** The encoder's output is the unique greedy parse of the chunk
  (`LzwCoding.ParseUnique`, `LzwCoding.LongestMatch`). The decoder's table is at every step
  the dictionary of the words it has decoded (`LzwDecoding.TableEntry`), and it is the
  encoder's without the newest entry if and only if all codes read before the last fit 13
  bits and the last decodes to a word with the right first byte
  (`LzwDecoding.OneEntryBehind`). The decoder recovers the parse word for word if and only if
  all codes fit (`LzwDecoding.WordsRecovered`). For codes from any source it computes the
  one decoding they have (`LzwDecoding.DecodingExact`).
* **The 13-bit limit.** All chunks of `n` bytes survive if and only if `n <= 7938`
  (`LzwLimit.SafeLengthExact`). The same number is the limit for the sender: every file
  survives compression in blocks of a given size if and only if the size is at most 7938
  (`BlockLimit.BlockSizeExact`). For each longer size, the default of 8192 bytes included,
  there is a file of one block, without zero bytes, for which the decoder writes less
  (`BlockLimit.LongBlockLost`).
* **Records.** For every run of chunks, every hash function and every assignment of ids, what
  the decoder writes for a record is known (`RoundTrip.RecordExact`), and the run comes back
  record by record if and only if two things hold (`RoundTrip.RunExact`): each *new* chunk
  survives compression, and each repeated digest *resolves*, that is, the id recorded with
  its first occurrence is the number of new chunks before that occurrence and the two chunks
  are equal. New chunks survive whenever their codes fit 13 bits
  (`RoundTrip.FittingSurvive`), as they do in blocks of at most 7938 bytes
  (`EndToEnd.SmallBlocksExact`) and in runs of up to 31509890 equal bytes
  (`LzwLimit.UniformExact`).
* **Ids.** With the meaning documented at `Server/encode_parts.h:13`, the index of the unique
  chunk, resolving reduces to freedom from hash collisions (`EndToEnd.DocumentedRoundTrip`).
  Every run can be numbered that way (`Ids.NumberedDocumented`), and a file so encoded comes
  back if its new chunks survive and no digests collide (`EndToEnd.DocumentedFile`). The code
  records the index of the chunk within its packet instead. For a session that works exactly
  when, in addition, before the first appearance of every chunk repeated later there were as
  many repetitions as chunks in earlier packets (`EndToEnd.SessionIdsExact`; for one packet,
  none: `EndToEnd.OnePacketExact`). A file of a block, then a different block twice, each of
  them a single chunk, is lost under every hash function (`LostFile.RepeatedBlockLost`); any
  two different blocks of 16 to 32 bytes make one (`LostFile.ShortFileLost`).
* **The whole path.** `EndToEnd.Transfer` composes the three programs: the output is what the
  records give back, and it is the file whenever the new chunks survive and every repeated
  digest of the session resolves.
* **Bytes.** What the programs write is also stated in plain numbers: the window hash
  (`Chunking.HashOfBytes`), the cuts (`Chunking.ChunkEndsExact`), the compressed bytes
  (`Lzw.CompressedExact`), records (`Framing.FrameLayout`), packet headers
  (`Client.HeaderWritten`, `Client.HeaderRead`) and ring slots (`Server.Serve`).
* **Deduplication.** Two packets with a common tail that are both cut at one place in it have
  the same chunks from there on (`Chunking.SameChunks`), so all those of the later one are
  sent as references (`EndToEnd.TailDeduplicated`).

## Where code and documentation or intent differ

The model follows the code and states the exact condition:

* ids: see above (`Server/host.cpp:143`, `Server/encode_parts.h:13`, `Decoder/Decoder.cpp:102`).
* `Server/lzw.cpp:32-112` keeps 13 bits of codes that keep growing: `LzwLimit.SafeLengthExact`,
  `BlockLimit.BlockSizeExact`.
* The pad store at `Server/lzw.cpp:114` lies in the caller's buffer if and only if the chunk
  has at least three bytes: `Lzw.PadStoreInBounds`.
* `buff_size - WIN_SIZE` at `Server/cdc.cpp:113` is unsigned; the scan stays in the buffer if
  and only if the packet has at least 16 bytes: `Chunking.ScanInBounds`. A last block of 1 to
  15 bytes is therefore outside the preconditions of the whole-file results.
* `s_packet` is built as a C string at `Server/host.cpp:136`; it reads as the packet if and only
  if no byte before the packet's last is zero: `Encoder.PacketStringExact`. For other packets
  the source reads outside the string, and the model takes the packet's bytes.
* `Client/client.cpp:171-186` always copies one full block; it stays in the file if and only
  if the file has at least one block: `Client.ReadsInBounds`.

## Model

| member | source | states |
|---|---|---|
| LzwCoding.EncoderParses | Server/lzw.cpp:11-76 | for every chunk the emitted words are non-empty, concatenate to the chunk, each is the table entry of its code, known when emitted (code `k` at most `255 + k`), and no string is in the table twice |
| LzwCoding.ScanSound | Server/lzw.cpp:24-76 | after every iteration the pending string is non-empty and in the table, the words emitted and the pending string are the bytes read so far, and the string table is exactly the inverse of the dictionary of those words, codes 0 to `code - 1` |
| LzwCoding.LongestMatch | Server/lzw.cpp:27-29 | each emitted word is the longest table entry that starts the remaining input |
| LzwCoding.PrefixEntry | Server/lzw.cpp:71-73 | the table is closed under non-empty prefixes, each prefix an entry at most as new |
| LzwCoding.ParseUnique | Server/lzw.cpp:7-116 | the encoder's words and codes are the only LZW parse of the chunk (if and only if) |
| LzwCoding.CodeCountBound | Server/lzw.cpp:24-76 | a chunk is emitted in at least one and at most one code per byte |
| LzwDecoding.DecodingExact | Decoder/Decoder.cpp:42-58 | whatever codes arrive, while no lookup leaves the table: the decoded words are the one sequence in which each is the dictionary entry its code names or, for a code not in the dictionary yet, the word before it with its own first byte appended |
| LzwDecoding.LockStep | Decoder/Decoder.cpp:34-58 | for every chunk of any length, after `k` codes the decoder's table has `255 + k` entries, equal to the encoder's first ones as far as 13-bit codes can name them, and its output words are those entries |
| LzwDecoding.TableEntry | Decoder/Decoder.cpp:49-57 | for every chunk, truncated codes included, entry `255 + j` of the decoder's table is its decoded word `j - 1` and the first byte of its decoded word `j` |
| LzwDecoding.OneEntryBehind | Decoder/Decoder.cpp:47-57 | for every chunk, after `k` codes the decoder's table is the encoder's without its newest entry if and only if all of these codes but the last fit 13 bits and what the last decodes to starts with the right byte; the next code is at most the table size, and equals it exactly when the word repeats the one before it plus its first byte |
| LzwDecoding.TablesAgreeAtEnd | Decoder/Decoder.cpp:56 | after the last code the two tables are inverse to each other if and only if all codes but the last fit 13 bits and what the last decodes to starts with the right byte, in particular when all codes fit |
| LzwDecoding.DecodedWord | Decoder/Decoder.cpp:49-53 | whatever the chunk, decoded word `k` is the encoder's entry named by code `k` modulo 8192 |
| LzwDecoding.WordsRecovered | Server/lzw.cpp:32-73 | the decoder recovers the encoder's words if and only if every code is below 8192 |
| LzwDecoding.ShortChunkFits | Server/lzw.cpp:20-73 | in chunks of at most 7938 bytes every code is below 8192 |
| LzwDecoding.ShortChunkRecovered | Decoder/Decoder.cpp:34-61 | every chunk of at most 7938 bytes decodes to itself |
| LzwLimit.ExhaustingLost | Server/lzw.cpp:71-73 | a chunk whose first 7937 neighbour pairs are all different, the last of them one byte twice and followed by it again, comes back shorter than it went |
| LzwLimit.SafeLengthExact | Server/lzw.cpp:7-116 | for every `n`, all chunks of `n` bytes survive if and only if `n` is at most 7938 |
| LzwLimit.UniformExact | Server/lzw.cpp:24-76 | a chunk of `n` equal bytes needs no code past 13 bits, and comes back, if and only if `n` is at most 31509890 |
| Packing.PackedBits | Server/lzw.cpp:30-70 | bit `i` of the packed bytes is bit `12 - i mod 13` of code `i / 13`, zero after the last code |
| Packing.PackMasks | Server/lzw.cpp:33-66 | the packed bytes depend on the low 13 bits of each code only |
| Packing.PackedExact | Server/lzw.cpp:30-112 | the packed bytes are the one string of `ceil(13 n / 8)` bytes that, read as one number, is the codes as digits base 8192 followed by zero bits (if and only if) |
| Packing.ReadPacked | Decoder/Decoder.cpp:18-32 | reading 13 bits at position `13 k` of packed bytes, whatever follows them, gives code `k` modulo 8192 |
| Packing.CodeCountStops | Decoder/Decoder.cpp:45 | the loop test holds before every code but the first up to a count fixed by `Size`, and fails there |
| Packing.ExactStop | Decoder/Decoder.cpp:45 | for `Size = ceil(13 n / 8)` that count is `n` |
| Packing.ConsumesExactly | Decoder/Decoder.cpp:26-27 | exactly `Size` bytes are fetched if and only if `Size` is the length of a packed chunk |
| Packing.PadGuard | Server/lzw.cpp:113 | the length before padding is never divisible by 13, so the pad byte is always counted |
| Lzw.StoreCode | Server/lzw.cpp:32-67 | in each of the eight states the masks and shifts write the 13 bits of the code at the current bit position and change no other bit of the buffer |
| Lzw.EmitCode | Server/lzw.cpp:30-69 | after one more code the buffer holds the stream of all codes so far and zeros, `outlen` is `floor(13 k / 8)` and the state is `k mod 8` |
| Lzw.FlushCode | Server/lzw.cpp:77-114 | the pending code completes the packed bytes, `outlen` is `ceil(13 n / 8)`, and the byte after them is the pad byte |
| Lzw.EmitCodes | Server/lzw.cpp:24-76 | the loop's table, pending string, code counter, state and buffer are those of the specified scan |
| Lzw.LZW | Server/lzw.cpp:7-116 | the buffer receives exactly the packed codes of the chunk's parse, then a zero |
| Lzw.CompressedBits | Server/lzw.cpp:9-112 | bit `i` of the compressed chunk is bit `12 - i mod 13` of code `i / 13`, and zero after the last code |
| Lzw.CompressedExact | Server/lzw.cpp:9-112 | the compressed chunk is the one byte string of the length and the number its codes give (if and only if) |
| Lzw.PadStoreInBounds | Server/lzw.cpp:114 | the compressed bytes fit twice the chunk length, and the pad store does if and only if the chunk has at least three bytes |
| Decoder.Decoder.ReadBit | Decoder/Decoder.cpp:26-29 | one bit of the input, a byte being fetched only at positions divisible by 8 |
| Decoder.Decoder.ReadCode | Decoder/Decoder.cpp:18-32 | the next 13 bits of the input as a number, highest first |
| Decoder.Decoder.Decompress | Decoder/Decoder.cpp:34-61 | the output is the decoded words of the codes read, and the input is left just after their bytes |
| Decoder.Decoder.DecodeFile | Decoder/Decoder.cpp:85-123 | the output is the concatenation of what each record of the file writes: a literal its decompressed bytes, a reference the chunk at that location or nothing when out of range |
| Chunking.Cdc | Server/cdc.cpp:110-125 | the queue receives exactly the chunk ends, in order, and at least one slot after them keeps its sentinel |
| Chunking.HashWindow | Server/cdc.cpp:115-119 | the inner loop computes the window hash |
| Chunking.HashOfBytes | Server/cdc.cpp:115-119 | the hash is the sum of the 16 bytes of the window weighed by 3, 9, and so on up to 3^16, the last byte least |
| Chunking.UniformHash | Server/cdc.cpp:118-120 | sixteen equal bytes `v` hash to `v * 64570080`, a multiple of 256 if and only if `v` is one of 8 |
| Chunking.ScanInBounds | Server/cdc.cpp:113 | the unsigned limit is `buff_size - 16`, wrapping around below 16, and every window the scan reads lies in the buffer if and only if the buffer has at least 16 bytes |
| Chunking.HashExact | Server/cdc.cpp:118 | the hash is at most 16465370400, below 2^53, so accumulating it in a `double` is exact |
| Chunking.RollingStep | Server/encode_parts.cpp:37 | each hash is three times the one before, less 3^17 times the byte that leaves, plus three times the byte that enters |
| Chunking.RollingAgrees | Server/encode_parts.cpp:25-45 | the rolling variant in 64-bit arithmetic computes the same hash at every position |
| Chunking.ChunkEndsExact | Server/cdc.cpp:113-124 | a position ends a chunk if and only if it is the last byte, or is one of 15 to `buff_size - 18` and the hash of the window after it is a multiple of 256 |
| Chunking.UniformCuts | Server/cdc.cpp:110-125 | a packet of `n` equal bytes is cut after each of its bytes 15 to `n - 18` when they are multiples of 8, not at all otherwise, and at its end |
| Chunking.ChunkEndsShape | Server/cdc.cpp:110-125 | the ends increase strictly, the last is `buff_size - 1`, and they are fewer than the bytes |
| Chunking.Resynchronises | Server/cdc.cpp:113-122 | two buffers with a common tail are cut alike wherever the window lies in the tail and both scans have started (if and only if) |
| Chunking.SameChunks | Server/cdc.cpp:113-124 | two buffers with a common tail, both cut at one place in it, have the same chunks from there to the end, and those chunks are the rest of the tail |
| Chunking.ChunksPartition | Server/host.cpp:137-143 | the chunks are non-empty and concatenate to the packet |
| Dedup.Deduplicator.Deduplication | Server/encode_parts.cpp:72-79 | the new map and the answer in terms of the old map, the inserted zero and the id stored plus one included |
| Dedup.AfterCallsExact | Server/encode_parts.cpp:72-79 | over any run, the map holds for each digest seen the id given with it the first time, and nothing else |
| Dedup.AnswerExact | Server/encode_parts.cpp:74-78 | a call answers -1 exactly when its digest is new, and the first-recorded id every later time |
| Dedup.EntriesPersist | Server/encode_parts.cpp:75-77 | an entry never changes |
| Framing.HeaderInverse | Server/host.cpp:156-171 | for every size and id the header is twice the value, in 32 bits, plus the tag, and the value can be read back if and only if it is below 2^31 |
| Framing.PlaceValues | Server/host.cpp:152-158 | the four header bytes are the header's digits base 256, the first the lowest |
| Framing.FrameLayout | Server/host.cpp:152-172 | the first four bytes of a record, lowest first, are twice its size or id plus the tag, a literal's payload follows and nothing else, and the first byte is odd exactly for references |
| Framing.LittleEndianInverse | Decoder/Decoder.cpp:90-91 | the four header bytes read back as the header |
| Framing.SplitFirst | Decoder/Decoder.cpp:87-121 | a record is delimited by its own bytes, whatever follows it |
| Framing.SplitSerialized | Decoder/Decoder.cpp:87-121 | any run of records splits into exactly the records written |
| Framing.SplitTrailing | Decoder/Decoder.cpp:90-93 | up to three bytes after the last record change nothing |
| Framing.SplitHeader | Decoder/Decoder.cpp:95-107 | for any input of four bytes or more: an odd header is a reference to its upper bits, an even one a literal of that size, and 0 is the size the decoder cannot handle |
| Framing.FetchedPadded | Decoder/Decoder.cpp:26-27 | the bytes fetched for a literal are those of the input, then 255 past its end |
| Framing.ReadableExact | Decoder/Decoder.cpp:49-57 | a literal can be decoded if and only if every code but its last is known when it is read |
| Encoder.WriteFrame | Server/host.cpp:147-174 | the record for a chunk is appended in place: header and packed chunk, or header alone |
| Encoder.EncodeChunks | Server/host.cpp:139-175 | the loop visits every chunk of the packet in order, with its index as id, until the sentinel |
| Encoder.Encode | Server/host.cpp:136-176 | the records of the packet's chunks are written from `base` on, what lies before is kept, and the digest map is that of the calls made |
| Encoder.EncodeSplit | Server/encode_parts.cpp:73 | encoding packet after packet is encoding their chunks as one run, the digest map carried over |
| Encoder.PacketStringExact | Server/host.cpp:136 | the string built from the packet reads as the packet, whatever follows it in its buffer, if and only if no byte before the last is zero |
| RoundTrip.CompressedRecovered | Decoder/Decoder.cpp:34-61 | `Decompress` on the bytes `LZW` wrote is defined for every chunk and gives the words its truncated codes name |
| RoundTrip.LzwRoundTrip | Decoder/Decoder.cpp:34-61 | byte-level LZW round trip for every chunk of 1 to 7938 bytes |
| RoundTrip.LzwExact | Decoder/Decoder.cpp:34-61 | for every `n`, all chunks of `n` bytes decompress to themselves if and only if `n` is at most 7938 |
| RoundTrip.RunFrame | Server/host.cpp:146-171 | in a run, a chunk is sent in full exactly when its digest is new, otherwise as a reference to the first-recorded id |
| RoundTrip.RunDatabase | Decoder/Decoder.cpp:102 | the decoder's database after `t` records is the list of new chunks among them, as recovered |
| RoundTrip.RecordExact | Decoder/Decoder.cpp:96-121 | what the decoder writes for a record, for any chunks, hash and ids: a new chunk as recovered; otherwise the recovered new chunk whose rank is the recorded id, or nothing when there is none |
| RoundTrip.RunExact | Decoder/Decoder.cpp:85-123 | for any chunks, hash and ids, every record of a run comes back if and only if every new chunk survives compression and every repeated digest resolves |
| RoundTrip.FittingSurvive | Decoder/Decoder.cpp:34-61 | new chunks whose codes all fit 13 bits survive |
| Ids.NumberedDocumented | Server/encode_parts.h:13 | every run can be given ids that count unique chunks, and that changes neither which chunks survive nor which digests collide |
| Ids.DocumentedResolves | Server/encode_parts.cpp:72-79 | with ids that count unique chunks, every repeated digest resolves if and only if no two different chunks share one |
| Ids.IndexIdsResolve | Server/host.cpp:143 | with the chunk index as id, every repeated digest resolves if and only if no digests collide and every chunk repeated later first appears before any repetition |
| Ids.SessionIdsResolve | Server/host.cpp:143 | with ids that restart with each packet, every repeated digest of a session resolves if and only if no digests collide and before the first appearance of every chunk repeated later there were as many repetitions as chunks in earlier packets |
| Client.HeaderWritten | Client/client.cpp:136-142 | the header bytes are `length mod 256` and `length / 256`, the latter plus 128 on the last packet |
| Client.HeaderRead | Server/encoder.cpp:131-133 | whatever the two bytes, the receiver takes the first plus 256 times the second, modulo 32768, as the length, and DONE from the second being at least 128 |
| Client.LengthInverse | Server/encoder.cpp:132-133 | the receiver reads back the length and the payload the sender wrote, with or without DONE |
| Client.DoneInverse | Server/encoder.cpp:131 | the receiver sees DONE exactly when the sender set it |
| Client.BlocksPartition | Client/client.cpp:88-208 | the blocks are non-empty, full but the last, and concatenate to the file |
| Client.SegmentationConserves | Client/client.cpp:130-208 | the payloads read back from the packets concatenate to the file, and exactly the last packet is marked DONE |
| Client.SendFile | Client/client.cpp:88-208 | the packets sent are those of the file's blocks |
| Client.ReadsInBounds | Client/client.cpp:171-186 | the full block that is always copied ends at the last full block of the file, and lies in the file if and only if the file has at least one block |
| Server.ServePacket | Server/encoder.cpp:152-168 | one packet is decoded and its records appended to those of the session |
| Server.SessionExactly | Server/encoder.cpp:123-169 | a session in numbers: packets that announce 16 bytes or more and hold them, the second byte of exactly the last one being 128 or more (if and only if) |
| Server.Serve | Server/encoder.cpp:123-169 | after the session the output holds the records of all its packets' chunks, and the ring its latest eight packets, packet `k` in slot `(4 + k) mod 8` |
| Server.RunItemsCover | Server/host.cpp:137-143 | the chunks of a session concatenate to its payloads |
| EndToEnd.BytesExact | Decoder/Decoder.cpp:85-123 | the bytes of a run with sizes and ids in 31 bits split into its records, and the pieces decoded are its chunks if and only if every new chunk survives and every repeated digest resolves |
| EndToEnd.SessionExact | Decoder/Decoder.cpp:85-123 | the same for whatever packets a session brings (of at least 16 bytes each), without a condition on their chunks, and the chunks concatenate to the payloads |
| EndToEnd.DocumentedRoundTrip | Server/encode_parts.h:13 | with ids that count unique chunks, a run comes back if and only if its new chunks survive and no two different chunks share a digest |
| EndToEnd.DocumentedSession | Server/encode_parts.h:13 | packets encoded with such ids decode to their payloads when the new chunks survive and no digests collide |
| EndToEnd.DocumentedFile | Server/encode_parts.h:13 | a file of less than 2^31 bytes, cut into packets and encoded with such ids, decodes to itself when its new chunks survive and no digests collide, and chunk by chunk only then |
| EndToEnd.DocumentedInRange | Decoder/Decoder.cpp:112 | with such ids every reference passes the decoder's range check |
| EndToEnd.SessionIdsExact | Server/host.cpp:143 | with the ids the code records, a session comes back chunk by chunk if and only if its new chunks survive, no digests collide and before the first appearance of every chunk repeated later there were as many repetitions as chunks in earlier packets |
| EndToEnd.OnePacketExact | Server/host.cpp:143 | a packet alone comes back if and only if its new chunks survive, no digests collide and every chunk repeated later first appears before any repetition |
| EndToEnd.RepeatedPairLost | Server/host.cpp:143 | chunks A A B B: the second B is sent as id 2 and decodes to nothing |
| EndToEnd.FileSession | Client/client.cpp:130-208 | the packets of a file form a session whose payloads are its blocks |
| EndToEnd.SendableExact | Client/client.cpp:88-208 | the whole-file results cover exactly the files of at least one block, in blocks of at most 16384 bytes, each of at least 16 |
| EndToEnd.FileRoundTrip | Decoder/Decoder.cpp:85-123 | a file in blocks comes back chunk by chunk if and only if every new chunk survives and every repeated digest resolves, and its chunks concatenate to it |
| EndToEnd.SmallBlocksExact | Client/client.cpp:130-208 | in blocks of at most 7938 bytes a file comes back chunk by chunk if and only if every repeated digest resolves, and then the output is the file |
| EndToEnd.Transfer | Server/encoder.cpp:123-169 | client, server and decoder composed: the output is what the records give back, chunk by chunk the file's chunks if and only if every new chunk survives and every repeated digest resolves, and then the file |
| EndToEnd.TailDeduplicated | Server/encode_parts.cpp:72-79 | of two packets of a session with a common tail, both cut at one place in it, the later one has all its chunks from there on sent as references |
| BlockLimit.BlockSizeExact | Server/lzw.cpp:32-73 | for every block size of 16 to 16384 bytes and every hash function, all files so sent have their new chunks survive if and only if the size is at most 7938 |
| BlockLimit.LongBlockLost | Decoder/Decoder.cpp:34-61 | for every longer block size there is a file of one block, free of zero bytes, for which the decoder writes fewer bytes than it has |
| LostFile.RepeatedBlockLost | Server/host.cpp:143 | the file `x + y + y` in blocks that are one chunk each and fit 13-bit codes: the output is `x`, then `y` (or `x` when their digests agree), then `x`, under every hash; it is the file if and only if `x` equals `y` |
| LostFile.ShortFileLost | Decoder/Decoder.cpp:107-116 | any two different blocks of equal length, 16 to 32 bytes, make a file that does not come back, under every hash |

## Left out

- Encoder.WriteFrame: allocates one byte more than `2 * length` for the packed chunk, because the pad store of a chunk of one or two bytes lies outside the source's buffer (`Lzw.PadStoreInBounds`).
- Encoder.Encode: `s_packet` is all `inlength` bytes of the packet; the source builds it as a C string, which stops at the first zero byte (`Server/host.cpp:136`). `Encoder.PacketStringExact` says for which packets the two agree.
- Encoder.Encode: the digest is an arbitrary function of the chunk's bytes. SHA-1 (section 6.1 of FIPS 180-4) and the conversion of the digest array to a string at `Server/encode_parts.cpp:68` are not modelled; no round trip assumes the function injective: collisions are part of the exact conditions.
- Encoder.Encode: requires room for six bytes per input byte in the output; the fixed 70 MB array is not modelled.
- Encoder.EncodeChunks: follows the loop of `Server/host.cpp:139`; `Server/encoder.cpp:36` names an undeclared variable. The queue is prefilled with -1 as at `Server/host.cpp:86-88`.
- Decoder.Decoder.DecodeFile: requires a file whose literals never index the code table out of range and have a size of at least 1, where the source's behaviour is undefined. Truncated literals are modelled: reading past the end gives 255.
- Server.Serve: the packets arrive complete and in order; a ring slot is replaced as a whole, so stale bytes after a short packet are not modelled.
- Chunking.Cdc: `pow` and the `double` accumulation are integers, exact by `Chunking.HashExact`.
- Sockets, files, timing, printing, option parsing and the OpenCL set-up.
- `exec`, `exec0`, `cdc0` in `Server/cdc.cpp` and the copies of `LZW` in `Server/lzw_hw.cpp` and `Server/testbench.cpp`.
- Overflow of `int` positions and counters, allocation failure, and the signedness of `char` (bytes are 0 to 255).
