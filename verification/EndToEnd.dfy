/**
 * The whole path: a file is cut into packets, encoded by the server, and decoded. When does
 * the decoder give the file back?
 */
module EndToEnd {
  import opened Bytes
  import opened Chunking
  import opened Client
  import Decoder
  import opened Dedup
  import opened Encoder
  import opened Framing
  import opened Ids
  import opened LzwDecoding
  import opened RoundTrip
  import opened Server

  /**
   * A file and block size whose packets all reach the chunker with a full window: the file
   * has at least one block, and its last block at least 16 bytes.
   */
  predicate Sendable(file: Data, blocksize: nat)
  {
    && WIN_SIZE <= blocksize <= MAX_BLOCKSIZE && |file| >= blocksize
    && (|file| % blocksize == 0 || |file| % blocksize >= WIN_SIZE)
  }

  // ----- A run of chunks -----

  /** Chunks and ids small enough for the 31-bit header fields. */
  ghost predicate InRange(items: seq<Item>)
  {
    forall t :: 0 <= t < |items| ==> 2 * |items[t].chunk| < HALF_WORD && items[t].id < HALF_WORD
  }

  /** The records of the run in range are all valid records. */
  lemma RunFramesValid(items: seq<Item>, hash: Data -> Digest)
    requires NonEmptyItems(items) && InRange(items)
    ensures forall t :: 0 <= t < |items| ==> ValidFrame(RunFrames(items, hash)[t])
  {
    forall t | 0 <= t < |items|
      ensures ValidFrame(RunFrames(items, hash)[t])
    {
      RunFrame(items, hash, t);
      CompressedValid(items[t].chunk);
    }
  }

  /**
   * The bytes of a run split back into its records, and every record comes back as its chunk
   * if and only if every new chunk survives compression and every repeated digest resolves.
   */
  lemma BytesExact(items: seq<Item>, hash: Data -> Digest)
    requires NonEmptyItems(items) && InRange(items)
    ensures SplitFrames(Serialize(RunFrames(items, hash))) == Some(RunFrames(items, hash))
    ensures AllReadable(RunFrames(items, hash))
    ensures Pieces(RunFrames(items, hash)) == ChunksOf(items) <==> NewSurvive(items, hash) && AllResolve(items, hash)
  {
    RunFramesValid(items, hash);
    SplitSerialized(RunFrames(items, hash));
    RunExact(items, hash);
    PiecesAreChunks(items, hash);
  }

  lemma PiecesAreChunks(items: seq<Item>, hash: Data -> Digest)
    requires NonEmptyItems(items) && AllReadable(RunFrames(items, hash))
    ensures Pieces(RunFrames(items, hash)) == ChunksOf(items)
            <==> (forall t :: 0 <= t < |items| ==> Pieces(RunFrames(items, hash))[t] == items[t].chunk)
  {
    hide Pieces, RunFrames;
    var pieces, chunks := Pieces(RunFrames(items, hash)), ChunksOf(items);
    assert |pieces| == |chunks|;
    assert forall t :: 0 <= t < |items| ==> chunks[t] == items[t].chunk;
  }

  /** Chunks A A B B: the second B is sent as a reference past the end of the database, and is lost. */
  lemma RepeatedPairLost(a: Data, b: Data, hash: Data -> Digest)
    requires a != [] && b != [] && hash(a) != hash(b)
    ensures var items := [Item(a, 0), Item(a, 1), Item(b, 2), Item(b, 3)];
            && NonEmptyItems(items) && AllReadable(RunFrames(items, hash))
            && RunFrames(items, hash)[3] == Reference(2)
            && Pieces(RunFrames(items, hash))[3] == []
  {
    hide RunFrames, Pieces, Recovered;
    var items := [Item(a, 0), Item(a, 1), Item(b, 2), Item(b, 3)];
    PairFirsts(CallsOf(items, hash));
    RunFrame(items, hash, 3);
    RecordExact(items, hash, 3);
  }

  /** Digests A A B B: the last call repeats the third, before which one digest was new. */
  lemma PairFirsts(calls: seq<Call>)
    requires |calls| == 4 && calls[0].digest == calls[1].digest != calls[2].digest == calls[3].digest
    ensures !IsFirst(calls, 3) && Earliest(calls, 3, calls[3].digest) == 2 && |Firsts(calls, 3)| == 2
  {
    AnswerExact(calls, 3);
    assert IsFirst(calls, 0) && !IsFirst(calls, 1) && IsFirst(calls, 2);
    assert |Firsts(calls, 1)| == 1;
    assert |Firsts(calls, 2)| == 1;
  }

  // ----- A run of packets -----

  /** The compressed file of a session. */
  function SessionBytes(payloads: seq<Data>, hash: Data -> Digest): Data
    requires AllChunkable(payloads)
  {
    RunItemsNonEmpty(payloads);
    Serialize(RunFrames(RunItems(payloads), hash))
  }

  lemma PacketInRange(packet: Data)
    requires |packet| >= WIN_SIZE && 2 * |packet| < HALF_WORD
    ensures InRange(PacketItems(packet))
  {
    hide Chunks, ChunkEnds, Concat;
    ChunkEndsShape(packet);
    forall k | 0 <= k < |Chunks(packet)|
      ensures |Chunks(packet)[k]| <= |packet|
    {
      NextChunk(packet, k);
    }
  }

  /** Payloads no longer than a header can say give chunks and ids in range. */
  lemma {:induction false} RunInRange(payloads: seq<Data>)
    requires AllChunkable(payloads) && forall k :: 0 <= k < |payloads| ==> |payloads[k]| <= 32767
    ensures InRange(RunItems(payloads))
  {
    hide PacketItems;
    if payloads != [] {
      RunInRange(payloads[..|payloads| - 1]);
      PacketInRange(payloads[|payloads| - 1]);
    }
  }

  /**
   * Whatever packets arrive, the file written for them comes back chunk by chunk if and only
   * if every new chunk survives and every repeated digest resolves, and then the output is
   * their payloads laid end to end.
   */
  lemma SessionExact(packets: seq<Data>, hash: Data -> Digest)
    requires Session(packets)
    ensures var payloads := Payloads(packets);
            var items := RunItems(payloads);
            && NonEmptyItems(items)
            && SplitFrames(SessionBytes(payloads, hash)) == Some(RunFrames(items, hash))
            && AllReadable(RunFrames(items, hash))
            && (Pieces(RunFrames(items, hash)) == ChunksOf(items)
                <==> NewSurvive(items, hash) && AllResolve(items, hash))
            && Concat(ChunksOf(items)) == Concat(payloads)
  {
    hide AllResolve, NewSurvive, RunFrames, Pieces, Serialize, SplitFrames, RunItems, Concat, ChunksOf, PacketLength;
    hide InRange;
    var payloads := Payloads(packets);
    forall k | 0 <= k < |payloads|
      ensures |payloads[k]| <= 32767
    {
      LengthBound(packets[k]);
    }
    RunItemsNonEmpty(payloads);
    RunInRange(payloads);
    BytesExact(RunItems(payloads), hash);
    RunItemsCover(payloads);
  }

  /**
   * The ids the code records restart with each packet and count repetitions too. A session
   * comes back chunk by chunk exactly if every new chunk survives, no two different chunks
   * share a digest, and before the first appearance of every chunk repeated later there were
   * as many repetitions as chunks in earlier packets.
   */
  lemma SessionIdsExact(packets: seq<Data>, hash: Data -> Digest)
    requires Session(packets)
    ensures var items := RunItems(Payloads(packets));
            && NonEmptyItems(items) && AllReadable(RunFrames(items, hash))
            && (Pieces(RunFrames(items, hash)) == ChunksOf(items)
                <==> && NewSurvive(items, hash)
                     && CollisionFree(items, hash) && RepeatsMatch(Payloads(packets), hash))
  {
    hide AllResolve, NewSurvive, CollisionFree, RepeatsMatch, RunFrames, Pieces, Serialize, SplitFrames, RunItems;
    hide Concat, ChunksOf, PacketLength;
    SessionExact(packets, hash);
    SessionIdsResolve(Payloads(packets), hash);
  }

  /** A packet alone: every chunk repeated later has to appear before any repetition. */
  lemma OnePacketExact(packet: Data, hash: Data -> Digest)
    requires WIN_SIZE <= |packet| <= 32767
    ensures NonEmptyItems(PacketItems(packet))
    ensures AllReadable(RunFrames(PacketItems(packet), hash))
    ensures Pieces(RunFrames(PacketItems(packet), hash)) == ChunksOf(PacketItems(packet))
            <==> && NewSurvive(PacketItems(packet), hash)
                 && CollisionFree(PacketItems(packet), hash) && NewChunksFirst(PacketItems(packet), hash)
  {
    hide AllResolve, NewSurvive, CollisionFree, NewChunksFirst, InRange, RunFrames, Pieces, PacketItems, Serialize;
    hide SplitFrames, Chunks;
    var items := PacketItems(packet);
    PacketItemsNonEmpty(packet);
    PacketInRange(packet);
    BytesExact(items, hash);
    assert forall k :: 0 <= k < |items| ==> items[k].id == k;
    IndexIdsResolve(items, hash);
  }

  // ----- The documented ids -----

  /** With ids that count unique chunks, a run comes back exactly if its new chunks survive and no digests collide. */
  lemma DocumentedRoundTrip(items: seq<Item>, hash: Data -> Digest)
    requires NonEmptyItems(items) && InRange(items) && DocumentedIds(items, hash)
    ensures SplitFrames(Serialize(RunFrames(items, hash))) == Some(RunFrames(items, hash))
    ensures AllReadable(RunFrames(items, hash))
    ensures Pieces(RunFrames(items, hash)) == ChunksOf(items) <==> NewSurvive(items, hash) && CollisionFree(items, hash)
  {
    BytesExact(items, hash);
    DocumentedResolves(items, hash);
  }

  /** A reference under documented ids always passes the decoder's range check. */
  lemma DocumentedInRange(items: seq<Item>, hash: Data -> Digest, t: nat)
    requires NonEmptyItems(items) && DocumentedIds(items, hash) && t < |items|
    requires RunFrames(items, hash)[t].Reference?
    ensures AllReadable(RunFrames(items, hash)[..t])
    ensures RunFrames(items, hash)[t].id < |Database(RunFrames(items, hash)[..t])|
  {
    var calls := CallsOf(items, hash);
    RunReadable(items, hash);
    PiecesAt(RunFrames(items, hash), t);
    RunFrame(items, hash, t);
    RunDatabase(items, hash, RunFrames(items, hash), t);
    AnswerExact(calls, t);
    var u := Earliest(calls, t, calls[t].digest);
    FirstsRank(calls, t, u);
  }

  /**
   * Packets encoded with documented ids: decoding the bytes written gives the payloads back
   * whenever the new chunks survive and no digests collide.
   */
  lemma DocumentedSession(payloads: seq<Data>, items: seq<Item>, hash: Data -> Digest)
    requires AllChunkable(payloads) && ChunksOf(items) == ChunksOf(RunItems(payloads))
    requires InRange(items) && DocumentedIds(items, hash)
    ensures NonEmptyItems(items)
    ensures SplitFrames(Serialize(RunFrames(items, hash))) == Some(RunFrames(items, hash))
    ensures AllReadable(RunFrames(items, hash))
    ensures NewSurvive(items, hash) && CollisionFree(items, hash) ==>
              Concat(Pieces(RunFrames(items, hash))) == Concat(payloads)
  {
    hide NewSurvive, CollisionFree, RunFrames, Pieces, Serialize, SplitFrames, RunItems, Concat;
    RunItemsNonEmpty(payloads);
    RunItemsCover(payloads);
    assert forall t :: 0 <= t < |items| ==> items[t].chunk == ChunksOf(items)[t];
    DocumentedRoundTrip(items, hash);
  }

  /** Documented ids never exceed the number of bytes sent. */
  lemma NumberedInRange(items: seq<Item>, hash: Data -> Digest)
    requires NonEmptyItems(items) && InRange(items) && |Concat(ChunksOf(items))| < HALF_WORD
    ensures InRange(Numbered(items, hash))
  {
    hide Concat, Firsts;
    CountBound(ChunksOf(items));
    forall t | 0 <= t < |items|
      ensures Numbered(items, hash)[t].id < HALF_WORD
    {
      FirstsAll(CallsOf(items, hash), t);
    }
  }

  /**
   * The whole path with documented ids: a file of less than 2^31 bytes comes back if its new
   * chunks survive and no digests collide. Only then does it come back chunk by chunk.
   */
  lemma DocumentedFile(file: Data, blocksize: nat, hash: Data -> Digest)
    requires Sendable(file, blocksize) && |file| < 0x8000_0000
    ensures AllChunkable(Blocks(file, blocksize)) && NonEmptyItems(RunItems(Blocks(file, blocksize)))
    ensures var sent := RunItems(Blocks(file, blocksize));
            var items := Numbered(sent, hash);
            && NonEmptyItems(items)
            && SplitFrames(Serialize(RunFrames(items, hash))) == Some(RunFrames(items, hash))
            && AllReadable(RunFrames(items, hash))
            && (Pieces(RunFrames(items, hash)) == ChunksOf(sent)
                <==> NewSurvive(sent, hash) && CollisionFree(sent, hash))
            && (NewSurvive(sent, hash) && CollisionFree(sent, hash) ==>
                  Concat(Pieces(RunFrames(items, hash))) == file)
  {
    hide NewSurvive, CollisionFree, DocumentedIds, RunFrames, Pieces, Serialize, SplitFrames, RunItems, Blocks, Concat;
    hide InRange;
    var payloads := Blocks(file, blocksize);
    FileSession(file, blocksize);
    BlocksPartition(file, blocksize);
    var sent := RunItems(payloads);
    var items := Numbered(sent, hash);
    RunItemsNonEmpty(payloads);
    RunInRange(payloads);
    RunItemsCover(payloads);
    NumberedInRange(sent, hash);
    NumberedDocumented(sent, hash);
    assert ChunksOf(items) == ChunksOf(sent);
    DocumentedRoundTrip(items, hash);
    DocumentedSession(payloads, items, hash);
  }

  // ----- A whole file -----

  /** The packets of a file form a session whose payloads are its blocks. */
  lemma FileSession(file: Data, blocksize: nat)
    requires Sendable(file, blocksize)
    ensures AllChunkable(Blocks(file, blocksize))
    ensures Session(Packets(Blocks(file, blocksize)))
    ensures Payloads(Packets(Blocks(file, blocksize))) == Blocks(file, blocksize)
  {
    hide PacketLength, IsDone, Payload, Packet, Blocks, Concat;
    var blocks, packets := Blocks(file, blocksize), Packets(Blocks(file, blocksize));
    BlocksPartition(file, blocksize);
    LastBlockLength(file, blocksize);
    SegmentationConserves(file, blocksize);
    forall k | 0 <= k < |packets|
      ensures Encodable(packets[k]) && |blocks[k]| >= WIN_SIZE
    {
      assert |packets[k]| == HEADER + |blocks[k]|;
    }
    assert Payloads(packets) == blocks;
  }

  /** What the client accepts and the chunker needs: blocks of 16 to 16384 bytes, at least one of them full. */
  lemma SendableExact(file: Data, blocksize: nat)
    requires blocksize >= 1
    ensures Sendable(file, blocksize)
            <==> && blocksize <= 16384 && |file| >= blocksize
                 && forall k :: 0 <= k < |Blocks(file, blocksize)| ==> |Blocks(file, blocksize)[k]| >= 16
  {
    hide Blocks, Concat;
    if file != [] {
      BlocksPartition(file, blocksize);
      LastBlockLength(file, blocksize);
      if |file| >= blocksize {
        FirstBlock(file, blocksize);
      }
    }
  }

  lemma FirstBlock(file: Data, blocksize: nat)
    requires 1 <= blocksize <= |file|
    ensures |Blocks(file, blocksize)| >= 1 && Blocks(file, blocksize)[0] == file[..blocksize]
  {
  }

  /**
   * A file sent in blocks comes back chunk by chunk if and only if every new chunk survives
   * and every repeated digest of the session resolves, and then the decoder's output is the file.
   */
  lemma FileRoundTrip(file: Data, blocksize: nat, hash: Data -> Digest)
    requires Sendable(file, blocksize)
    ensures AllChunkable(Blocks(file, blocksize))
    ensures var items := RunItems(Blocks(file, blocksize));
            && NonEmptyItems(items)
            && SplitFrames(SessionBytes(Blocks(file, blocksize), hash)) == Some(RunFrames(items, hash))
            && AllReadable(RunFrames(items, hash))
            && Concat(ChunksOf(items)) == file
            && (Pieces(RunFrames(items, hash)) == ChunksOf(items)
                <==> NewSurvive(items, hash) && AllResolve(items, hash))
  {
    hide AllResolve, NewSurvive, RunFrames, Pieces, Serialize, SplitFrames, RunItems, Blocks, Concat, ChunksOf;
    hide Session, Packets, Payloads;
    FileSession(file, blocksize);
    SessionExact(Packets(Blocks(file, blocksize)), hash);
    BlocksPartition(file, blocksize);
  }

  /** In blocks of at most 7938 bytes every chunk survives, so only the digests matter. */
  lemma SmallBlocksExact(file: Data, blocksize: nat, hash: Data -> Digest)
    requires Sendable(file, blocksize) && blocksize <= SAFE_LENGTH
    ensures AllChunkable(Blocks(file, blocksize))
    ensures var items := RunItems(Blocks(file, blocksize));
            && NonEmptyItems(items) && AllReadable(RunFrames(items, hash))
            && (Pieces(RunFrames(items, hash)) == ChunksOf(items) <==> AllResolve(items, hash))
            && (AllResolve(items, hash) ==> Concat(Pieces(RunFrames(items, hash))) == file)
  {
    hide AllResolve, NewSurvive, RunFrames, Pieces, Serialize, SplitFrames, RunItems, Blocks, Concat, ChunksOf;
    FileRoundTrip(file, blocksize, hash);
    BlocksPartition(file, blocksize);
    ShortPayloadsSurvive(Blocks(file, blocksize), hash);
  }

  lemma ShortPayloadsSurvive(payloads: seq<Data>, hash: Data -> Digest)
    requires AllChunkable(payloads) && forall k :: 0 <= k < |payloads| ==> |payloads[k]| <= SAFE_LENGTH
    ensures NonEmptyItems(RunItems(payloads)) && NewSurvive(RunItems(payloads), hash)
  {
    hide RunItems, IsFirst, Fits;
    RunItemsNonEmpty(payloads);
    ShortChunks(payloads);
    forall t | 0 <= t < |RunItems(payloads)|
      ensures Fits(RunItems(payloads)[t].chunk)
    {
      ShortChunkFits(RunItems(payloads)[t].chunk);
    }
    FittingSurvive(RunItems(payloads), hash);
  }

  lemma {:induction false} ShortChunks(payloads: seq<Data>)
    requires AllChunkable(payloads) && forall k :: 0 <= k < |payloads| ==> |payloads[k]| <= SAFE_LENGTH
    ensures forall t :: 0 <= t < |RunItems(payloads)| ==> 1 <= |RunItems(payloads)[t].chunk| <= SAFE_LENGTH
  {
    hide Chunks, ChunkEnds, Concat;
    if payloads != [] {
      ShortChunks(payloads[..|payloads| - 1]);
      var packet := payloads[|payloads| - 1];
      ChunkEndsShape(packet);
      forall k | 0 <= k < |Chunks(packet)|
        ensures 1 <= |Chunks(packet)[k]| <= SAFE_LENGTH
      {
        NextChunk(packet, k);
      }
    }
  }

  /** Client, server and decoder run one after the other. */
  method Transfer(file: Data, blocksize: nat, hash: Data -> Digest) returns (output: Data)
    requires Sendable(file, blocksize)
    ensures AllChunkable(Blocks(file, blocksize))
    ensures var items := RunItems(Blocks(file, blocksize));
            && NonEmptyItems(items) && AllReadable(RunFrames(items, hash))
            && output == Concat(Pieces(RunFrames(items, hash)))
            && (Pieces(RunFrames(items, hash)) == ChunksOf(items)
                <==> NewSurvive(items, hash) && AllResolve(items, hash))
            && (NewSurvive(items, hash) && AllResolve(items, hash) ==> output == file)
  {
    hide AllResolve, NewSurvive, RunFrames, Pieces, Serialize, SplitFrames, RunItems, Blocks, Concat, ChunksOf;
    hide PacketLength, IsDone, Packet, UmapAfter;
    FileSession(file, blocksize);
    FileRoundTrip(file, blocksize, hash);
    var packets := SendFile(file, blocksize);
    var dedup := new Deduplicator();
    var buffer := new byte[6 * |file|];
    BlocksPartition(file, blocksize);
    var ring := new Data[NUM_PACKETS](_ => []);
    var offset := Serve(packets, ring, dedup, hash, buffer);
    var decoder := new Decoder.Decoder(buffer[..offset]);
    output := decoder.DecodeFile();
  }

  // ----- What deduplication saves -----

  /** A chunk equal to an earlier one is sent as a reference. */
  lemma RepeatReferenced(items: seq<Item>, hash: Data -> Digest, u: nat, t: nat)
    requires NonEmptyItems(items) && u < t < |items| && items[u].chunk == items[t].chunk
    ensures RunFrames(items, hash)[t].Reference?
  {
    RunFrame(items, hash, t);
    var calls := CallsOf(items, hash);
    assert calls[u].digest == calls[t].digest;
  }

  /**
   * Two packets of a session with a common tail, both cut before byte `t` of it: every chunk
   * of the later one after that cut is sent as a reference, however the two packets start and
   * whatever else is sent.
   */
  lemma TailDeduplicated(payloads: seq<Data>, a: nat, b: nat, x: Data, y: Data, tail: Data, t: nat, i: nat, j: nat,
                         m: nat, hash: Data -> Digest)
    requires AllChunkable(payloads) && a < b < |payloads| && payloads[a] == x + tail && payloads[b] == y + tail
    requires |x| + t >= WIN_SIZE && |y| + t >= WIN_SIZE && t + WIN_SIZE <= |tail|
    requires CutAt(x + tail, i, |x| + t - 1) && CutAt(y + tail, j, |y| + t - 1)
    requires j < m < |Chunks(y + tail)|
    ensures var items, n := RunItems(payloads), |RunItems(payloads[..b])| + m;
            && NonEmptyItems(items) && n < |items| && items[n].chunk == Chunks(y + tail)[m]
            && RunFrames(items, hash)[n].Reference?
  {
    hide Chunks, RunItems, RunFrames, ChunkEnds, Concat;
    var first, second: seq<Data> := Chunks(x + tail), Chunks(y + tail);
    SameChunks(x, y, tail, t, i, j);
    RunItemsNonEmpty(payloads);
    var k := m - j - 1;
    assert first[i + 1..][k] == second[j + 1..][k];
    RunItemsAt(payloads, a, i + 1 + k);
    RunItemsAt(payloads, b, m);
    RunItemsAt(payloads[..b], a, i + 1 + k);
    assert payloads[..b][..a] == payloads[..a];
    RepeatReferenced(RunItems(payloads), hash, |RunItems(payloads[..a])| + i + 1 + k, |RunItems(payloads[..b])| + m);
  }
}
