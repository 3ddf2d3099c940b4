/**
 * Decoding what was encoded, record by record: when does every record of a run come back
 * as the chunk it was written for?
 */
module RoundTrip {
  import opened Bytes
  import opened Dedup
  import opened Encoder
  import opened Framing
  import opened Lzw
  import opened LzwCoding
  import opened LzwDecoding
  import LzwLimit
  import opened Packing

  // ----- One literal -----

  /** Byte-level LZW: whatever the chunk, `Decompress` of its bytes gives `Recovered` of the chunk. */
  lemma CompressedRecovered(s: Data)
    requires s != []
    ensures Readable(Compressed(s)) && Decompressed(Compressed(s)) == Recovered(s)
  {
    var codes, packed := Codes(s), Compressed(s);
    EncoderParses(s);
    MaskedDecodable(Words(s), codes);
    ExactStop(|codes|);
    assert packed + [] == packed;
    forall k | 0 <= k < |codes|
      ensures InputCodes(packed, |codes|)[k] == Masked(codes)[k]
    {
      ReadPacked(codes, [], k);
    }
    assert InputCodes(packed, |codes|) == Masked(codes);
  }

  /** Byte-level LZW round trip: every chunk of at most 7938 bytes decompresses to itself. */
  lemma LzwRoundTrip(s: Data)
    requires 1 <= |s| <= SAFE_LENGTH
    ensures Readable(Compressed(s)) && Decompressed(Compressed(s)) == s
  {
    CompressedRecovered(s);
    ShortChunkRecovered(s);
  }

  /** Byte-level LZW, exactly: all chunks of `n` bytes decompress to themselves if and only if `n` is at most 7938. */
  lemma LzwExact(n: nat)
    requires n >= 1
    ensures (forall s: Data :: |s| == n ==> Readable(Compressed(s)) && Decompressed(Compressed(s)) == s)
            <==> n <= SAFE_LENGTH
  {
    hide Recovered, Compressed, Decompressed, Readable;
    LzwLimit.SafeLengthExact(n);
    forall s: Data | |s| == n
      ensures Readable(Compressed(s)) && Decompressed(Compressed(s)) == Recovered(s)
    {
      CompressedRecovered(s);
    }
  }

  lemma CompressedValid(s: Data)
    requires s != [] && 2 * |s| < HALF_WORD
    ensures ValidFrame(Literal(Compressed(s)))
  {
    PadStoreInBounds(s);
    assert |Compressed(s)| == PackedLength(|Codes(s)|);
  }

  // ----- A run of chunks -----

  /** The calls of `deduplication` that a run of chunks makes. */
  function CallsOf(items: seq<Item>, hash: Data -> Digest): (calls: seq<Call>)
    ensures |calls| == |items|
    ensures forall t :: 0 <= t < |items| ==> calls[t] == Call(items[t].id, hash(items[t].chunk))
  {
    seq(|items|, t requires 0 <= t < |items| => Call(items[t].id, hash(items[t].chunk)))
  }

  lemma {:induction false} UmapOfCalls(items: seq<Item>, hash: Data -> Digest, t: nat)
    requires t <= |items|
    ensures UmapAfter(map[], items[..t], hash) == AfterCalls(CallsOf(items, hash)[..t])
  {
    if t > 0 {
      UmapOfCalls(items, hash, t - 1);
      assert items[..t][..t - 1] == items[..t - 1];
      assert CallsOf(items, hash)[..t][..t - 1] == CallsOf(items, hash)[..t - 1];
    }
  }

  /** The records of a run that starts with an empty digest map. */
  function RunFrames(items: seq<Item>, hash: Data -> Digest): (frames: seq<Frame>)
    requires NonEmptyItems(items)
    ensures |frames| == |items|
  {
    EncodedFrames(map[], items, hash)
  }

  /** A chunk is sent in full exactly when its digest is new; otherwise the first-recorded id is sent. */
  lemma RunFrame(items: seq<Item>, hash: Data -> Digest, t: nat)
    requires NonEmptyItems(items) && t < |items|
    ensures var calls := CallsOf(items, hash);
            RunFrames(items, hash)[t] == if IsFirst(calls, t) then Literal(Compressed(items[t].chunk))
                                         else Reference(items[Earliest(calls, t, calls[t].digest)].id)
  {
    EncodedFrameAt(map[], items, hash, t);
    UmapOfCalls(items, hash, t);
    AnswerExact(CallsOf(items, hash), t);
  }

  lemma RunReadable(items: seq<Item>, hash: Data -> Digest)
    requires NonEmptyItems(items)
    ensures AllReadable(RunFrames(items, hash))
  {
    forall t | 0 <= t < |items|
      ensures FrameReadable(RunFrames(items, hash)[t])
    {
      RunFrame(items, hash, t);
      CompressedRecovered(items[t].chunk);
    }
  }

  /** The decoder's database after `t` records: the new chunks among the first `t`, as recovered. */
  lemma {:induction false} RunDatabase(items: seq<Item>, hash: Data -> Digest, frames: seq<Frame>, t: nat)
    requires NonEmptyItems(items) && t <= |items| && frames == RunFrames(items, hash) && AllReadable(frames[..t])
    ensures var firsts := Firsts(CallsOf(items, hash), t);
            && |Database(frames[..t])| == |firsts|
            && forall p :: 0 <= p < |firsts| ==>
                             firsts[p] < |items| && Database(frames[..t])[p] == Recovered(items[firsts[p]].chunk)
  {
    hide Decompressed, Compressed, Recovered, RunFrames, Readable;
    if t > 0 {
      assert frames[..t][..t - 1] == frames[..t - 1];
      assert forall i :: 0 <= i < t - 1 ==> frames[..t - 1][i] == frames[..t][i];
      RunDatabase(items, hash, frames, t - 1);
      RunFrame(items, hash, t - 1);
      CompressedRecovered(items[t - 1].chunk);
    }
  }

  lemma {:induction false} PiecesAt(frames: seq<Frame>, t: nat)
    requires AllReadable(frames) && t < |frames|
    ensures AllReadable(frames[..t]) && FrameReadable(frames[t])
    ensures Pieces(frames)[t] == Piece(frames[t], Database(frames[..t]))
  {
    if t < |frames| - 1 {
      var front := frames[..|frames| - 1];
      assert AllReadable(front);
      PiecesAt(front, t);
      assert front[..t] == frames[..t];
    }
  }

  /** Every new chunk of the run survives compression. */
  ghost predicate NewSurvive(items: seq<Item>, hash: Data -> Digest)
    requires NonEmptyItems(items)
  {
    forall t :: 0 <= t < |items| && IsFirst(CallsOf(items, hash), t) ==> Recovered(items[t].chunk) == items[t].chunk
  }

  /** New chunks whose codes all fit 13 bits, as those of at most 7938 bytes do, survive. */
  lemma FittingSurvive(items: seq<Item>, hash: Data -> Digest)
    requires NonEmptyItems(items)
    requires forall t :: 0 <= t < |items| && IsFirst(CallsOf(items, hash), t) ==> Fits(items[t].chunk)
    ensures NewSurvive(items, hash)
  {
    forall t | 0 <= t < |items| && IsFirst(CallsOf(items, hash), t)
      ensures Recovered(items[t].chunk) == items[t].chunk
    {
      FitsRecovered(items[t].chunk);
    }
  }

  /**
   * A repeated digest at `t` resolves: the id recorded with its first occurrence is the number
   * of new chunks sent before that occurrence, and the two chunks are the same.
   */
  ghost predicate Resolves(items: seq<Item>, hash: Data -> Digest, t: nat)
    requires t < |items|
  {
    var calls := CallsOf(items, hash);
    var u := Earliest(calls, t, calls[t].digest);
    !IsFirst(calls, t) ==> items[u].id == |Firsts(calls, u)| && items[u].chunk == items[t].chunk
  }

  ghost predicate AllResolve(items: seq<Item>, hash: Data -> Digest)
  {
    forall t :: 0 <= t < |items| ==> Resolves(items, hash, t)
  }

  /**
   * What the decoder writes for record `t`, in terms of the run alone: a new chunk as its
   * codes name it; for a repeated digest, the new chunk whose rank is the recorded id, or
   * nothing when there is none.
   */
  ghost function Returned(items: seq<Item>, hash: Data -> Digest, t: nat): Data
    requires NonEmptyItems(items) && t < |items|
  {
    var calls := CallsOf(items, hash);
    FirstsExact(calls, t);
    var id, firsts := items[Earliest(calls, t, calls[t].digest)].id, Firsts(calls, t);
    if IsFirst(calls, t) then Recovered(items[t].chunk)
    else if id < |firsts| then Recovered(items[firsts[id]].chunk)
    else []
  }

  /** Record by record, whatever the hash function, the recorded ids and the chunks. */
  lemma RecordExact(items: seq<Item>, hash: Data -> Digest, t: nat)
    requires NonEmptyItems(items) && t < |items|
    ensures AllReadable(RunFrames(items, hash))
    ensures Pieces(RunFrames(items, hash))[t] == Returned(items, hash, t)
  {
    hide Decompressed, Compressed, Recovered, Database, Firsts, RunFrames, IsFirst, Earliest, Pieces;
    hide Readable;
    var frames, calls := RunFrames(items, hash), CallsOf(items, hash);
    RunReadable(items, hash);
    PiecesAt(frames, t);
    RunDatabase(items, hash, frames, t);
    RunFrame(items, hash, t);
    if IsFirst(calls, t) {
      CompressedRecovered(items[t].chunk);
    }
  }

  /** What a reference to `id` would find: the right chunk exactly when `id` is the rank of the first occurrence. */
  lemma ReferenceExact(items: seq<Item>, hash: Data -> Digest, t: nat)
    requires NonEmptyItems(items) && t < |items| && !IsFirst(CallsOf(items, hash), t)
    ensures var calls := CallsOf(items, hash);
            var u, firsts := Earliest(calls, t, calls[t].digest), Firsts(calls, t);
            && (forall p :: 0 <= p < |firsts| ==> firsts[p] < |items|)
            && ((items[u].id < |firsts| && items[firsts[items[u].id]].chunk == items[t].chunk)
                <==> items[u].id == |Firsts(calls, u)| && items[u].chunk == items[t].chunk)
  {
    var calls := CallsOf(items, hash);
    var u, firsts := Earliest(calls, t, calls[t].digest), Firsts(calls, t);
    AnswerExact(calls, t);
    FirstsExact(calls, t);
    FirstsRank(calls, t, u);
    var id := items[u].id;
    if id < |firsts| && items[firsts[id]].chunk == items[t].chunk {
      var v := firsts[id];
      assert calls[v].digest == calls[t].digest == calls[u].digest;
      assert v == u;
    }
  }

  /** When the new chunks survive, a record comes back as its chunk if and only if it is new or resolves. */
  lemma ReturnedExact(items: seq<Item>, hash: Data -> Digest, t: nat)
    requires NonEmptyItems(items) && NewSurvive(items, hash) && t < |items|
    ensures Returned(items, hash, t) == items[t].chunk <==> Resolves(items, hash, t)
  {
    hide Recovered, Firsts, IsFirst, Earliest;
    var calls := CallsOf(items, hash);
    FirstsExact(calls, t);
    if !IsFirst(calls, t) {
      ReferenceExact(items, hash, t);
    }
  }

  /**
   * The exact condition for a run to come back record by record, for any chunks, any hash
   * function and any recorded ids: every new chunk survives compression and every repeated
   * digest resolves.
   */
  lemma RunExact(items: seq<Item>, hash: Data -> Digest)
    requires NonEmptyItems(items)
    ensures AllReadable(RunFrames(items, hash))
    ensures (forall t :: 0 <= t < |items| ==> Pieces(RunFrames(items, hash))[t] == items[t].chunk)
            <==> NewSurvive(items, hash) && AllResolve(items, hash)
  {
    hide Resolves, RunFrames, Pieces, Recovered, IsFirst;
    RunReadable(items, hash);
    forall t | 0 <= t < |items|
      ensures Pieces(RunFrames(items, hash))[t] == Returned(items, hash, t)
    {
      RecordExact(items, hash, t);
    }
    if NewSurvive(items, hash) {
      forall t | 0 <= t < |items|
        ensures Returned(items, hash, t) == items[t].chunk <==> Resolves(items, hash, t)
      {
        ReturnedExact(items, hash, t);
      }
    }
  }
}
