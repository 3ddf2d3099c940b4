/**
 * The 13-bit limit seen from the sender: up to which block size no file has a chunk that LZW
 * loses. The long chunk of `LzwLimit` has seven odd bytes in every window, so its hashes
 * are odd, no window marks a chunk end, and a block of it reaches LZW whole.
 */
module BlockLimit {
  import opened Bytes
  import opened Chunking
  import opened Client
  import opened Dedup
  import opened Encoder
  import opened EndToEnd
  import opened Framing
  import opened LzwDecoding
  import opened LzwLimit
  import opened RoundTrip
  import opened Server

  // ----- No window of the long chunk is marked -----

  /** Odd bytes of the long chunk before position `h`. */
  function OddsBefore(h: nat): nat
  {
    h / 2 - (h + 14) / 16
  }

  lemma HalfStep(h: nat)
    ensures (h + 1) / 2 == h / 2 + h % 2
  {
  }

  lemma SixteenthStep(h: nat)
    ensures (h + 15) / 16 == (h + 14) / 16 + if h % 16 == 1 then 1 else 0
  {
  }

  lemma OddRemainder(h: nat)
    ensures h % 16 == 1 ==> h % 2 == 1
  {
    assert h == 2 * (8 * (h / 16)) + h % 16;
  }

  lemma OddsStep(h: nat)
    ensures OddsBefore(h + 1) == OddsBefore(h) + if OddAt(h) then 1 else 0
  {
    HalfStep(h);
    SixteenthStep(h);
    OddRemainder(h);
  }

  /** Seven odd bytes in any 16 in a row. */
  lemma OddsInWindow(h: nat)
    ensures OddsBefore(h + WIN_SIZE) == OddsBefore(h) + 7
  {
  }

  lemma {:induction false} OddPower(n: nat)
    ensures Pow3(n) % 2 == 1
  {
    if n > 0 {
      OddPower(n - 1);
    }
  }

  /** Adding an oddly weighed value changes the parity as the value does. */
  lemma ParityStep(sum: nat, v: nat, p: nat, odds: nat)
    requires p % 2 == 1 && sum % 2 == odds % 2
    ensures (sum + v * p) % 2 == (odds + v % 2) % 2
  {
    assert v * p == v + 2 * (v * (p / 2));
  }

  /** The terms of the hash are as odd as the bytes they weigh. */
  lemma {:induction false} SumParity(b: Data, i: nat, n: nat)
    requires n <= WIN_SIZE && i + WIN_SIZE <= |b|
    requires forall k :: 0 <= k < |b| ==> (b[k] % 2 == 1 <==> OddAt(k))
    ensures OddsBefore(i + WIN_SIZE - n) <= OddsBefore(i + WIN_SIZE)
    ensures WindowSum(b, i, n) % 2 == (OddsBefore(i + WIN_SIZE) - OddsBefore(i + WIN_SIZE - n)) % 2
  {
    hide OddsBefore, OddAt, Pow3;
    if n > 0 {
      SumParity(b, i, n - 1);
      var at := i + WIN_SIZE - n;
      OddsStep(at);
      OddPower(n);
      ParityStep(WindowSum(b, i, n - 1), Value(b, at), Pow3(n), OddsBefore(i + WIN_SIZE) - OddsBefore(at + 1));
      OddValue(b, at);
      assert WindowSum(b, i, n) == WindowSum(b, i, n - 1) + Value(b, at) * Pow3(n);
    }
  }

  lemma OddValue(b: Data, k: nat)
    requires k < |b| && (b[k] % 2 == 1 <==> OddAt(k))
    ensures Value(b, k) % 2 == if OddAt(k) then 1 else 0
  {
  }

  lemma LongChunkUnmarked(n: nat, i: nat)
    requires n > SAFE_LENGTH && i + WIN_SIZE <= n
    ensures !Marks(LongChunk(n), i)
  {
    hide LongChunk, WindowSum, OddsBefore, OddAt;
    forall k | 0 <= k < n
      ensures LongChunk(n)[k] % 2 == 1 <==> OddAt(k)
    {
      LongChunkBytes(n, k);
    }
    SumParity(LongChunk(n), i, WIN_SIZE);
    OddsInWindow(i);
    assert WindowHash(LongChunk(n), i) % 2 == 1;
  }

  // ----- Files and block sizes -----

  /** Every new chunk of the file, sent in such blocks, survives compression. */
  ghost predicate FileSurvives(file: Data, blocksize: nat, hash: Data -> Digest)
    requires blocksize >= 1
  {
    && AllChunkable(Blocks(file, blocksize)) && NonEmptyItems(RunItems(Blocks(file, blocksize)))
    && NewSurvive(RunItems(Blocks(file, blocksize)), hash)
  }

  /** A file of one block that is one chunk is one literal. */
  lemma OneLiteral(b: Data, hash: Data -> Digest)
    requires WIN_SIZE <= |b| <= MAX_BLOCKSIZE && Chunks(b) == [b]
    ensures Sendable(b, |b|) && AllChunkable(Blocks(b, |b|))
    ensures var items := RunItems(Blocks(b, |b|));
            && items == [Item(b, 0)] && NonEmptyItems(items) && AllReadable(RunFrames(items, hash))
            && Concat(Pieces(RunFrames(items, hash))) == Recovered(b)
            && (NewSurvive(items, hash) <==> Recovered(b) == b)
  {
    hide Chunks, Recovered, RunFrames, Pieces, Concat, PacketItems;
    LastBlock(|b|, |b|);
    LastBlock(0, |b|);
    var none: seq<Data> := [];
    assert none + [b] == [b] && RunItems(none) == [];
    RunItemsAppend(none, b);
    SingleItem(b);
    var items := [Item(b, 0)];
    assert IsFirst(CallsOf(items, hash), 0);
    RecordExact(items, hash, 0);
    assert Pieces(RunFrames(items, hash)) == [Recovered(b)];
    ConcatOne(Recovered(b));
  }

  /**
   * For every longer block size there is a file of one block, free of zero bytes, that does
   * not come back, whatever the hash function: the decoder writes fewer bytes.
   */
  lemma LongBlockLost(n: nat, hash: Data -> Digest)
    requires SAFE_LENGTH < n <= MAX_BLOCKSIZE
    ensures Sendable(LongChunk(n), n) && 0 !in LongChunk(n) && !FileSurvives(LongChunk(n), n, hash)
    ensures AllChunkable(Blocks(LongChunk(n), n))
    ensures var items := RunItems(Blocks(LongChunk(n), n));
            && NonEmptyItems(items) && AllReadable(RunFrames(items, hash))
            && |Concat(Pieces(RunFrames(items, hash)))| < n
  {
    hide LongChunk, Marks, Chunks, Recovered, RunFrames, Pieces, Concat, Exhausting, RunItems, Blocks;
    var b := LongChunk(n);
    forall i | 0 <= i < n
      ensures b[i] != 0
    {
      LongChunkBytes(n, i);
    }
    forall i | WIN_SIZE <= i < n - WIN_SIZE
      ensures !Marks(b, i)
    {
      LongChunkUnmarked(n, i);
    }
    OneChunkExact(b);
    LongChunkExhausting(n);
    ExhaustingLost(b);
    OneLiteral(b, hash);
  }

  /** Every file sent in blocks of this size survives compression if and only if the size is at most 7938. */
  lemma BlockSizeExact(blocksize: nat, hash: Data -> Digest)
    requires WIN_SIZE <= blocksize <= MAX_BLOCKSIZE
    ensures (forall file: Data :: Sendable(file, blocksize) ==> FileSurvives(file, blocksize, hash))
            <==> blocksize <= SAFE_LENGTH
  {
    hide Sendable, FileSurvives, LongChunk;
    if blocksize <= SAFE_LENGTH {
      forall file: Data | Sendable(file, blocksize)
        ensures FileSurvives(file, blocksize, hash)
      {
        ShortBlocksSurvive(file, blocksize, hash);
      }
    } else {
      LongBlockLost(blocksize, hash);
    }
  }

  lemma ShortBlocksSurvive(file: Data, blocksize: nat, hash: Data -> Digest)
    requires Sendable(file, blocksize) && blocksize <= SAFE_LENGTH
    ensures FileSurvives(file, blocksize, hash)
  {
    hide Blocks, RunItems, Concat, NewSurvive;
    FileSession(file, blocksize);
    BlocksPartition(file, blocksize);
    ShortPayloadsSurvive(Blocks(file, blocksize), hash);
  }
}
