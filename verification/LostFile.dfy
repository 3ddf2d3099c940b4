/**
 * Files the ids of the code lose: a block, then another block twice, each of them a single
 * chunk. All three chunks are recorded under id 0, their index in their packet, so the third
 * packet is sent as a reference to the first block.
 */
module LostFile {
  import opened Bytes
  import opened Chunking
  import opened Client
  import opened Dedup
  import opened Encoder
  import opened EndToEnd
  import opened Framing
  import opened LzwDecoding
  import opened RoundTrip
  import opened Server

  /** Two blocks of one chunk each. */
  ghost predicate SingleChunks(x: Data, y: Data)
  {
    WIN_SIZE <= |x| == |y| <= MAX_BLOCKSIZE && Chunks(x) == [x] && Chunks(y) == [y]
  }

  lemma BlockThen(x: Data, rest: Data)
    requires x != [] && rest != []
    ensures Blocks(x + rest, |x|) == [x] + Blocks(rest, |x|)
  {
    assert (x + rest)[..|x|] == x && (x + rest)[|x|..] == rest;
  }

  lemma OneBlock(x: Data)
    ensures |x| > 0 ==> Blocks(x, |x|) == [x]
  {
  }

  lemma ThreeBlocks(x: Data, y: Data)
    requires |x| == |y| > 0
    ensures Blocks(x + y + y, |x|) == [x, y, y]
  {
    hide Blocks;
    BlockThen(x, y + y);
    BlockThen(y, y);
    OneBlock(y);
    Reassociate(x, y, y);
    assert [x] + ([y] + [y]) == [x, y, y];
  }

  lemma Reassociate(x: Data, y: Data, z: Data)
    ensures x + y + z == x + (y + z)
  {
  }

  function FileItems(x: Data, y: Data): (items: seq<Item>)
    ensures |items| == 3
  {
    [Item(x, 0), Item(y, 0), Item(y, 0)]
  }

  lemma FileRun(x: Data, y: Data)
    requires SingleChunks(x, y)
    ensures Sendable(x + y + y, |x|) && AllChunkable(Blocks(x + y + y, |x|))
    ensures RunItems(Blocks(x + y + y, |x|)) == FileItems(x, y)
  {
    hide Chunks, Blocks;
    ThreeBlocks(x, y);
    WholeBlocks(|x|);
    assert |x + y + y| == 3 * |x|;
    RunOfThree(x, y);
  }

  lemma RunOfTwo(x: Data, y: Data)
    requires |x| >= WIN_SIZE && |y| >= WIN_SIZE
    ensures RunItems([x, y]) == PacketItems(x) + PacketItems(y)
  {
    hide RunItems, PacketItems;
    var none: seq<Data> := [];
    RunOfNone();
    RunItemsAppend(none, x);
    RunItemsAppend([x], y);
    assert none + [x] == [x] && [x] + [y] == [x, y];
  }

  lemma RunOfThree(x: Data, y: Data)
    requires SingleChunks(x, y)
    ensures RunItems([x, y, y]) == FileItems(x, y)
  {
    hide RunItems, PacketItems, Chunks;
    SingleItem(x);
    SingleItem(y);
    RunOfTwo(x, y);
    RunItemsAppend([x, y], y);
    assert [x, y] + [y] == [x, y, y];
    assert [Item(x, 0)] + [Item(y, 0)] + [Item(y, 0)] == FileItems(x, y);
  }

  lemma RunOfNone()
    ensures RunItems([]) == []
  {
  }

  lemma WholeBlocks(n: nat)
    requires n > 0
    ensures 3 * n % n == 0
  {
    LastBlock(3 * n, n);
    LastBlock(2 * n, n);
    LastBlock(n, n);
    LastBlock(0, n);
  }

  /** A repeated digest of such a run gives back the first block. */
  lemma ReturnedFirst(x: Data, y: Data, hash: Data -> Digest, t: nat)
    requires x != [] && y != [] && 1 <= t < 3 && !IsFirst(CallsOf(FileItems(x, y), hash), t)
    ensures NonEmptyItems(FileItems(x, y)) && Returned(FileItems(x, y), hash, t) == Recovered(x)
  {
    hide Recovered, Earliest;
    var calls := CallsOf(FileItems(x, y), hash);
    FirstsExact(calls, t);
    FirstsRank(calls, t, 0);
    assert |Firsts(calls, 0)| == 0;
  }

  /** What comes back for each of the three blocks. */
  lemma FileReturned(x: Data, y: Data, hash: Data -> Digest)
    requires x != [] && y != []
    ensures var items := FileItems(x, y);
            && NonEmptyItems(items) && AllReadable(RunFrames(items, hash))
            && Pieces(RunFrames(items, hash))
               == [Recovered(x), if hash(x) == hash(y) then Recovered(x) else Recovered(y), Recovered(x)]
  {
    hide Recovered, RunFrames, Pieces, Returned;
    var items := FileItems(x, y);
    var calls := CallsOf(items, hash);
    assert calls[1].digest == calls[2].digest;
    FirstReturned(items, hash, 0);
    if hash(x) == hash(y) {
      assert calls[0].digest == calls[1].digest;
      ReturnedFirst(x, y, hash, 1);
    } else {
      FirstReturned(items, hash, 1);
    }
    ReturnedFirst(x, y, hash, 2);
    RecordExact(items, hash, 0);
    RecordExact(items, hash, 1);
    RecordExact(items, hash, 2);
  }

  lemma FirstReturned(items: seq<Item>, hash: Data -> Digest, t: nat)
    requires NonEmptyItems(items) && t < |items| && IsFirst(CallsOf(items, hash), t)
    ensures Returned(items, hash, t) == Recovered(items[t].chunk)
  {
  }

  lemma ConcatThree(p: Data, q: Data, r: Data)
    ensures Concat([p, q, r]) == p + q + r
  {
    ConcatOne(p);
    ConcatAppend([p], q);
    ConcatAppend([p, q], r);
    assert [p] + [q] == [p, q] && [p, q] + [r] == [p, q, r];
  }

  /**
   * The decoder's output for such a file, for every hash function: the last block comes back
   * as the first. It is the file only if the two blocks are equal.
   */
  lemma RepeatedBlockLost(x: Data, y: Data, hash: Data -> Digest)
    requires SingleChunks(x, y) && Fits(x) && Fits(y)
    ensures Sendable(x + y + y, |x|) && AllChunkable(Blocks(x + y + y, |x|))
    ensures var items := RunItems(Blocks(x + y + y, |x|));
            && NonEmptyItems(items) && AllReadable(RunFrames(items, hash))
            && Concat(Pieces(RunFrames(items, hash))) == x + (if hash(x) == hash(y) then x else y) + x
            && (Concat(Pieces(RunFrames(items, hash))) == x + y + y <==> x == y)
  {
    hide Recovered, RunFrames, Pieces, Concat, Blocks, RunItems, Fits, Chunks;
    FileRun(x, y);
    FileReturned(x, y, hash);
    FitsRecovered(x);
    FitsRecovered(y);
    var middle := if hash(x) == hash(y) then x else y;
    ConcatThree(x, middle, x);
    LastThird(x, middle, y);
  }

  lemma LastThird(x: Data, middle: Data, y: Data)
    requires |x| == |y| == |middle|
    ensures x + middle + x == x + y + y <==> x == y && middle == y
  {
    if x + middle + x == x + y + y {
      assert (x + middle + x)[|x|..][..|x|] == middle && (x + y + y)[|x|..][..|x|] == y;
      assert (x + middle + x)[2 * |x|..] == x && (x + y + y)[2 * |x|..] == y;
    }
  }

  /** Any two different blocks of 16 to 32 bytes make such a file: too short for the scan to cut them. */
  lemma ShortFileLost(x: Data, y: Data, hash: Data -> Digest)
    requires WIN_SIZE <= |x| == |y| <= 2 * WIN_SIZE && x != y
    ensures Sendable(x + y + y, |x|) && AllChunkable(Blocks(x + y + y, |x|))
    ensures var items := RunItems(Blocks(x + y + y, |x|));
            && NonEmptyItems(items) && AllReadable(RunFrames(items, hash))
            && Concat(Pieces(RunFrames(items, hash))) != x + y + y
  {
    hide RunFrames, Pieces, Concat, Blocks, RunItems, Fits, Chunks;
    OneChunkExact(x);
    OneChunkExact(y);
    ShortChunkFits(x);
    ShortChunkFits(y);
    RepeatedBlockLost(x, y, hash);
  }
}
