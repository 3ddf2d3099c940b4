/** The server's `encode`: cut a packet into chunks, deduplicate, compress, and write the records. */
module Encoder {
  import opened Bytes
  import opened Chunking
  import opened Dedup
  import opened Framing
  import opened Lzw

  /** A chunk and the id its digest is recorded under if it is new. */
  datatype Item = Item(chunk: Data, id: nat)

  ghost predicate NonEmptyItems(items: seq<Item>)
  {
    forall k :: 0 <= k < |items| ==> items[k].chunk != []
  }

  /** The record written for a chunk. */
  function FrameFor(umap: Umap, item: Item, hash: Data -> Digest): Frame
    requires item.chunk != []
  {
    var sent := Answer(umap, hash(item.chunk));
    if sent == ABSENT then Literal(Compressed(item.chunk)) else Reference(sent)
  }

  function UmapAfter(umap: Umap, items: seq<Item>, hash: Data -> Digest): Umap
  {
    if items == [] then umap
    else
      var last := items[|items| - 1];
      Updated(UmapAfter(umap, items[..|items| - 1], hash), last.id, hash(last.chunk))
  }

  /** The records written for a run of chunks. */
  function EncodedFrames(umap: Umap, items: seq<Item>, hash: Data -> Digest): (frames: seq<Frame>)
    requires NonEmptyItems(items)
    ensures |frames| == |items|
  {
    seq(|items|, t requires 0 <= t < |items| => FrameFor(UmapAfter(umap, items[..t], hash), items[t], hash))
  }

  lemma EncodedFrameAt(umap: Umap, items: seq<Item>, hash: Data -> Digest, t: nat)
    requires NonEmptyItems(items) && t < |items|
    ensures EncodedFrames(umap, items, hash)[t] == FrameFor(UmapAfter(umap, items[..t], hash), items[t], hash)
  {
  }

  lemma {:induction false} UmapSplit(umap: Umap, a: seq<Item>, b: seq<Item>, hash: Data -> Digest)
    ensures UmapAfter(umap, a + b, hash) == UmapAfter(UmapAfter(umap, a, hash), b, hash)
  {
    if b == [] {
      assert a + b == a;
    } else {
      var front := b[..|b| - 1];
      UmapSplit(umap, a, front, hash);
      assert (a + b)[..|a + b| - 1] == a + front;
    }
  }

  lemma EncodeSplitAt(umap: Umap, a: seq<Item>, b: seq<Item>, hash: Data -> Digest, t: nat)
    requires t < |a + b|
    ensures t < |a| ==> (a + b)[t] == a[t] && (a + b)[..t] == a[..t]
    ensures t >= |a| ==>
              && (a + b)[t] == b[t - |a|]
              && UmapAfter(umap, (a + b)[..t], hash) == UmapAfter(UmapAfter(umap, a, hash), b[..t - |a|], hash)
  {
    if t >= |a| {
      assert (a + b)[..t] == a + b[..t - |a|];
      UmapSplit(umap, a, b[..t - |a|], hash);
    }
  }

  /** Encoding one run after another is encoding the runs joined, the digest map carried over. */
  lemma EncodeSplit(umap: Umap, a: seq<Item>, b: seq<Item>, hash: Data -> Digest)
    requires NonEmptyItems(a) && NonEmptyItems(b)
    ensures NonEmptyItems(a + b)
    ensures EncodedFrames(umap, a + b, hash)
            == EncodedFrames(umap, a, hash) + EncodedFrames(UmapAfter(umap, a, hash), b, hash)
  {
    hide FrameFor, UmapAfter, EncodedFrames;
    var left, right := EncodedFrames(umap, a, hash), EncodedFrames(UmapAfter(umap, a, hash), b, hash);
    var both := EncodedFrames(umap, a + b, hash);
    forall t | 0 <= t < |both|
      ensures both[t] == if t < |a| then left[t] else right[t - |a|]
    {
      EncodeSplitAt(umap, a, b, hash, t);
      EncodedFrameAt(umap, a + b, hash, t);
      if t < |a| {
        EncodedFrameAt(umap, a, hash, t);
      } else {
        EncodedFrameAt(UmapAfter(umap, a, hash), b, hash, t - |a|);
      }
    }
    assert both == left + right;
  }

  lemma EncodeOne(umap: Umap, item: Item, hash: Data -> Digest)
    requires item.chunk != []
    ensures NonEmptyItems([item])
    ensures UmapAfter(umap, [item], hash) == Updated(umap, item.id, hash(item.chunk))
    ensures EncodedFrames(umap, [item], hash) == [FrameFor(umap, item, hash)]
  {
    hide FrameFor, Updated;
    assert [item][..0] == [];
  }

  lemma EncodeNext(umap: Umap, items: seq<Item>, item: Item, hash: Data -> Digest)
    requires NonEmptyItems(items) && item.chunk != []
    ensures NonEmptyItems(items + [item])
    ensures UmapAfter(umap, items + [item], hash) == Updated(UmapAfter(umap, items, hash), item.id, hash(item.chunk))
    ensures EncodedFrames(umap, items + [item], hash)
            == EncodedFrames(umap, items, hash) + [FrameFor(UmapAfter(umap, items, hash), item, hash)]
  {
    hide FrameFor, Updated, UmapAfter, EncodedFrames;
    EncodeOne(UmapAfter(umap, items, hash), item, hash);
    UmapSplit(umap, items, [item], hash);
    EncodeSplit(umap, items, [item], hash);
  }

  /** The chunks of a packet with the ids `encode` gives them: their index in the packet. */
  function PacketItems(packet: Data): (items: seq<Item>)
    requires |packet| >= WIN_SIZE
    ensures |items| == |Chunks(packet)|
    ensures forall k :: 0 <= k < |items| ==> items[k] == Item(Chunks(packet)[k], k)
  {
    seq(|Chunks(packet)|, k requires 0 <= k < |Chunks(packet)| => Item(Chunks(packet)[k], k))
  }

  lemma PacketItemsNonEmpty(packet: Data)
    requires |packet| >= WIN_SIZE
    ensures NonEmptyItems(PacketItems(packet))
  {
    ChunksPartition(packet);
  }

  /** A packet that is one chunk is one item, with id 0. */
  lemma SingleItem(b: Data)
    requires |b| >= WIN_SIZE && Chunks(b) == [b]
    ensures PacketItems(b) == [Item(b, 0)]
  {
    hide Chunks;
  }

  /** What `std::string(char*)` makes of a buffer: the bytes before the first zero. */
  function CString(buf: Data): Data
  {
    if buf == [] || buf[0] == 0 then [] else [buf[0]] + CString(buf[1..])
  }

  /** `s[i]` of a `std::string` is defined and is `v`: a byte of it, or the zero just after them. */
  predicate Reads(s: Data, i: nat, v: byte)
  {
    if i < |s| then s[i] == v else i == |s| && v == 0
  }

  lemma {:induction false} CStringPrefix(packet: Data, rest: Data)
    requires 0 !in packet
    ensures CString(packet + rest) == packet + CString(rest)
  {
    if packet == [] {
      assert packet + rest == rest;
    } else {
      var buf := packet + rest;
      assert buf[0] == packet[0] && buf[1..] == packet[1..] + rest;
      CStringPrefix(packet[1..], rest);
      assert CString(buf) == [packet[0]] + (packet[1..] + CString(rest));
    }
  }

  lemma {:induction false} CStringLength(buf: Data, i: nat)
    requires i < |buf| && buf[i] == 0
    ensures |CString(buf)| <= i
  {
    if buf[0] != 0 {
      CStringLength(buf[1..], i - 1);
    }
  }

  /** Without a zero before its last byte, the packet is what the string reads as. */
  lemma StringCovers(packet: Data, rest: Data)
    requires packet != [] && 0 !in packet[..|packet| - 1]
    ensures CString(packet + rest)
            == if packet[|packet| - 1] == 0 then packet[..|packet| - 1] else packet + CString(rest)
  {
    var n := |packet| - 1;
    if packet[n] == 0 {
      assert packet + rest == packet[..n] + (packet[n..] + rest);
      CStringPrefix(packet[..n], packet[n..] + rest);
      assert CString(packet[n..] + rest) == [];
    } else {
      assert packet == packet[..n] + [packet[n]];
      CStringPrefix(packet, rest);
    }
  }

  /**
   * `s_packet`, built as a C string from the packet and whatever follows it in its buffer,
   * reads as the packet if and only if no byte before the last is zero.
   */
  lemma PacketStringExact(packet: Data, rest: Data)
    requires packet != []
    ensures (forall i :: 0 <= i < |packet| ==> Reads(CString(packet + rest), i, packet[i]))
            <==> 0 !in packet[..|packet| - 1]
  {
    hide CString;
    var n, s := |packet| - 1, CString(packet + rest);
    if 0 !in packet[..n] {
      StringCovers(packet, rest);
    } else {
      var i :| 0 <= i < n && packet[i] == 0;
      CStringLength(packet + rest, i);
      assert !Reads(s, n, packet[n]);
    }
  }

  /** The part of the output buffer from `base` on holds `bytes`; the part before it is `kept`. */
  ghost predicate Holds(buf: Data, base: nat, kept: Data, bytes: Data)
  {
    base + |bytes| <= |buf| && buf[..base] == kept && buf[base..base + |bytes|] == bytes
  }

  /** `memcpy(&buf[at], src, n)`. */
  method MemCpy(buf: array<byte>, at: nat, src: Data, ghost base: nat, ghost kept: Data, ghost bytes: Data)
    requires at + |src| <= buf.Length && at == base + |bytes| && Holds(buf[..], base, kept, bytes)
    modifies buf
    ensures Holds(buf[..], base, kept, bytes + src)
  {
    for i := 0 to |src|
      invariant buf[..at] == old(buf[..at]) && buf[at..at + i] == src[..i]
    {
      buf[at + i] := src[i];
    }
    assert buf[base..at] == buf[..at][base..] == bytes;
    assert buf[..base] == buf[..at][..base] == kept;
    assert buf[base..at + |src|] == buf[base..at] + buf[at..at + |src|];
  }

  lemma LiteralBytes(bytes: Data, payload: Data)
    ensures (bytes + LittleEndian(LiteralHeader(|payload|))) + payload == bytes + FrameBytes(Literal(payload))
    ensures |FrameBytes(Literal(payload))| == 4 + |payload|
  {
  }

  lemma ReferenceBytes(id: nat)
    ensures FrameBytes(Reference(id)) == LittleEndian(ReferenceHeader(id))
  {
  }

  /** Write one record: the header, then for a new chunk its compressed bytes. */
  method WriteFrame(sent: int, chunkStart: int, chunkEnd: int, packet: Data, buf: array<byte>, at: nat,
                    ghost base: nat, ghost kept: Data, ghost bytes: Data) returns (at': nat, ghost f: Frame)
    requires 0 <= chunkStart <= chunkEnd < |packet| && sent >= -1
    requires at + 4 + 2 * (chunkEnd - chunkStart + 1) <= buf.Length
    requires at == base + |bytes| && Holds(buf[..], base, kept, bytes)
    modifies buf
    ensures f == if sent == ABSENT then Literal(Compressed(Chunk(packet, chunkStart, chunkEnd))) else Reference(sent)
    ensures at' == at + |FrameBytes(f)| && Holds(buf[..], base, kept, bytes + FrameBytes(f))
  {
    hide Holds, LittleEndian, LiteralHeader, ReferenceHeader, Compressed, FrameBytes;
    if sent == ABSENT {
      var outputCode := new byte[2 * (chunkEnd - chunkStart + 1) + 1];
      var outlen := LZW(chunkStart, chunkEnd, packet, outputCode);
      f := Literal(outputCode[..outlen]);
      PadStoreInBounds(Chunk(packet, chunkStart, chunkEnd));
      var header := LittleEndian(LiteralHeader(outlen));
      MemCpy(buf, at, header, base, kept, bytes);
      MemCpy(buf, at + 4, outputCode[..outlen], base, kept, bytes + header);
      at' := at + 4 + outlen;
      LiteralBytes(bytes, outputCode[..outlen]);
    } else {
      f := Reference(sent);
      MemCpy(buf, at, LittleEndian(ReferenceHeader(sent)), base, kept, bytes);
      at' := at + 4;
      ReferenceBytes(sent);
    }
  }

  /** The records of the first `index` chunks are written, and their digests recorded. */
  ghost predicate Progress(packet: Data, hash: Data -> Digest, umap0: Umap, umap: Umap, index: nat, chunkEnd: int,
                           buf: Data, base: nat, kept: Data, outlength: nat)
    requires |packet| >= WIN_SIZE && NonEmptyItems(PacketItems(packet))
  {
    var items := PacketItems(packet);
    && index <= |items| && chunkEnd == (if index == 0 then -1 else ChunkEnds(packet)[index - 1])
    && umap == UmapAfter(umap0, items[..index], hash)
    && outlength == |Serialize(EncodedFrames(umap0, items[..index], hash))| <= 6 * (chunkEnd + 1)
    && Holds(buf, base, kept, Serialize(EncodedFrames(umap0, items[..index], hash)))
  }

  lemma EncodedStart(packet: Data, hash: Data -> Digest, umap0: Umap, buf: Data, base: nat)
    requires |packet| >= WIN_SIZE && NonEmptyItems(PacketItems(packet)) && base <= |buf|
    ensures Progress(packet, hash, umap0, umap0, 0, -1, buf, base, buf[..base], 0)
  {
    assert PacketItems(packet)[..0] == [] && EncodedFrames(umap0, [], hash) == [];
  }

  lemma EncodedSoFar(packet: Data, hash: Data -> Digest, umap0: Umap, umap: Umap, index: nat, chunkEnd: int,
                     buf: Data, base: nat, kept: Data, outlength: nat)
    requires |packet| >= WIN_SIZE && NonEmptyItems(PacketItems(packet))
    requires Progress(packet, hash, umap0, umap, index, chunkEnd, buf, base, kept, outlength)
    ensures index <= |PacketItems(packet)| && NonEmptyItems(PacketItems(packet)[..index])
    ensures chunkEnd == if index == 0 then -1 else ChunkEnds(packet)[index - 1]
    ensures outlength == |Serialize(EncodedFrames(umap0, PacketItems(packet)[..index], hash))| <= 6 * (chunkEnd + 1)
    ensures Holds(buf, base, kept, Serialize(EncodedFrames(umap0, PacketItems(packet)[..index], hash)))
    ensures umap == UmapAfter(umap0, PacketItems(packet)[..index], hash)
  {
  }

  /** Chunk `index` of the packet is the slice the loop takes. */
  lemma NextChunk(packet: Data, index: nat)
    requires |packet| >= WIN_SIZE && index < |ChunkEnds(packet)|
    ensures var start := if index == 0 then 0 else ChunkEnds(packet)[index - 1] + 1;
            && 0 <= start <= ChunkEnds(packet)[index] < |packet|
            && PacketItems(packet)[index] == Item(Chunk(packet, start, ChunkEnds(packet)[index]), index)
  {
    ChunkEndsShape(packet);
    EndsInRange(packet, ChunkEnds(packet), index);
  }

  /** One more chunk of a run adds its record and its digest. */
  lemma FramesNext(umap: Umap, items: seq<Item>, hash: Data -> Digest, t: nat)
    requires NonEmptyItems(items) && t < |items|
    ensures var before := UmapAfter(umap, items[..t], hash);
            && UmapAfter(umap, items[..t + 1], hash) == Updated(before, items[t].id, hash(items[t].chunk))
            && Serialize(EncodedFrames(umap, items[..t + 1], hash))
               == Serialize(EncodedFrames(umap, items[..t], hash)) + FrameBytes(FrameFor(before, items[t], hash))
  {
    assert items[..t + 1] == items[..t] + [items[t]];
    EncodeNext(umap, items[..t], items[t], hash);
    SerializeAppend(EncodedFrames(umap, items[..t], hash), FrameFor(UmapAfter(umap, items[..t], hash), items[t], hash));
  }

  lemma EncodedNext(packet: Data, hash: Data -> Digest, umap0: Umap, umap: Umap, index: nat, chunkEnd: int,
                    buf: Data, buf': Data, base: nat, kept: Data, outlength: nat, f: Frame)
    requires |packet| >= WIN_SIZE && NonEmptyItems(PacketItems(packet))
    requires Progress(packet, hash, umap0, umap, index, chunkEnd, buf, base, kept, outlength)
    requires index < |ChunkEnds(packet)|
    requires f == FrameFor(umap, PacketItems(packet)[index], hash)
    requires Holds(buf', base, kept,
                   Serialize(EncodedFrames(umap0, PacketItems(packet)[..index], hash)) + FrameBytes(f))
    ensures Progress(packet, hash, umap0, Updated(umap, index, hash(PacketItems(packet)[index].chunk)), index + 1,
                     ChunkEnds(packet)[index], buf', base, kept, outlength + |FrameBytes(f)|)
  {
    hide FrameFor, Holds, UmapAfter, EncodedFrames, Serialize, FrameBytes, Updated;
    var items := PacketItems(packet);
    NextChunk(packet, index);
    FramesNext(umap0, items, hash, index);
    FrameForSize(umap, items[index], hash);
  }

  lemma FrameForSize(umap: Umap, item: Item, hash: Data -> Digest)
    requires item.chunk != []
    ensures |FrameBytes(FrameFor(umap, item, hash))| <= 4 + 2 * |item.chunk|
  {
    FrameSize(FrameFor(umap, item, hash), item.chunk);
  }

  /** One turn of the loop: digest, deduplicate, write. */
  method EncodeChunk(dedup: Deduplicator, hash: Data -> Digest, buf: array<byte>, at: nat, packet: Data,
                     chunkStart: int, chunkEnd: int, chunkUniqueId: nat,
                     ghost base: nat, ghost kept: Data, ghost bytes: Data)
    returns (at': nat, ghost f: Frame)
    requires 0 <= chunkStart <= chunkEnd < |packet|
    requires at + 4 + 2 * (chunkEnd - chunkStart + 1) <= buf.Length
    requires at == base + |bytes| && Holds(buf[..], base, kept, bytes)
    modifies dedup, buf
    ensures f == FrameFor(old(dedup.umap), Item(Chunk(packet, chunkStart, chunkEnd), chunkUniqueId), hash)
    ensures dedup.umap == Updated(old(dedup.umap), chunkUniqueId, hash(Chunk(packet, chunkStart, chunkEnd)))
    ensures at' == at + |FrameBytes(f)| && Holds(buf[..], base, kept, bytes + FrameBytes(f))
  {
    var digest := hash(packet[chunkStart..chunkEnd + 1]);
    var sent := dedup.Deduplication(chunkUniqueId, digest);
    at', f := WriteFrame(sent, chunkStart, chunkEnd, packet, buf, at, base, kept, bytes);
  }

  /** The loop of `encode`: pop each chunk end and handle the chunk, until the sentinel. */
  method EncodeChunks(dedup: Deduplicator, hash: Data -> Digest, outputBuf: array<byte>, base: nat, inputBuf: Data,
                      queue: seq<int>) returns (at: nat)
    requires |inputBuf| >= WIN_SIZE && base + 6 * |inputBuf| <= outputBuf.Length
    requires NonEmptyItems(PacketItems(inputBuf))
    requires |ChunkEnds(inputBuf)| < |queue| && queue[|ChunkEnds(inputBuf)|] == -1
    requires forall k :: 0 <= k < |ChunkEnds(inputBuf)| ==> 0 <= queue[k] == ChunkEnds(inputBuf)[k] < |inputBuf|
    modifies dedup, outputBuf
    ensures at >= base
    ensures Progress(inputBuf, hash, old(dedup.umap), dedup.umap, |PacketItems(inputBuf)|,
                     ChunkEnds(inputBuf)[|ChunkEnds(inputBuf)| - 1], outputBuf[..], base, old(outputBuf[..base]),
                     at - base)
  {
    hide FrameFor, Holds, Progress, Serialize, EncodedFrames, UmapAfter, PacketItems, ChunkEnds, Chunks, Chunk;
    ghost var umap0, kept := dedup.umap, outputBuf[..base];
    at := base;
    EncodedStart(inputBuf, hash, umap0, outputBuf[..], base);
    var index, chunkEnd := 0, -1;
    while queue[index] != -1
      invariant index <= |ChunkEnds(inputBuf)| && at >= base
      invariant Progress(inputBuf, hash, umap0, dedup.umap, index, chunkEnd, outputBuf[..], base, kept, at - base)
      decreases |ChunkEnds(inputBuf)| - index
    {
      EncodedSoFar(inputBuf, hash, umap0, dedup.umap, index, chunkEnd, outputBuf[..], base, kept, at - base);
      NextChunk(inputBuf, index);
      var chunkStart := chunkEnd + 1;
      chunkEnd := queue[index];
      ghost var umap, before := dedup.umap, outputBuf[..];
      ghost var f;
      ghost var bytes := Serialize(EncodedFrames(umap0, PacketItems(inputBuf)[..index], hash));
      at, f := EncodeChunk(dedup, hash, outputBuf, at, inputBuf, chunkStart, chunkEnd, index, base, kept, bytes);
      EncodedNext(inputBuf, hash, umap0, umap, index, chunkStart - 1, before, outputBuf[..], base, kept, |bytes|, f);
      index := index + 1;
    }
    EncodedSoFar(inputBuf, hash, umap0, dedup.umap, index, chunkEnd, outputBuf[..], base, kept, at - base);
    assert index == |PacketItems(inputBuf)|;
  }

  /** Encode one packet into `outputBuf` from `base` on. */
  method Encode(dedup: Deduplicator, hash: Data -> Digest, outputBuf: array<byte>, base: nat, inputBuf: Data)
    returns (outlength: nat)
    requires |inputBuf| >= WIN_SIZE && base + 6 * |inputBuf| <= outputBuf.Length
    modifies dedup, outputBuf
    ensures NonEmptyItems(PacketItems(inputBuf))
    ensures dedup.umap == UmapAfter(old(dedup.umap), PacketItems(inputBuf), hash)
    ensures outlength == |Serialize(EncodedFrames(old(dedup.umap), PacketItems(inputBuf), hash))| <= 6 * |inputBuf|
    ensures Holds(outputBuf[..], base, old(outputBuf[..base]),
                  Serialize(EncodedFrames(old(dedup.umap), PacketItems(inputBuf), hash)))
  {
    var qIndex := new int[|inputBuf|](_ => -1);
    ghost var count := Cdc(inputBuf, qIndex);
    QueueShape(inputBuf, qIndex[..], count);
    PacketItemsNonEmpty(inputBuf);
    var at := EncodeChunks(dedup, hash, outputBuf, base, inputBuf, qIndex[..]);
    ChunkEndsShape(inputBuf);
    assert PacketItems(inputBuf)[..|PacketItems(inputBuf)|] == PacketItems(inputBuf);
    outlength := at - base;
  }

  /** The queue holds the chunk ends, none of them negative, then a sentinel. */
  lemma QueueShape(packet: Data, queue: seq<int>, count: nat)
    requires |packet| >= WIN_SIZE && count == |ChunkEnds(packet)| < |queue|
    requires queue[..count] == ChunkEnds(packet) && queue[count] == -1
    ensures forall k :: 0 <= k < count ==> 0 <= queue[k] == ChunkEnds(packet)[k] < |packet|
  {
    ChunkEndsShape(packet);
    forall k | 0 <= k < count
      ensures 0 <= queue[k] == ChunkEnds(packet)[k] < |packet|
    {
      EndsInRange(packet, ChunkEnds(packet), k);
      assert queue[..count][k] == queue[k];
    }
  }

  lemma FrameSize(f: Frame, chunk: Data)
    requires chunk != [] && (f.Literal? ==> f.payload == Compressed(chunk))
    ensures |FrameBytes(f)| <= 4 + 2 * |chunk|
  {
    PadStoreInBounds(chunk);
  }
}
