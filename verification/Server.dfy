/** The server's main loop: receive packets into a ring of buffers until DONE, encode each. */
module Server {
  import opened Bytes
  import opened Chunking
  import opened Client
  import opened Dedup
  import opened Encoder
  import opened Framing
  import opened RoundTrip

  const NUM_PACKETS := 8
  const PIPE_DEPTH := 4

  /** A packet that can be decoded, with enough bytes for the chunker. */
  predicate Encodable(packet: Data)
  {
    |packet| >= HEADER && HEADER + PacketLength(packet) <= |packet| && PacketLength(packet) >= WIN_SIZE
  }

  ghost predicate AllEncodable(packets: seq<Data>)
  {
    forall k {:trigger packets[k]} :: 0 <= k < |packets| ==> Encodable(packets[k])
  }

  /** The packets of a session: all of them decodable, and exactly the last one marked DONE. */
  ghost predicate Session(packets: seq<Data>)
  {
    && packets != [] && AllEncodable(packets)
    && forall k {:trigger packets[k]} :: 0 <= k < |packets| ==> (IsDone(packets[k]) <==> k == |packets| - 1)
  }

  /** A received packet in numbers: the 15-bit length it announces, and bit 7 of its second byte. */
  function Announced(packet: Data): nat
    requires |packet| >= 2
  {
    (packet[0] as int + 256 * packet[1] as int) % 32768
  }

  lemma SessionExactly(packets: seq<Data>)
    ensures Session(packets)
            <==> && packets != []
                 && forall k {:trigger packets[k]} :: 0 <= k < |packets| ==>
                      && |packets[k]| >= 2 && 16 <= Announced(packets[k]) <= |packets[k]| - 2
                      && (packets[k][1] >= 128 <==> k == |packets| - 1)
  {
    hide PacketLength, IsDone;
    forall k {:trigger packets[k]} | 0 <= k < |packets| && |packets[k]| >= 2
      ensures PacketLength(packets[k]) == Announced(packets[k]) && (IsDone(packets[k]) <==> packets[k][1] >= 128)
    {
      HeaderRead(packets[k]);
    }
  }

  ghost predicate AllChunkable(payloads: seq<Data>)
  {
    forall k :: 0 <= k < |payloads| ==> |payloads[k]| >= WIN_SIZE
  }

  function Payloads(packets: seq<Data>): (payloads: seq<Data>)
    requires AllEncodable(packets)
    ensures |payloads| == |packets| && AllChunkable(payloads)
    ensures forall k :: 0 <= k < |packets| ==> payloads[k] == Payload(packets[k])
  {
    seq(|packets|, k requires 0 <= k < |packets| => Payload(packets[k]))
  }

  /** The chunks of a run of packets, each with its index in its own packet. */
  function RunItems(payloads: seq<Data>): (items: seq<Item>)
    requires AllChunkable(payloads)
  {
    if payloads == [] then []
    else RunItems(payloads[..|payloads| - 1]) + PacketItems(payloads[|payloads| - 1])
  }

  lemma {:induction false} RunItemsNonEmpty(payloads: seq<Data>)
    requires AllChunkable(payloads)
    ensures NonEmptyItems(RunItems(payloads))
  {
    if payloads != [] {
      RunItemsNonEmpty(payloads[..|payloads| - 1]);
      PacketItemsNonEmpty(payloads[|payloads| - 1]);
    }
  }

  lemma RunItemsAppend(payloads: seq<Data>, payload: Data)
    requires AllChunkable(payloads) && |payload| >= WIN_SIZE
    ensures RunItems(payloads + [payload]) == RunItems(payloads) + PacketItems(payload)
  {
    assert (payloads + [payload])[..|payloads|] == payloads;
  }

  /** The chunks of packet `a` stand in the run after those of the packets before it. */
  lemma {:induction false} RunItemsAt(payloads: seq<Data>, a: nat, k: nat)
    requires AllChunkable(payloads) && a < |payloads| && k < |PacketItems(payloads[a])|
    ensures var base := |RunItems(payloads[..a])|;
            base + k < |RunItems(payloads)| && RunItems(payloads)[base + k] == PacketItems(payloads[a])[k]
  {
    hide PacketItems;
    if a < |payloads| - 1 {
      var front := payloads[..|payloads| - 1];
      assert front[..a] == payloads[..a];
      RunItemsAt(front, a, k);
    }
  }

  /** The chunks in order. */
  function ChunksOf(items: seq<Item>): (chunks: seq<Data>)
    ensures |chunks| == |items|
    ensures forall t :: 0 <= t < |items| ==> chunks[t] == items[t].chunk
  {
    seq(|items|, t requires 0 <= t < |items| => items[t].chunk)
  }

  lemma ChunksOfSplit(a: seq<Item>, b: seq<Item>)
    ensures ChunksOf(a + b) == ChunksOf(a) + ChunksOf(b)
  {
  }

  lemma ChunksOfPacket(packet: Data)
    requires |packet| >= WIN_SIZE
    ensures Concat(ChunksOf(PacketItems(packet))) == packet
  {
    ChunksPartition(packet);
    assert ChunksOf(PacketItems(packet)) == Chunks(packet);
  }

  /** The chunks of a run are its payloads cut up: laid end to end they are the payloads laid end to end. */
  lemma {:induction false} RunItemsCover(payloads: seq<Data>)
    requires AllChunkable(payloads)
    ensures Concat(ChunksOf(RunItems(payloads))) == Concat(payloads)
  {
    if payloads != [] {
      var front, last := payloads[..|payloads| - 1], payloads[|payloads| - 1];
      RunItemsCover(front);
      ChunksOfPacket(last);
      ChunksOfSplit(RunItems(front), PacketItems(last));
      ConcatSplit(ChunksOf(RunItems(front)), ChunksOf(PacketItems(last)));
    }
  }

  /** These payloads are encoded into the first `offset` bytes of `file`. */
  ghost predicate Served(payloads: seq<Data>, hash: Data -> Digest, umap: Umap, file: Data, offset: nat)
    requires AllChunkable(payloads)
  {
    var items := RunItems(payloads);
    && NonEmptyItems(items)
    && umap == UmapAfter(map[], items, hash)
    && offset <= |file| && file[..offset] == Serialize(RunFrames(items, hash))
    && offset <= 6 * |Concat(payloads)|
  }

  /** What `Encode` does for one payload extends the run. */
  lemma ServedNext(payloads: seq<Data>, payload: Data, hash: Data -> Digest, umap: Umap, umap': Umap,
                   file: Data, file': Data, offset: nat, length: nat)
    requires AllChunkable(payloads) && |payload| >= WIN_SIZE && Served(payloads, hash, umap, file, offset)
    requires NonEmptyItems(PacketItems(payload)) && umap' == UmapAfter(umap, PacketItems(payload), hash)
    requires length == |Serialize(EncodedFrames(umap, PacketItems(payload), hash))| <= 6 * |payload|
    requires Holds(file', offset, file[..offset], Serialize(EncodedFrames(umap, PacketItems(payload), hash)))
    ensures Served(payloads + [payload], hash, umap', file', offset + length)
  {
    hide RunItems, PacketItems, UmapAfter, EncodedFrames, RunFrames, Serialize, Concat;
    RunNext(payloads, payload, hash);
    ConcatAppend(payloads, payload);
    FilledNext(file, file', offset, Serialize(EncodedFrames(umap, PacketItems(payload), hash)));
  }

  lemma RunNext(payloads: seq<Data>, payload: Data, hash: Data -> Digest)
    requires AllChunkable(payloads) && |payload| >= WIN_SIZE
    requires NonEmptyItems(RunItems(payloads)) && NonEmptyItems(PacketItems(payload))
    ensures var umap := UmapAfter(map[], RunItems(payloads), hash);
            && NonEmptyItems(RunItems(payloads + [payload]))
            && UmapAfter(map[], RunItems(payloads + [payload]), hash) == UmapAfter(umap, PacketItems(payload), hash)
            && Serialize(RunFrames(RunItems(payloads + [payload]), hash))
               == Serialize(RunFrames(RunItems(payloads), hash))
                  + Serialize(EncodedFrames(umap, PacketItems(payload), hash))
  {
    var items, next := RunItems(payloads), PacketItems(payload);
    assert (payloads + [payload])[..|payloads|] == payloads;
    UmapSplit(map[], items, next, hash);
    EncodeSplit(map[], items, next, hash);
    SerializeSplit(RunFrames(items, hash), EncodedFrames(UmapAfter(map[], items, hash), next, hash));
  }

  lemma FilledNext(file: Data, file': Data, offset: nat, bytes: Data)
    requires offset <= |file| && Holds(file', offset, file[..offset], bytes)
    ensures offset + |bytes| <= |file'| && file'[..offset + |bytes|] == file[..offset] + bytes
  {
    assert file'[..offset + |bytes|] == file'[..offset] + file'[offset..offset + |bytes|];
  }

  /** The ring slot packet `k` of a session is received into. */
  function Slot(k: nat): (slot: nat)
    ensures slot < NUM_PACKETS
  {
    (PIPE_DEPTH + k) % NUM_PACKETS
  }

  /** The ring holds the latest of the first `n` packets, each in its slot. */
  ghost predicate RingHolds(ring: seq<Data>, packets: seq<Data>, n: nat)
  {
    && |ring| == NUM_PACKETS && n <= |packets|
    && forall k :: n - NUM_PACKETS <= k < n && k >= 0 ==> ring[Slot(k)] == packets[k]
  }

  /** The slots follow each other around the ring. */
  lemma NextSlot(k: nat)
    ensures Slot(k + 1) == if Slot(k) + 1 == NUM_PACKETS then 0 else Slot(k) + 1
  {
  }

  lemma SlotsDiffer(k: nat, n: nat)
    requires n - NUM_PACKETS < k < n
    ensures Slot(k) != Slot(n)
  {
  }

  lemma RingNext(ring: seq<Data>, packets: seq<Data>, n: nat)
    requires RingHolds(ring, packets, n) && n < |packets|
    ensures RingHolds(ring[Slot(n) := packets[n]], packets, n + 1)
  {
    hide Slot;
    forall k | n + 1 - NUM_PACKETS <= k < n && k >= 0
      ensures ring[Slot(n) := packets[n]][Slot(k)] == packets[k]
    {
      SlotsDiffer(k, n);
    }
  }

  /** One packet: fetch it into its ring slot, decode the header, encode the payload. */
  method ServePacket(ring: array<Data>, writer: nat, packet: Data, dedup: Deduplicator, hash: Data -> Digest,
                     file: array<byte>, offset: nat, ghost payloads: seq<Data>) returns (offset': nat, done: bool)
    requires ring.Length == NUM_PACKETS && writer < NUM_PACKETS && Encodable(packet)
    requires offset + 6 * |Payload(packet)| <= file.Length
    requires AllChunkable(payloads) && Served(payloads, hash, dedup.umap, file[..], offset)
    modifies ring, dedup, file
    ensures done <==> IsDone(packet)
    ensures ring[..] == old(ring[..])[writer := packet]
    ensures Served(payloads + [Payload(packet)], hash, dedup.umap, file[..], offset')
  {
    hide RunItems, PacketItems, UmapAfter, EncodedFrames, RunFrames, Serialize, Concat, PacketLength;
    ring[writer] := packet;
    var buffer := ring[writer];
    done := IsDone(buffer);
    var length := PacketLength(buffer);
    ghost var umap, before := dedup.umap, file[..];
    var outputLength := Encode(dedup, hash, file, offset, buffer[HEADER..HEADER + length]);
    ServedNext(payloads, Payload(packet), hash, umap, dedup.umap, before, file[..], offset, outputLength);
    offset' := offset + outputLength;
  }

  /** What is served and the next payload fit in the session's total. */
  lemma RoomLeft(payloads: seq<Data>, n: nat, hash: Data -> Digest, umap: Umap, file: Data, offset: nat)
    requires AllChunkable(payloads) && n < |payloads| && AllChunkable(payloads[..n])
    requires Served(payloads[..n], hash, umap, file, offset)
    ensures offset + 6 * |payloads[n]| <= 6 * |Concat(payloads)|
  {
    ConcatAt(payloads, n);
  }

  lemma ServedNothing(hash: Data -> Digest, file: Data)
    ensures Served([], hash, map[], file, 0)
  {
    assert RunFrames([], hash) == [];
  }

  /** The whole session, packet by packet until DONE. */
  method Serve(network: seq<Data>, ring: array<Data>, dedup: Deduplicator, hash: Data -> Digest, file: array<byte>)
    returns (offset: nat)
    requires Session(network) && dedup.umap == map[] && ring.Length == NUM_PACKETS
    requires file.Length >= 6 * |Concat(Payloads(network))|
    modifies ring, dedup, file
    ensures Served(Payloads(network), hash, dedup.umap, file[..], offset)
    ensures forall k :: 0 <= k < |network| && |network| - 8 <= k ==> ring[(4 + k) % 8] == network[k]
  {
    hide Served, RunItems, Concat, Payload, PacketLength, IsDone, Slot, RingHolds;
    ghost var payloads := Payloads(network);
    var writer, n := PIPE_DEPTH, 0;
    var done;
    ServedNothing(hash, file[..]);
    RingStart(ring[..], network);
    assert payloads[..0] == [];
    RoomLeft(payloads, 0, hash, map[], file[..], 0);
    RingNext(ring[..], network, 0);
    offset, done := ServePacket(ring, writer, network[0], dedup, hash, file, 0, []);
    assert [] + [payloads[0]] == payloads[..1];
    writer, n := writer + 1, n + 1;
    while !done
      invariant 1 <= n <= |network| && writer == Slot(n - 1) + 1 && offset >= 0
      invariant done <==> n == |network|
      invariant RingHolds(ring[..], network, n)
      invariant AllChunkable(payloads[..n]) && Served(payloads[..n], hash, dedup.umap, file[..], offset)
      decreases |network| - n
    {
      NextSlot(n - 1);
      if writer == NUM_PACKETS {
        writer := 0;
      }
      RoomLeft(payloads, n, hash, dedup.umap, file[..], offset);
      RingNext(ring[..], network, n);
      offset, done := ServePacket(ring, writer, network[n], dedup, hash, file, offset, payloads[..n]);
      assert payloads[..n] + [payloads[n]] == payloads[..n + 1];
      writer, n := writer + 1, n + 1;
    }
    assert payloads[..n] == payloads;
    RingSlots(ring[..], network);
  }

  /** The slots in numbers. */
  lemma RingSlots(ring: seq<Data>, packets: seq<Data>)
    requires RingHolds(ring, packets, |packets|)
    ensures |ring| == 8
    ensures forall k :: 0 <= k < |packets| && |packets| - 8 <= k ==> ring[(4 + k) % 8] == packets[k]
  {
  }

  lemma RingStart(ring: seq<Data>, packets: seq<Data>)
    requires |ring| == NUM_PACKETS
    ensures RingHolds(ring, packets, 0) && Slot(0) == PIPE_DEPTH
  {
  }
}
