/** The sender: cut a file into packets with a two-byte header, and the receiver's reading of that header. */
module Client {
  import opened Bytes
  import opened Bits

  const MAX_BLOCKSIZE := 16384
  const HEADER := 2

  // ----- The packet header -----

  /** Low byte, then high byte with the DONE bit on the last packet. */
  function PacketHeader(length: nat, done: bool): (h: Data)
    ensures |h| == HEADER
  {
    var high := ShiftRight(length, 8);
    [And(length, 0xFF) % 256, (if done then Or(high % 256, 0x80) else high) % 256]
  }

  /** `(buffer[0] | (buffer[1] << 8)) & ~DONE_BIT_H`, in 16 bits. */
  function PacketLength(packet: Data): nat
    requires |packet| >= HEADER
  {
    And(Or(packet[0], ShiftLeft(packet[1], 8)), 0x7FFF)
  }

  /** `buffer[1] & DONE_BIT_L`. */
  predicate IsDone(packet: Data)
    requires |packet| >= HEADER
  {
    And(packet[1], 0x80) != 0
  }

  /** The bytes the receiver passes on. */
  function Payload(packet: Data): Data
    requires |packet| >= HEADER && HEADER + PacketLength(packet) <= |packet|
  {
    packet[HEADER..HEADER + PacketLength(packet)]
  }

  function Packet(block: Data, done: bool): (packet: Data)
    ensures |packet| == HEADER + |block|
  {
    PacketHeader(|block|, done) + block
  }

  lemma SmallPowers()
    ensures Pow2(7) == 128 && Pow2(8) == 256 && Pow2(15) == 32768
    ensures Ones(8) == 0xFF && Ones(15) == 0x7FFF && ShiftLeft(1, 7) == 0x80
  {
    assert Ones(4) == 15 && Ones(8) == 255 && Ones(12) == 4095;
    assert Pow2(4) == 16 && Pow2(8) == 256 && Pow2(12) == 4096;
    assert ShiftLeft(1, 4) == 16;
  }

  /** The two header bytes the sender writes, in numbers. */
  lemma HeaderWritten(length: nat, done: bool)
    requires length < 32768
    ensures PacketHeader(length, done) == [length % 256, length / 256 + if done then 128 else 0]
  {
    hide And, Or, ShiftRight, ShiftLeft, Ones, Pow2;
    SmallPowers();
    AndOnes(length, 8);
    ShiftRightValue(length, 8);
    OrAdds(length / 256, 1, 7);
  }

  /** What the receiver takes from two header bytes, whatever they are. */
  lemma HeaderRead(packet: Data)
    requires |packet| >= HEADER
    ensures PacketLength(packet) == (packet[0] as int + 256 * packet[1] as int) % 32768
    ensures IsDone(packet) <==> packet[1] >= 128
  {
    hide And, Or, ShiftLeft, Ones, Pow2;
    SmallPowers();
    var low: nat, high: nat := packet[0], packet[1];
    ShiftLeftValue(high, 8);
    OrAdds(low, high, 8);
    AndOnes(low + 256 * high, 15);
    AndTop(high, 7);
  }

  /** The receiver reads back the length the sender wrote. */
  lemma LengthInverse(block: Data, done: bool)
    requires |block| < 32768
    ensures PacketLength(Packet(block, done)) == |block|
    ensures Payload(Packet(block, done)) == block
  {
    hide And, Or, ShiftRight, ShiftLeft, PacketHeader, PacketLength;
    HeaderWritten(|block|, done);
    HeaderRead(Packet(block, done));
  }

  /** A header holds lengths of 15 bits. */
  lemma LengthBound(packet: Data)
    requires |packet| >= HEADER
    ensures PacketLength(packet) <= 32767
  {
    HeaderRead(packet);
  }

  /** The receiver sees the DONE bit the sender wrote, whatever the length. */
  lemma DoneInverse(block: Data, done: bool)
    requires |block| < 32768
    ensures IsDone(Packet(block, done)) <==> done
  {
    hide And, Or, ShiftRight, ShiftLeft, PacketHeader, PacketLength, IsDone;
    HeaderWritten(|block|, done);
    HeaderRead(Packet(block, done));
  }

  // ----- Cutting the file -----

  /** The file in blocks of `blocksize`, the last one possibly shorter. */
  function Blocks(file: Data, blocksize: nat): (blocks: seq<Data>)
    requires blocksize >= 1
  {
    if |file| <= blocksize then [file] else [file[..blocksize]] + Blocks(file[blocksize..], blocksize)
  }

  /** The packets for these blocks: DONE on the last one only. */
  function Packets(blocks: seq<Data>): (packets: seq<Data>)
    ensures |packets| == |blocks|
    ensures forall k :: 0 <= k < |blocks| ==> packets[k] == Packet(blocks[k], k == |blocks| - 1)
  {
    seq(|blocks|, k requires 0 <= k < |blocks| => Packet(blocks[k], k == |blocks| - 1))
  }

  /** The blocks are full but the last, none is empty, and together they are the file. */
  lemma {:induction false} BlocksPartition(file: Data, blocksize: nat)
    requires blocksize >= 1 && file != []
    ensures Concat(Blocks(file, blocksize)) == file && |Blocks(file, blocksize)| >= 1
    ensures forall k :: 0 <= k < |Blocks(file, blocksize)| ==> 1 <= |Blocks(file, blocksize)[k]| <= blocksize
    ensures forall k :: 0 <= k < |Blocks(file, blocksize)| - 1 ==> |Blocks(file, blocksize)[k]| == blocksize
    decreases |file|
  {
    if |file| <= blocksize {
      ConcatOne(file);
    } else {
      var first, rest := file[..blocksize], file[blocksize..];
      BlocksPartition(rest, blocksize);
      ConcatOne(first);
      hide Concat;
      ConcatSplit([first], Blocks(rest, blocksize));
      assert Blocks(file, blocksize) == [first] + Blocks(rest, blocksize);
      assert file == first + rest;
    }
  }

  /** The last block is full when the block size divides the file, and the remainder otherwise. */
  lemma {:induction false} LastBlockLength(file: Data, blocksize: nat)
    requires blocksize >= 1 && file != []
    ensures |Blocks(file, blocksize)| >= 1
    ensures |Blocks(file, blocksize)[|Blocks(file, blocksize)| - 1]|
            == if |file| % blocksize == 0 then blocksize else |file| % blocksize
    decreases |file|
  {
    LastBlock(|file|, blocksize);
    if |file| <= blocksize {
      LastBlock(|file| - |file|, blocksize);
    } else {
      LastBlockLength(file[blocksize..], blocksize);
    }
  }

  lemma LastBlock(n: nat, m: nat)
    requires m >= 1
    ensures n >= m ==> n % m == (n - m) % m
    ensures n < m ==> n % m == n
  {
    if n >= m {
      RemainderUnique(n - m, m, n / m - 1, n % m);
    } else {
      SmallRemainder(n, m);
    }
  }

  /** Read back, the packets give the blocks in order, and exactly the last one is marked DONE. */
  lemma SegmentationConserves(file: Data, blocksize: nat)
    requires 1 <= blocksize <= MAX_BLOCKSIZE && file != []
    ensures var packets := Packets(Blocks(file, blocksize));
            && |packets| >= 1
            && (forall k :: 0 <= k < |packets| ==>
                              && HEADER + PacketLength(packets[k]) == |packets[k]|
                              && Payload(packets[k]) == Blocks(file, blocksize)[k]
                              && (IsDone(packets[k]) <==> k == |packets| - 1))
            && Concat(seq(|packets|, k requires 0 <= k < |packets| => Payload(packets[k]))) == file
  {
    var blocks := Blocks(file, blocksize);
    var packets := Packets(blocks);
    BlocksPartition(file, blocksize);
    forall k | 0 <= k < |packets|
      ensures HEADER + PacketLength(packets[k]) == |packets[k]| && Payload(packets[k]) == blocks[k]
      ensures IsDone(packets[k]) <==> k == |packets| - 1
    {
      LengthInverse(blocks[k], k == |blocks| - 1);
      DoneInverse(blocks[k], k == |blocks| - 1);
    }
    assert seq(|packets|, k requires 0 <= k < |packets| => Payload(packets[k])) == blocks;
  }

  // ----- The sender -----

  /** Fill the `local` buffer with one packet and send it. */
  method SendPacket(local: array<byte>, buff: Data, at: nat, length: nat, done: bool, sent: seq<Data>)
    returns (sent': seq<Data>)
    requires local.Length == MAX_BLOCKSIZE + HEADER && length <= MAX_BLOCKSIZE && at + length <= |buff|
    modifies local
    ensures sent' == sent + [Packet(buff[at..at + length], done)]
  {
    hide And, Or, ShiftRight;
    for i := 0 to length
      invariant forall j :: HEADER <= j < HEADER + i ==> local[j] == buff[at + j - HEADER]
    {
      local[HEADER + i] := buff[at + i];
    }
    assert local[HEADER..HEADER + length] == buff[at..at + length];
    var high := ShiftRight(length, 8);
    local[0] := And(length, 0xFF) % 256;
    local[1] := (if done then Or(high % 256, 0x80) else high) % 256;
    sent' := sent + [local[..length + HEADER]];
    assert local[..length + HEADER] == PacketHeader(length, done) + local[HEADER..HEADER + length];
  }

  /** Send a file that has at least one block. */
  method SendFile(buff: Data, blocksize: nat) returns (sent: seq<Data>)
    requires 1 <= blocksize <= MAX_BLOCKSIZE && |buff| >= blocksize
    ensures sent == Packets(Blocks(buff, blocksize))
  {
    hide Packet, Plain, Blocks;
    var remainder, loops := |buff| % blocksize, |buff| / blocksize;
    var local := new byte[MAX_BLOCKSIZE + HEADER];
    sent := [];
    ghost var blocks: seq<Data> := [];
    LoopsPositive(|buff|, blocksize);
    PlainNone();
    var n := 0;
    assert buff[0..] == buff && blocks + Blocks(buff, blocksize) == Blocks(buff, blocksize);
    while n < loops - 1
      invariant 0 <= n <= loops - 1 && n * blocksize <= |buff|
      invariant Plain(sent, blocks) && Blocks(buff, blocksize) == blocks + Blocks(buff[n * blocksize..], blocksize)
    {
      NextOffset(n, loops, blocksize);
      NextBlock(buff, n * blocksize, blocksize, blocks);
      PlainNext(sent, blocks, buff[n * blocksize..n * blocksize + blocksize]);
      sent := SendPacket(local, buff, n * blocksize, blocksize, false, sent);
      blocks := blocks + [buff[n * blocksize..n * blocksize + blocksize]];
      n := n + 1;
    }
    NextOffset(n, loops, blocksize);
    sent := SendTail(local, buff, n * blocksize, blocksize, remainder, sent, blocks);
  }

  /** After the loop: the last full block, marked DONE when nothing remains, and the remainder. */
  method SendTail(local: array<byte>, buff: Data, at: nat, blocksize: nat, remainder: nat, sent: seq<Data>,
                  ghost blocks: seq<Data>) returns (sent': seq<Data>)
    requires local.Length == MAX_BLOCKSIZE + HEADER && 1 <= blocksize <= MAX_BLOCKSIZE
    requires remainder < blocksize && |buff| == at + blocksize + remainder
    requires at + blocksize == FinalRead(|buff|, blocksize)
    requires Plain(sent, blocks) && Blocks(buff, blocksize) == blocks + Blocks(buff[at..], blocksize)
    modifies local
    ensures sent' == Packets(Blocks(buff, blocksize))
  {
    hide Packet, FinalRead;
    if remainder == 0 {
      sent' := SendPacket(local, buff, at, blocksize, true, sent);
      assert buff[at..] == buff[at..at + blocksize];
      LastPlain(sent', blocks, buff[at..]);
    } else {
      NextBlock(buff, at, blocksize, blocks);
      sent' := SendPacket(local, buff, at, blocksize, false, sent);
      ghost var blocks' := blocks + [buff[at..at + blocksize]];
      assert Plain(sent', blocks');
      sent' := SendPacket(local, buff, at + blocksize, remainder, true, sent');
      assert buff[at + blocksize..] == buff[at + blocksize..at + blocksize + remainder];
      LastPlain(sent', blocks', buff[at + blocksize..]);
    }
  }

  /** Packets sent before the last one: the blocks so far, none marked DONE. */
  ghost predicate Plain(sent: seq<Data>, blocks: seq<Data>)
  {
    |sent| == |blocks| && forall k :: 0 <= k < |blocks| ==> sent[k] == Packet(blocks[k], false)
  }

  lemma PlainNone()
    ensures Plain([], [])
  {
  }

  lemma PlainNext(sent: seq<Data>, blocks: seq<Data>, block: Data)
    requires Plain(sent, blocks)
    ensures Plain(sent + [Packet(block, false)], blocks + [block])
  {
  }

  lemma LastPlain(sent: seq<Data>, blocks: seq<Data>, last: Data)
    requires |sent| == |blocks| + 1 && Plain(sent[..|blocks|], blocks) && sent[|blocks|] == Packet(last, true)
    ensures sent == Packets(blocks + [last])
  {
    forall k | 0 <= k < |blocks|
      ensures sent[k] == Packet(blocks[k], false)
    {
      assert sent[..|blocks|][k] == sent[k];
    }
  }

  lemma NextBlock(buff: Data, at: nat, blocksize: nat, blocks: seq<Data>)
    requires blocksize >= 1 && at + blocksize < |buff|
    requires Blocks(buff, blocksize) == blocks + Blocks(buff[at..], blocksize)
    ensures Blocks(buff, blocksize) == blocks + [buff[at..at + blocksize]] + Blocks(buff[at + blocksize..], blocksize)
  {
    assert buff[at..][..blocksize] == buff[at..at + blocksize];
    assert buff[at..][blocksize..] == buff[at + blocksize..];
  }

  lemma ProductOrder(a: nat, b: nat, c: nat)
    requires a <= b
    ensures a * c <= b * c
  {
    assert b * c == a * c + (b - a) * c;
  }

  /** The `n`th block ends inside the `loops` full blocks. */
  lemma NextOffset(n: nat, loops: nat, blocksize: nat)
    requires n < loops
    ensures (n + 1) * blocksize == n * blocksize + blocksize <= loops * blocksize
    ensures n + 1 < loops ==> n * blocksize + 2 * blocksize <= loops * blocksize
  {
    ProductOrder(n + 1, loops, blocksize);
    if n + 1 < loops {
      ProductOrder(n + 2, loops, blocksize);
    }
  }

  lemma LoopsPositive(size: nat, blocksize: nat)
    requires 1 <= blocksize <= size
    ensures size / blocksize >= 1
    ensures size == size / blocksize * blocksize + size % blocksize
  {
  }

  /**
   * The full block that is always copied is the last one, or reaches past a file shorter
   * than a block: every byte copied lies in the file if and only if it has at least one block.
   */
  lemma ReadsInBounds(size: nat, blocksize: nat)
    requires 1 <= blocksize
    ensures FinalRead(size, blocksize) == if size >= blocksize then size - size % blocksize else blocksize
    ensures FinalRead(size, blocksize) <= size <==> size >= blocksize
  {
    if size >= blocksize {
      LoopsPositive(size, blocksize);
      assert (size / blocksize - 1) * blocksize + blocksize == size / blocksize * blocksize;
    } else {
      SmallRemainder(size, blocksize);
      RemainderUnique(size, blocksize, 0, size);
      assert size / blocksize == 0;
    }
  }

  /** End of the last full block the sender copies: block `max(loops - 1, 0)`. */
  function FinalRead(size: nat, blocksize: nat): nat
    requires blocksize >= 1
  {
    var n := if size / blocksize >= 1 then size / blocksize - 1 else 0;
    n * blocksize + blocksize
  }
}
