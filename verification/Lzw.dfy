/** The LZW encoder: the growing string table and the in-place 13-bit packer. */
module Lzw {
  import opened Bytes
  import opened Bits
  import opened LzwCoding
  import opened Packing

  // ----- One code into the buffer -----

  /** Bit position within a byte where the code after `appeartimes` codes (mod 8) starts. */
  function Offset(appeartimes: nat): nat
  {
    13 * appeartimes % 8
  }

  /** `code` has been written at bit `base`, and no other bit of the buffer has changed. */
  ghost predicate Written(before: Data, after: Data, base: nat, code: nat)
  {
    && |after| == |before|
    && forall i :: 0 <= i < 8 * |before| ==>
                     BufferBit(after, i)
                     == if base <= i < base + 13 then Bit(code, 12 - (i - base)) else BufferBit(before, i)
  }

  ghost predicate Clear(buf: Data, base: nat)
  {
    forall i :: base <= i < base + 13 && i < 8 * |buf| ==> BufferBit(buf, i) == 0
  }

  /** `output[at] |= piece`, stored into an `unsigned char`. */
  function OrInto(buf: Data, at: nat, piece: nat): Data
    requires at < |buf|
  {
    buf[at := Or(buf[at], piece) % 256]
  }

  /** Byte `at` has gained the bits of `code` that fall in it, and no other byte has changed. */
  ghost predicate Gained(before: Data, after: Data, at: nat, base: nat, code: nat)
  {
    && |after| == |before|
    && forall i :: 0 <= i < 8 * |before| ==>
                     BufferBit(after, i) == if i / 8 == at && base <= i < base + 13 && Bit(code, 12 - (i - base)) == 1
                                            then 1 else BufferBit(before, i)
  }

  /** A code's leading bits, or eight of its middle bits, shifted right into a byte. */
  lemma RightPiece(buf: Data, at: nat, base: nat, code: nat, mask: nat, w: nat, n: nat)
    requires at < |buf| && n + 8 * at == base + 5 && w <= 8 && (w == 8 || n + w == 13) && n + w <= 13
    requires mask == ShiftLeft(Ones(w), n)
    ensures Gained(buf, OrInto(buf, at, ShiftRight(And(code, mask), n)), at, base, code)
  {
    hide And, Or, ShiftRight, ShiftLeft, Ones, Bit;
    var piece := ShiftRight(And(code, mask), n);
    forall i | 0 <= i < 8 * |buf| && i / 8 == at
      ensures BufferBit(OrInto(buf, at, piece), i)
              == if base <= i < base + 13 && Bit(code, 12 - (i - base)) == 1 then 1 else BufferBit(buf, i)
    {
      var k := 7 - i % 8;
      assert i == 8 * at + 7 - k;
      BitStored(Or(buf[at], piece), k);
      BitOr(buf[at], piece, k);
      FieldRight(code, mask, w, n, n, k);
    }
  }

  /** A code's trailing bits shifted left to the top of a byte. */
  lemma LeftPiece(buf: Data, at: nat, base: nat, code: nat, mask: nat, n: nat)
    requires at < |buf| && 8 * at == base + 5 + n && n <= 8
    requires mask == Ones(8 - n)
    ensures Gained(buf, OrInto(buf, at, ShiftLeft(And(code, mask), n)), at, base, code)
  {
    hide And, Or, ShiftRight, ShiftLeft, Ones, Bit;
    var piece := ShiftLeft(And(code, mask), n);
    forall i | 0 <= i < 8 * |buf| && i / 8 == at
      ensures BufferBit(OrInto(buf, at, piece), i)
              == if base <= i < base + 13 && Bit(code, 12 - (i - base)) == 1 then 1 else BufferBit(buf, i)
    {
      var k := 7 - i % 8;
      assert i == 8 * at + 7 - k;
      BitStored(Or(buf[at], piece), k);
      BitOr(buf[at], piece, k);
      FieldLeft(code, mask, 8 - n, n, k);
    }
  }

  /** The pieces of a code together write it. */
  lemma GainedAll(buf: Data, first: Data, second: Data, third: Data, at: nat, base: nat, code: nat)
    requires Gained(buf, first, at, base, code) && Gained(first, second, at + 1, base, code)
    requires Gained(second, third, at + 2, base, code)
    requires 8 * at <= base < 8 * at + 8 && Clear(buf, base)
    ensures Written(buf, third, base, code)
  {
    forall i | 0 <= i < 8 * |buf|
      ensures BufferBit(third, i) == if base <= i < base + 13 then Bit(code, 12 - (i - base)) else BufferBit(buf, i)
    {
      assert BufferBit(first, i) == if i / 8 == at && base <= i < base + 13 && Bit(code, 12 - (i - base)) == 1
                                    then 1 else BufferBit(buf, i);
      assert BufferBit(second, i) == if i / 8 == at + 1 && base <= i < base + 13 && Bit(code, 12 - (i - base)) == 1
                                     then 1 else BufferBit(first, i);
    }
  }

  /** The statement `output[at] |= piece`. */
  method OrByte(output: array<byte>, at: nat, piece: nat)
    requires at < output.Length
    modifies output
    ensures output[..] == OrInto(old(output[..]), at, piece)
  {
    output[at] := Or(output[at], piece) % 256;
  }

  /** A code that starts at bit `r` of a byte, `r` at most 3, ends in the next byte. */
  method StoreTwo(output: array<byte>, outlen: nat, ghost r: nat, code: nat, mask1: nat, right1: nat,
                  mask2: nat, left2: nat)
    returns (last: nat)
    requires r <= 3 && outlen + 1 < output.Length && Clear(output[..], 8 * outlen + r)
    requires right1 == 5 + r && mask1 == ShiftLeft(Ones(8 - r), right1)
    requires left2 == 3 - r && mask2 == Ones(8 - left2)
    modifies output
    ensures last == outlen + 1
    ensures Written(old(output[..]), output[..], 8 * outlen + r, code)
  {
    ghost var before := output[..];
    last := outlen;
    OrByte(output, last, ShiftRight(And(code, mask1), right1));
    last := last + 1;
    ghost var first := output[..];
    OrByte(output, last, ShiftLeft(And(code, mask2), left2));
    RightPiece(before, outlen, 8 * outlen + r, code, mask1, 8 - r, right1);
    LeftPiece(first, outlen + 1, 8 * outlen + r, code, mask2, left2);
    GainedAll(before, first, output[..], output[..], outlen, 8 * outlen + r, code);
  }

  /** A code that starts at bit `r` of a byte, `r` at least 4, ends two bytes later. */
  method StoreThree(output: array<byte>, outlen: nat, ghost r: nat, code: nat, mask1: nat, right1: nat,
                    mask2: nat, right2: nat, mask3: nat, left3: nat)
    returns (last: nat)
    requires 4 <= r <= 7 && outlen + 2 < output.Length && Clear(output[..], 8 * outlen + r)
    requires right1 == 5 + r && mask1 == ShiftLeft(Ones(8 - r), right1)
    requires right2 == r - 3 && mask2 == ShiftLeft(Ones(8), right2)
    requires left3 == 11 - r && mask3 == Ones(8 - left3)
    modifies output
    ensures last == outlen + 2
    ensures Written(old(output[..]), output[..], 8 * outlen + r, code)
  {
    ghost var before := output[..];
    last := outlen;
    OrByte(output, last, ShiftRight(And(code, mask1), right1));
    last := last + 1;
    ghost var first := output[..];
    OrByte(output, last, ShiftRight(And(code, mask2), right2));
    last := last + 1;
    ghost var second := output[..];
    OrByte(output, last, ShiftLeft(And(code, mask3), left3));
    RightPiece(before, outlen, 8 * outlen + r, code, mask1, 8 - r, right1);
    RightPiece(first, outlen + 1, 8 * outlen + r, code, mask2, 8, right2);
    LeftPiece(second, outlen + 2, 8 * outlen + r, code, mask3, left3);
    GainedAll(before, first, second, output[..], outlen, 8 * outlen + r, code);
  }

  /** Each mask of the packer selects a run of bits. */
  lemma Masks()
    ensures ShiftLeft(Ones(8), 5) == 0x1FE0 && Ones(5) == 0x001F
    ensures ShiftLeft(Ones(3), 10) == 0x1C00 && ShiftLeft(Ones(8), 2) == 0x03FC && Ones(2) == 0x0003
    ensures ShiftLeft(Ones(6), 7) == 0x1F80 && Ones(7) == 0x007F
    ensures ShiftLeft(Ones(1), 12) == 0x1000 && ShiftLeft(Ones(8), 4) == 0x0FF0 && Ones(4) == 0x000F
    ensures ShiftLeft(Ones(4), 9) == 0x1E00 && ShiftLeft(Ones(8), 1) == 0x01FE && Ones(1) == 0x0001
    ensures ShiftLeft(Ones(7), 6) == 0x1FC0 && Ones(6) == 0x003F
    ensures ShiftLeft(Ones(2), 11) == 0x1800 && ShiftLeft(Ones(8), 3) == 0x07F8 && Ones(3) == 0x0007
    ensures ShiftLeft(Ones(5), 8) == 0x1F00 && Ones(8) == 0x00FF
  {
  }

  /**
   * The eight-case packer, with the masks and shifts of each state (the masks are the
   * source's binary literals in hexadecimal; a shift of 0 is its unshifted last case).
   * Returns the index of the last byte the code touches.
   */
  method StoreCode(output: array<byte>, outlen: nat, appeartimes: nat, code: nat) returns (last: nat)
    requires appeartimes < 8
    requires (8 * outlen + Offset(appeartimes) + 12) / 8 < output.Length
    requires Clear(output[..], 8 * outlen + Offset(appeartimes))
    modifies output
    ensures last == (8 * outlen + Offset(appeartimes) + 12) / 8
    ensures Written(old(output[..]), output[..], 8 * outlen + Offset(appeartimes), code)
  {
    Masks();
    hide ShiftLeft, Ones, Written, Clear;
    if appeartimes == 0 {
      last := StoreTwo(output, outlen, 0, code, 0x1FE0, 5, 0x001F, 3);
    } else if appeartimes == 1 {
      last := StoreThree(output, outlen, 5, code, 0x1C00, 10, 0x03FC, 2, 0x0003, 6);
    } else if appeartimes == 2 {
      last := StoreTwo(output, outlen, 2, code, 0x1F80, 7, 0x007F, 1);
    } else if appeartimes == 3 {
      last := StoreThree(output, outlen, 7, code, 0x1000, 12, 0x0FF0, 4, 0x000F, 4);
    } else if appeartimes == 4 {
      last := StoreThree(output, outlen, 4, code, 0x1E00, 9, 0x01FE, 1, 0x0001, 7);
    } else if appeartimes == 5 {
      last := StoreTwo(output, outlen, 1, code, 0x1FC0, 6, 0x003F, 2);
    } else if appeartimes == 6 {
      last := StoreThree(output, outlen, 6, code, 0x1800, 11, 0x07F8, 3, 0x0007, 5);
    } else {
      last := StoreTwo(output, outlen, 3, code, 0x1F00, 8, 0x00FF, 0);
    }
  }

  // ----- The encoder -----

  /** The bytes the encoder writes for a chunk. */
  function Compressed(s: Data): (packed: Data)
    requires s != []
    ensures |packed| == PackedLength(|Codes(s)|)
  {
    PackBytes(Codes(s))
  }

  /** Every bit of the compressed chunk: the codes, 13 bits each, highest first, then zeros. */
  lemma CompressedBits(s: Data, i: nat)
    requires s != [] && i / 8 < |Compressed(s)|
    ensures BufferBit(Compressed(s), i) == if i / 13 < |Codes(s)| then Bit(Codes(s)[i / 13], 12 - i % 13) else 0
  {
    PackedBits(Codes(s), i);
  }

  /** The compressed chunk is the one byte string of this length and this number. */
  lemma CompressedExact(s: Data, packed: Data)
    requires s != []
    ensures packed == Compressed(s)
            <==> && |packed| == (13 * |Codes(s)| + 7) / 8
                 && BytesNumber(packed) == CodesNumber(Codes(s)) * Pow2(8 * |packed| - 13 * |Codes(s)|)
  {
    PackedExact(Codes(s), packed);
  }

  /** Appending a written code to a packed buffer. */
  lemma PacksNext(before: Data, after: Data, codes: seq<nat>, code: nat, size: nat)
    requires size <= |before| && Packs(before, codes, size)
    requires Written(before, after, 13 * |codes|, code)
    ensures Packs(after, codes + [code], size)
  {
    forall i | 0 <= i < 8 * size
      ensures BufferBit(after, i) == StreamBit(codes + [code], i)
    {
      PackAppend(codes, code, i);
      assert BufferBit(before, i) == StreamBit(codes, i);
    }
  }

  lemma PacksClear(buf: Data, codes: seq<nat>, size: nat)
    requires size <= |buf| && Packs(buf, codes, size) && PackedLength(|codes| + 1) <= size
    ensures Clear(buf, 13 * |codes|)
  {
    forall i | 13 * |codes| <= i < 13 * |codes| + 13 && i < 8 * |buf|
      ensures BufferBit(buf, i) == 0
    {
      assert BufferBit(buf, i) == StreamBit(codes, i);
    }
  }

  /** The packer's state and position follow the number of codes emitted. */
  lemma StatePosition(k: nat)
    ensures 8 * (13 * k / 8) + Offset(k % 8) == 13 * k
    ensures 13 * (k + 1) / 8 == (13 * k + 12) / 8 + if k % 8 == 7 then 1 else 0
    ensures (k % 8 + 1) % 8 == (k + 1) % 8
  {
    var q, r := k / 8, k % 8;
    assert k == 8 * q + r;
    Eightfold(13 * q, 13 * r);
    Eightfold(13 * q, 13 * r + 12);
    Eightfold(13 * q, 13 * r + 13);
    Eightfold(q, r + 1);
    assert 8 * (13 * q) + 13 * r == 13 * k;
    StateAdvance(r);
  }

  lemma Eightfold(a: nat, b: nat)
    ensures (8 * a + b) / 8 == a + b / 8
    ensures (8 * a + b) % 8 == b % 8
  {
  }

  lemma StateAdvance(r: nat)
    requires r < 8
    ensures (13 * r + 13) / 8 == (13 * r + 12) / 8 + if r == 7 then 1 else 0
  {
    if r < 4 {
      assert r == 0 || r == 1 || r == 2 || r == 3;
    } else {
      assert r == 4 || r == 5 || r == 6 || r == 7;
    }
  }

  /** A code emitted inside the loop: `outlen` moves past the bytes that are complete. */
  method EmitCode(output: array<byte>, outlen: nat, appeartimes: nat, code: nat, ghost codes: seq<nat>, ghost size: nat)
    returns (outlen': nat, appeartimes': nat)
    requires PackedLength(|codes| + 1) <= size <= output.Length && Packs(output[..], codes, size)
    requires outlen == 13 * |codes| / 8 && appeartimes == |codes| % 8
    modifies output
    ensures Packs(output[..], codes + [code], size)
    ensures outlen' == 13 * (|codes| + 1) / 8 && appeartimes' == (|codes| + 1) % 8
  {
    StatePosition(|codes|);
    PacksClear(output[..], codes, size);
    ghost var before := output[..];
    var last := StoreCode(output, outlen, appeartimes, code);
    PacksNext(before, output[..], codes, code, size);
    outlen' := if appeartimes == 7 then last + 1 else last;
    appeartimes' := (appeartimes + 1) % 8;
  }

  /** The code left pending after the loop, and the padding: `outlen` counts every byte. */
  method FlushCode(output: array<byte>, outlen: nat, appeartimes: nat, code: nat, ghost codes: seq<nat>,
                   ghost size: nat)
    returns (outlen': nat)
    requires PackedLength(|codes| + 1) <= size <= output.Length && Packs(output[..], codes, size)
    requires PackedLength(|codes| + 1) < output.Length
    requires outlen == 13 * |codes| / 8 && appeartimes == |codes| % 8
    modifies output
    ensures outlen' == PackedLength(|codes| + 1) < output.Length && output[outlen'] == 0
    ensures output[..outlen'] == PackBytes(codes + [code])
  {
    StatePosition(|codes|);
    PacksClear(output[..], codes, size);
    ghost var before := output[..];
    outlen' := StoreCode(output, outlen, appeartimes, code);
    PacksNext(before, output[..], codes, code, size);
    PacksBytes(output[..], codes + [code], size);
    ghost var packed := output[..];
    PadGuard(|codes| + 1);
    if outlen' % 13 != 0 {
      outlen' := outlen' + 1;
      output[outlen'] := 0;
    }
    assert output[..outlen'] == packed[..outlen'];
  }

  /** The loop invariant: the variables are those of `Scan`, and the buffer holds its codes. */
  ghost predicate Encoding(s: Data, k: nat, table: map<Data, nat>, p: Data, code: nat, outlen: nat, appeartimes: nat,
                           buf: Data, size: nat)
  {
    && s != [] && k <= |s| && size <= |buf|
    && var st := Scan(s, k);
    && table == st.table && p == st.p && code == 256 + |st.codes|
    && appeartimes == |st.codes| % 8 && outlen == 13 * |st.codes| / 8
    && Packs(buf, st.codes, size)
  }

  lemma EncodingStarts(s: Data, buf: Data, size: nat)
    requires s != [] && size <= |buf| && forall j :: 0 <= j < size ==> buf[j] == 0
    ensures Encoding(s, 0, BaseTable(), [s[0]], 256, 0, 0, buf, size)
  {
    EmptyPacks(buf, size);
    assert s[..1] == [s[0]];
  }

  lemma EncodingExtends(s: Data, k: nat, c: Data, table: map<Data, nat>, p: Data, code: nat, outlen: nat,
                        appeartimes: nat, buf: Data, size: nat)
    requires Encoding(s, k, table, p, code, outlen, appeartimes, buf, size) && k < |s|
    requires c == if k + 1 < |s| then [s[k + 1]] else []
    requires p + c in table
    ensures Encoding(s, k + 1, table, p + c, code, outlen, appeartimes, buf, size)
  {
    ScanNext(s, k, c);
  }

  lemma EncodingEmits(s: Data, k: nat, c: Data, table: map<Data, nat>, p: Data, outlen: nat, appeartimes: nat,
                      buf: Data, size: nat)
    requires k < |s| && size <= |buf|
    requires table == Scan(s, k).table && p == Scan(s, k).p
    requires c == if k + 1 < |s| then [s[k + 1]] else []
    requires p + c !in table
    requires appeartimes == (|Scan(s, k).codes| + 1) % 8 && outlen == 13 * (|Scan(s, k).codes| + 1) / 8
    requires Packs(buf, Scan(s, k).codes + [Lookup(table, p)], size)
    ensures Encoding(s, k + 1, table[p + c := 256 + |Scan(s, k).codes|], c, 257 + |Scan(s, k).codes|, outlen,
                     appeartimes, buf, size)
  {
    ScanNext(s, k, c);
  }

  lemma EncodingRoom(s: Data, k: nat)
    requires s != [] && k <= |s|
    ensures PackedLength(|Scan(s, k).codes| + 1) <= 2 * |s|
    ensures |s| >= 3 ==> PackedLength(|Scan(s, k).codes| + 1) < 2 * |s|
  {
    EmittedBound(s, k);
    OutputFits(s, |Scan(s, k).codes| + 1);
  }

  /** The encoder's loop over the chunk. Every code but the last is written; the last is left pending in `p`. */
  method EmitCodes(chunkStart: int, chunkEnd: int, s1: Data, output: array<byte>, ghost s: Data, ghost size: nat)
    returns (table: map<Data, nat>, p: Data, code: nat, outlen: nat, appeartimes: nat)
    requires 0 <= chunkStart <= chunkEnd < |s1| && s == Chunk(s1, chunkStart, chunkEnd)
    requires size == 2 * |s| <= output.Length
    requires forall j :: 0 <= j < size ==> output[j] == 0
    modifies output
    ensures Encoding(s, |s|, table, p, code, outlen, appeartimes, output[..], size)
  {
    hide Scan, BaseTable, Packs, PackedLength;
    table := InitialTable();
    p := [s1[chunkStart]];
    code := 256;
    outlen := 0;
    appeartimes := 0;
    EncodingStarts(s, output[..], size);
    var i := chunkStart;
    ghost var k := 0;
    while i <= chunkEnd
      invariant chunkStart <= i <= chunkEnd + 1 && k == i - chunkStart
      invariant Encoding(s, k, table, p, code, outlen, appeartimes, output[..], size)
    {
      var c: Data := if i != chunkEnd then [s1[i + 1]] else [];
      assert c == if k + 1 < |s| then [s[k + 1]] else [];
      if p + c in table {
        EncodingExtends(s, k, c, table, p, code, outlen, appeartimes, output[..], size);
        p := p + c;
      } else {
        EncodingRoom(s, k);
        outlen, appeartimes := EmitCode(output, outlen, appeartimes, Lookup(table, p), Scan(s, k).codes, size);
        EncodingEmits(s, k, c, table, p, outlen, appeartimes, output[..], size);
        table := table[p + c := code];
        code := code + 1;
        p := c;
      }
      i, k := i + 1, k + 1;
    }
    assert k == |s|;
  }

  /**
   * Compress the chunk `s1[chunkStart..chunkEnd]` into `output`. The first loop clears the
   * `2 * length` bytes its caller allocates; the pad byte needs one byte more when the
   * chunk has one or two bytes (see `PadStoreInBounds`).
   */
  method LZW(chunkStart: int, chunkEnd: int, s1: Data, output: array<byte>) returns (outlen: nat)
    requires 0 <= chunkStart <= chunkEnd < |s1|
    requires output.Length >= 2 * (chunkEnd - chunkStart + 1)
    requires chunkEnd - chunkStart + 1 < 3 ==> output.Length > 2 * (chunkEnd - chunkStart + 1)
    modifies output
    ensures outlen < output.Length && output[outlen] == 0
    ensures output[..outlen] == Compressed(Chunk(s1, chunkStart, chunkEnd))
  {
    ghost var s := Chunk(s1, chunkStart, chunkEnd);
    var size := 2 * (chunkEnd - chunkStart + 1);
    ClearOutput(output, size);
    var table, p, code, appeartimes;
    table, p, code, outlen, appeartimes := EmitCodes(chunkStart, chunkEnd, s1, output, s, size);
    EncodingRoom(s, |s|);
    outlen := FlushCode(output, outlen, appeartimes, Lookup(table, p), Scan(s, |s|).codes, size);
  }

  lemma ScanNext(s: Data, k: nat, c: Data)
    requires k < |s| && c == if k + 1 < |s| then [s[k + 1]] else []
    ensures Scan(s, k + 1) == Step(Scan(s, k), c)
  {
  }

  method ClearOutput(output: array<byte>, size: nat)
    requires size <= output.Length
    modifies output
    ensures forall j :: 0 <= j < size ==> output[j] == 0
  {
    for i := 0 to size
      invariant forall j :: 0 <= j < i ==> output[j] == 0
    {
      output[i] := 0;
    }
  }

  method InitialTable() returns (table: map<Data, nat>)
    ensures table == BaseTable()
  {
    table := map[];
    for i := 0 to 256
      invariant forall b: byte :: b < i ==> [b] in table && table[[b]] == b
      invariant forall w :: w in table ==> |w| == 1 && w[0] < i
    {
      table := table[[i] := i];
    }
    assert forall w :: w in table ==> w == [w[0]];
    assert forall w :: w in BaseTable() ==> w == [w[0]];
  }

  lemma EmptyPacks(buf: Data, size: nat)
    requires size <= |buf| && forall j :: 0 <= j < size ==> buf[j] == 0
    ensures Packs(buf, [], size)
  {
    forall i | 0 <= i < 8 * size
      ensures BufferBit(buf, i) == 0
    {
      BitZero(7 - i % 8);
    }
  }

  /** As many codes as bytes fit the buffer, with room for the pad byte when the chunk has three bytes. */
  lemma OutputFits(s: Data, n: nat)
    requires n <= |s|
    ensures PackedLength(n) <= 2 * |s|
    ensures |s| >= 3 ==> PackedLength(n) < 2 * |s|
  {
  }

  /** The bytes for a chunk fit the caller's buffer; the pad store does if and only if it has at least three bytes. */
  lemma PadStoreInBounds(s: Data)
    requires s != []
    ensures |Compressed(s)| <= 2 * |s|
    ensures |Compressed(s)| < 2 * |s| <==> |s| >= 3
  {
    CodeCountBound(s);
    OutputFits(s, |Codes(s)|);
    if |s| == 2 {
      TwoCodes(s);
    }
  }

  /** Two bytes are two codes: no pair is in the table yet. */
  lemma TwoCodes(s: Data)
    requires |s| == 2
    ensures |Codes(s)| == 2
  {
    EncoderParses(s);
    var words, codes := Words(s), Codes(s);
    assert Entry(words, codes[0]) == words[0];
    assert words[..1] == [words[0]] && Concat([words[0]]) == words[0];
    assert words[..|words|] == words;
    CountBound(words);
  }
}
