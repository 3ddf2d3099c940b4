/** The decompressor: bit reader, LZW decoder, and the record loop over the compressed file. */
module Decoder {
  import opened Bytes
  import opened Bits
  import opened LzwCoding
  import opened LzwDecoding
  import opened Packing
  import opened Framing

  lemma RestByte(data: Data, at: nat, j: nat)
    ensures ByteAt(Rest(data, at), j) == ByteAt(data, at + j)
  {
  }

  lemma RestRest(data: Data, a: nat, b: nat)
    ensures Rest(Rest(data, a), b) == Rest(data, a + b)
  {
  }

  lemma FetchedRest(data: Data, a: nat, b: nat, n: nat)
    ensures Fetched(Rest(data, a), b, n) == Fetched(data, a + b, n)
  {
    forall i | 0 <= i < n
      ensures Fetched(Rest(data, a), b, n)[i] == Fetched(data, a + b, n)[i]
    {
      RestByte(data, a, b + i);
    }
  }

  lemma FetchedBit(data: Data, at: nat, n: nat, i: nat)
    requires i < 13 * n
    ensures InputBit(Fetched(data, at, PackedLength(n)), i) == InputBit(Rest(data, at), i)
  {
    assert i / 8 < PackedLength(n);
    RestByte(data, at, i / 8);
  }

  /** The bytes fetched for `n` codes hold the same codes as the input itself. */
  lemma FetchedCodes(data: Data, at: nat, n: nat)
    ensures InputCodes(Fetched(data, at, PackedLength(n)), n) == InputCodes(Rest(data, at), n)
  {
    var fetched, rest := Fetched(data, at, PackedLength(n)), Rest(data, at);
    forall k | 0 <= k < n
      ensures CodeAt(fetched, k) == CodeAt(rest, k)
    {
      var bits, bits' := InputBits(fetched, 13 * k, 13), InputBits(rest, 13 * k, 13);
      forall m | 0 <= m < 13
        ensures bits[m] == bits'[m]
      {
        FetchedBit(data, at, n, 13 * k + m);
      }
      assert bits == bits';
    }
  }

  lemma NextInputBit(data: Data, from: nat, n: nat)
    ensures Number(InputBits(data, from, n + 1)) == 2 * Number(InputBits(data, from, n)) + InputBit(data, from + n)
  {
    var bits := InputBits(data, from, n + 1);
    assert bits[..n] == InputBits(data, from, n);
    assert bits[n] == InputBit(data, from + n);
  }

  /** `(Byte >> shift) & 1` is one bit of the byte. */
  lemma LowestBit(b: byte, shift: nat)
    ensures And(ShiftRight(b, shift), 1) == Bit(b, shift)
  {
    var x := ShiftRight(b, shift);
    BitShiftRight(b, shift, 0);
    assert And(x / 2, 0) == 0;
    assert And(x, 1) == x % 2;
  }

  /** `(Code << 1) | b` appends one bit. */
  lemma AppendBit(code: nat, b: bit)
    ensures Or(ShiftLeft(code, 1), b) == 2 * code + b
  {
    assert ShiftLeft(code, 1) == 2 * code;
    assert Or(code, 0) == code;
  }

  /** The file-level variables `Input`, `Input_position` and `Code_table`, and `Read_code`'s static `Byte`. */
  class Decoder {
    const input: Data
    var next: nat
    var inputPosition: nat
    var current: byte
    var codeTable: seq<Data>

    constructor (input: Data)
      ensures this.input == input && next == 0
    {
      this.input := input;
      next := 0;
      inputPosition := 0;
      current := 0;
      codeTable := [];
    }

    /** The chunk being read starts at byte `start`; exactly the bytes begun so far have been fetched. */
    ghost predicate Reading(start: nat)
      reads this
    {
      && next == start + (inputPosition + 7) / 8
      && (inputPosition % 8 != 0 ==> current == ByteAt(input, start + inputPosition / 8))
    }

    /** `Input.get()`; at the end of the file it gives 255. */
    method Get() returns (b: byte)
      modifies this`next
      ensures b == ByteAt(input, old(next)) && next == old(next) + 1
    {
      b := if next < |input| then input[next] else 255;
      next := next + 1;
    }

    /** One bit, fetching a byte only at bit positions divisible by 8. */
    method ReadBit(ghost start: nat) returns (b: nat)
      requires Reading(start)
      modifies this`next, this`inputPosition, this`current
      ensures Reading(start) && inputPosition == old(inputPosition) + 1
      ensures b == InputBit(Rest(input, start), old(inputPosition))
    {
      if inputPosition % 8 == 0 {
        current := Get();
      }
      RestByte(input, start, inputPosition / 8);
      LowestBit(current, 7 - inputPosition % 8);
      b := And(ShiftRight(current, 7 - inputPosition % 8), 1);
      inputPosition := inputPosition + 1;
    }

    /** Thirteen bits, highest first. */
    method ReadCode(ghost start: nat) returns (code: nat)
      requires Reading(start)
      modifies this`next, this`inputPosition, this`current
      ensures Reading(start) && inputPosition == old(inputPosition) + 13
      ensures code == Number(InputBits(Rest(input, start), old(inputPosition), 13))
    {
      code := 0;
      for i := 0 to 13
        invariant Reading(start) && inputPosition == old(inputPosition) + i
        invariant code == Number(InputBits(Rest(input, start), old(inputPosition), i))
      {
        NextInputBit(Rest(input, start), old(inputPosition), i);
        var b := ReadBit(start);
        AppendBit(code, b);
        code := Or(ShiftLeft(code, 1), b);
      }
    }

    /** Decode one chunk of `size` packed bytes, stopping by the byte count alone. */
    method Decompress(size: nat) returns (output: Data)
      requires size >= 1 && Decodable(InputCodes(Rest(input, next), CodeCount(size)))
      modifies this
      ensures next == old(next) + PackedLength(CodeCount(size))
      ensures output == Concat(DecodedWords(InputCodes(Rest(input, old(next)), CodeCount(size))))
    {
      hide Replay, Replaying, DecodedWords, Concat, Decodable, Rest, Number, InputBits;
      ghost var start := next;
      ghost var codes := InputCodes(Rest(input, next), CodeCount(size));
      ghost var k := 1;
      CodeCountStops(size);
      inputPosition := 0;
      codeTable := [];
      for i := 0 to 256
        invariant next == start && inputPosition == 0
        invariant codeTable == seq(i, j requires 0 <= j < i => [j])
      {
        codeTable := codeTable + [[i]];
      }
      var prev: nat := ReadCode(start);
      assert prev == CodeAt(Rest(input, start), 0) == codes[0];
      var symbol: byte := prev % 256;
      output := [symbol];
      FirstOutput(codes);
      while inputPosition / 8 < size - 1
        invariant 1 <= k <= |codes| && inputPosition == 13 * k && Reading(start)
        invariant Replaying(codes, k, codeTable, prev, symbol, output)
        decreases |codes| - k
      {
        var code := ReadCode(start);
        assert code == CodeAt(Rest(input, start), k) == codes[k];
        ReplayNext(codes, k, codeTable, prev, symbol, output);
        var symbols;
        if code >= |codeTable| {
          symbols := codeTable[prev] + [symbol];
        } else {
          symbols := codeTable[code];
        }
        output := output + symbols;
        symbol := symbols[0];
        codeTable := codeTable + [codeTable[prev] + [symbol]];
        prev := code;
        k := k + 1;
      }
      ReplayDone(codes, codeTable, prev, symbol, output);
    }

    /** The record loop of `main`: every record in turn until the header cannot be read. */
    method DecodeFile() returns (output: Data)
      requires next == 0
      requires SplitFrames(input).Some? && AllReadable(SplitFrames(input).value)
      modifies this
      ensures output == Concat(Pieces(SplitFrames(input).value))
    {
      hide Decoded, FromLittleEndian, InputCodes, CodeCount, PackedLength, Concat, DecodedWords, Decodable;
      var chunks: seq<Data> := [];
      output := [];
      ghost var seen: seq<Frame> := [];
      DecodedStart(input);
      while next + 4 <= |input|
        invariant Decoded(input, next, seen, chunks, output)
        decreases |input| - next
      {
        var header := FromLittleEndian(input[next..next + 4]);
        ghost var at := next;
        next := next + 4;
        if header % 2 == 0 {
          ghost var f := LiteralStep(input, at, seen, chunks, output, header / 2);
          var chunk := Decompress(header / 2);
          chunks := chunks + [chunk];
          output := output + chunk;
          seen := seen + [f];
        } else {
          var location := header / 2;
          assert output + [] == output;
          ReferenceStep(input, at, seen, chunks, output, location);
          if location < |chunks| {
            output := output + chunks[location];
          }
          seen := seen + [Reference(location)];
        }
      }
      DecodedEnd(input, next, seen, chunks, output);
    }
  }

  /** The records before byte `at` are `seen`; the database and the output are theirs. */
  ghost predicate Decoded(input: Data, at: nat, seen: seq<Frame>, chunks: seq<Data>, output: Data)
  {
    && SplitFrames(input).Some? && AllReadable(SplitFrames(input).value)
    && SplitFrames(Rest(input, at)).Some?
    && SplitFrames(input).value == seen + SplitFrames(Rest(input, at)).value
    && AllReadable(seen) && chunks == Database(seen) && output == Concat(Pieces(seen))
  }

  lemma Regroup(all: seq<Frame>, seen: seq<Frame>, f: Frame, rest: seq<Frame>)
    requires all == seen + ([f] + rest) && AllReadable(all)
    ensures all == (seen + [f]) + rest && FrameReadable(f)
  {
    assert all[|seen|] == f;
  }

  lemma DecodedNext(input: Data, at: nat, at': nat, seen: seq<Frame>, chunks: seq<Data>, output: Data, f: Frame)
    requires Decoded(input, at, seen, chunks, output)
    requires SplitFrames(Rest(input, at)) == Prepend(f, SplitFrames(Rest(input, at')))
    ensures FrameReadable(f)
    ensures Decoded(input, at', seen + [f], chunks + if f.Literal? then [Decompressed(f.payload)] else [],
                    output + Piece(f, chunks))
  {
    Regroup(SplitFrames(input).value, seen, f, SplitFrames(Rest(input, at')).value);
    SeenNext(seen, f);
  }

  lemma LiteralStep(input: Data, at: nat, seen: seq<Frame>, chunks: seq<Data>, output: Data, size: nat)
    returns (f: Frame)
    requires Decoded(input, at, seen, chunks, output) && at + 4 <= |input|
    requires FromLittleEndian(input[at..at + 4]) == 2 * size
    ensures size >= 1
    ensures var codes := InputCodes(Rest(input, at + 4), CodeCount(size));
            && Decodable(codes)
            && Decoded(input, at + 4 + PackedLength(CodeCount(size)), seen + [f],
                       chunks + [Concat(DecodedWords(codes))], output + Concat(DecodedWords(codes)))
  {
    hide SplitFrames, Rest, Fetched, InputCodes, FromLittleEndian, PackedLength, CodeCount, DecodedWords;
    hide Decodable, Database, Pieces, Concat;
    NextLiteral(input, at, size);
    LiteralCodes(input, at + 4, size);
    f := Literal(Fetched(input, at + 4, PackedLength(CodeCount(size))));
    DecodedNext(input, at, at + 4 + |f.payload|, seen, chunks, output, f);
  }

  lemma ReferenceStep(input: Data, at: nat, seen: seq<Frame>, chunks: seq<Data>, output: Data, id: nat)
    requires Decoded(input, at, seen, chunks, output) && at + 4 <= |input|
    requires FromLittleEndian(input[at..at + 4]) == 2 * id + 1
    ensures Decoded(input, at + 4, seen + [Reference(id)], chunks, output + if id < |chunks| then chunks[id] else [])
  {
    hide SplitFrames, Rest, FromLittleEndian, Database, Pieces, Concat, Decoded;
    NextReference(input, at, id);
    DecodedNext(input, at, at + 4, seen, chunks, output, Reference(id));
    assert chunks + [] == chunks;
  }

  lemma DecodedStart(input: Data)
    requires SplitFrames(input).Some? && AllReadable(SplitFrames(input).value)
    ensures Decoded(input, 0, [], [], [])
  {
    assert Rest(input, 0) == input;
  }

  /** When no header is left, the records seen are all the records of the file. */
  lemma DecodedEnd(input: Data, at: nat, seen: seq<Frame>, chunks: seq<Data>, output: Data)
    requires Decoded(input, at, seen, chunks, output) && at + 4 > |input|
    ensures SplitFrames(input) == Some(seen) && output == Concat(Pieces(seen))
  {
    assert seen + [] == seen;
  }

  /** The variables of `Decompress` after `k` codes. */
  ghost predicate Replaying(codes: seq<nat>, k: nat, table: seq<Data>, prev: nat, symbol: byte, output: Data)
    requires Decodable(codes) && 1 <= k <= |codes|
  {
    var st := Replay(codes, k);
    table == st.table && prev == st.prev && symbol == st.symbol && output == Concat(st.words)
  }

  lemma ReplayDone(codes: seq<nat>, table: seq<Data>, prev: nat, symbol: byte, output: Data)
    requires Decodable(codes) && Replaying(codes, |codes|, table, prev, symbol, output)
    ensures output == Concat(DecodedWords(codes))
  {
  }

  lemma FirstOutput(codes: seq<nat>)
    requires Decodable(codes)
    ensures Replaying(codes, 1, seq(256, i requires 0 <= i < 256 => [i]), codes[0], codes[0] % 256, [codes[0] % 256])
  {
    ConcatAppend([], [codes[0] % 256]);
  }

  lemma ReplayNext(codes: seq<nat>, k: nat, table: seq<Data>, prev: nat, symbol: byte, output: Data)
    requires Decodable(codes) && 1 <= k < |codes| && Replaying(codes, k, table, prev, symbol, output)
    ensures prev < |table| && NonEmpty(table)
    ensures var symbols := if codes[k] >= |table| then table[prev] + [symbol] else table[codes[k]];
            Replaying(codes, k + 1, table + [table[prev] + [symbols[0]]], codes[k], symbols[0], output + symbols)
  {
    var st := Replay(codes, k);
    var symbols := if codes[k] >= |table| then table[prev] + [symbol] else table[codes[k]];
    ConcatAppend(st.words, symbols);
    assert Replay(codes, k + 1) == NextCode(st, codes[k]);
  }

  /** A literal record whose header is at byte `at`. */
  lemma NextLiteral(input: Data, at: nat, size: nat)
    requires at + 4 <= |input| && FromLittleEndian(input[at..at + 4]) == 2 * size
    requires SplitFrames(Rest(input, at)).Some?
    ensures size >= 1
    ensures var used := PackedLength(CodeCount(size));
            SplitFrames(Rest(input, at))
            == Prepend(Literal(Fetched(input, at + 4, used)), SplitFrames(Rest(input, at + 4 + used)))
  {
    hide FromLittleEndian, Fetched, CodeCount, PackedLength;
    assert Rest(input, at)[..4] == input[at..at + 4];
    if size >= 1 {
      var used := PackedLength(CodeCount(size));
      FetchedRest(input, at, 4, used);
      RestRest(input, at, 4 + used);
    }
  }

  /** The bytes of the literal hold the codes `Decompress` reads from the input. */
  lemma LiteralCodes(input: Data, at: nat, size: nat)
    requires size >= 1
    ensures var payload := Fetched(input, at, PackedLength(CodeCount(size)));
            payload != [] && InputCodes(payload, CodeCount(|payload|)) == InputCodes(Rest(input, at), CodeCount(size))
  {
    hide InputCodes;
    FetchedCodes(input, at, CodeCount(size));
    ExactStop(CodeCount(size));
  }

  /** A reference record whose header is at byte `at`. */
  lemma NextReference(input: Data, at: nat, id: nat)
    requires at + 4 <= |input| && FromLittleEndian(input[at..at + 4]) == 2 * id + 1
    ensures SplitFrames(Rest(input, at)) == Prepend(Reference(id), SplitFrames(Rest(input, at + 4)))
  {
    hide FromLittleEndian;
    assert Rest(input, at)[..4] == input[at..at + 4];
    assert Rest(input, at)[4..] == Rest(input, at + 4);
  }

  lemma SeenNext(seen: seq<Frame>, f: Frame)
    requires AllReadable(seen) && FrameReadable(f)
    ensures AllReadable(seen + [f])
    ensures Database(seen + [f]) == Database(seen) + if f.Literal? then [Decompressed(f.payload)] else []
    ensures Concat(Pieces(seen + [f])) == Concat(Pieces(seen)) + Piece(f, Database(seen))
  {
    assert (seen + [f])[..|seen|] == seen;
    ConcatAppend(Pieces(seen), Piece(f, Database(seen)));
  }
}
