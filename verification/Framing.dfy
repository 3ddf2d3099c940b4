/**
 * The compressed file: a run of records, each a 32-bit little-endian header and, for a
 * literal, the packed chunk. Bit 0 of the header tells a reference from a literal; the
 * other bits hold the reference's id or the literal's byte count.
 */
module Framing {
  import opened Bytes
  import opened Bits
  import opened LzwDecoding
  import opened Packing

  datatype Option<T> = None | Some(value: T)

  datatype Frame =
    | Literal(payload: Data)
    | Reference(id: nat)

  const WORD := 0x1_0000_0000
  const HALF_WORD := 0x8000_0000

  // ----- Headers -----

  /** The four bytes of a `uint32_t` in memory. */
  function LittleEndian(n: nat): (b: Data)
    ensures |b| == 4
  {
    [n % 256, n / 256 % 256, n / 65536 % 256, n / 16777216 % 256]
  }

  function FromLittleEndian(b: Data): nat
    requires |b| == 4
  {
    b[0] as int + 256 * b[1] as int + 65536 * b[2] as int + 16777216 * b[3] as int
  }

  /** The four bytes in numbers: the first is worth least. */
  lemma PlaceValues(n: nat)
    requires n < 0x1_0000_0000
    ensures var b := LittleEndian(n);
            n == b[0] as int + 256 * b[1] as int + 65536 * b[2] as int + 16777216 * b[3] as int
  {
    var a, b, c := n / 256, n / 65536, n / 16777216;
    assert a / 256 == b && b / 256 == c && c < 256;
    assert n == 256 * a + n % 256 && a == 256 * b + a % 256 && b == 256 * c + b % 256;
  }

  lemma LittleEndianInverse(n: nat)
    requires n < WORD
    ensures FromLittleEndian(LittleEndian(n)) == n
  {
    PlaceValues(n);
  }

  /** `u.header = (uint32_t)outlen << 1`. */
  function LiteralHeader(outlen: nat): nat
  {
    ShiftLeft(outlen, 1) % WORD
  }

  /** `u.header = sent << 1; u.header |= 1`. */
  function ReferenceHeader(sent: nat): nat
  {
    Or(ShiftLeft(sent, 1) % WORD, 1)
  }

  /** The header is twice the value plus the tag, in 32 bits: the value survives if and only if it is below 2^31. */
  lemma HeaderInverse(n: nat)
    ensures LiteralHeader(n) == 2 * n % 0x1_0000_0000 && ReferenceHeader(n) == 2 * n % 0x1_0000_0000 + 1
    ensures LiteralHeader(n) / 2 == ReferenceHeader(n) / 2 == n <==> n < 0x8000_0000
  {
    assert ShiftLeft(n, 1) == 2 * n;
    var half := n % 0x8000_0000;
    assert 2 * n % 0x1_0000_0000 == 2 * half;
    assert Or(half, 0) == half;
    assert Or(2 * half, 1) == 2 * half + 1;
  }

  function FrameBytes(f: Frame): (b: Data)
    ensures |b| >= 4
  {
    match f
    case Literal(payload) => LittleEndian(LiteralHeader(|payload|)) + payload
    case Reference(id) => LittleEndian(ReferenceHeader(id))
  }

  function Encoded(frames: seq<Frame>): (parts: seq<Data>)
    ensures |parts| == |frames|
    ensures forall i :: 0 <= i < |frames| ==> parts[i] == FrameBytes(frames[i])
  {
    seq(|frames|, i requires 0 <= i < |frames| => FrameBytes(frames[i]))
  }

  /** The file holding these records. */
  function Serialize(frames: seq<Frame>): Data
  {
    Concat(Encoded(frames))
  }

  lemma EncodedSplit(a: seq<Frame>, b: seq<Frame>)
    ensures Encoded(a + b) == Encoded(a) + Encoded(b)
  {
    hide FrameBytes;
    var both, parts := Encoded(a + b), Encoded(a) + Encoded(b);
    forall i | 0 <= i < |both|
      ensures both[i] == parts[i]
    {
    }
  }

  lemma SerializeSplit(a: seq<Frame>, b: seq<Frame>)
    ensures Serialize(a + b) == Serialize(a) + Serialize(b)
  {
    EncodedSplit(a, b);
    ConcatSplit(Encoded(a), Encoded(b));
  }

  lemma SerializeOne(f: Frame)
    ensures Serialize([f]) == FrameBytes(f)
  {
    assert Encoded([f]) == [FrameBytes(f)];
    ConcatAppend([], FrameBytes(f));
  }

  lemma SerializeAppend(frames: seq<Frame>, f: Frame)
    ensures Serialize(frames + [f]) == Serialize(frames) + FrameBytes(f)
  {
    SerializeSplit(frames, [f]);
    SerializeOne(f);
  }

  // ----- The decoder's view -----

  /** The input from byte `at` on. */
  function Rest(data: Data, at: nat): Data
  {
    if at <= |data| then data[at..] else []
  }

  /** `n` bytes fetched from byte `at` on. */
  function Fetched(data: Data, at: nat, n: nat): (b: Data)
    ensures |b| == n
  {
    seq<byte>(n, i requires 0 <= i < n => ByteAt(data, at + i))
  }

  /** The bytes of the input, then 255 for each byte past its end. */
  lemma FetchedPadded(data: Data, at: nat, n: nat)
    requires at <= |data|
    ensures Fetched(data, at, n) == if at + n <= |data| then data[at..at + n]
                                    else data[at..] + seq<byte>(n - (|data| - at), _ => 255)
  {
    var fetched := Fetched(data, at, n);
    var padded: Data := if at + n <= |data| then data[at..at + n]
                        else data[at..] + seq<byte>(n - (|data| - at), _ => 255);
    forall i | 0 <= i < n
      ensures fetched[i] == padded[i]
    {
      assert fetched[i] == ByteAt(data, at + i);
    }
  }

  /**
   * How the decoder's loop cuts its input into records: it stops when four bytes cannot be
   * read, and takes from a literal as many bytes as `Decompress` fetches. `None` is the one
   * header it cannot survive, a literal of size 0, where `Size - 1` wraps around.
   */
  function SplitFrames(data: Data): Option<seq<Frame>>
    decreases |data|
  {
    if |data| < 4 then Some([])
    else
      var header := FromLittleEndian(data[..4]);
      if header % 2 == 0 then
        if header / 2 == 0 then None
        else
          var used := PackedLength(CodeCount(header / 2));
          Prepend(Literal(Fetched(data, 4, used)), SplitFrames(Rest(data, 4 + used)))
      else Prepend(Reference(header / 2), SplitFrames(data[4..]))
  }

  function Prepend(f: Frame, frames: Option<seq<Frame>>): Option<seq<Frame>>
  {
    match frames
    case None => None
    case Some(fs) => Some([f] + fs)
  }

  /** Records the encoder may write: a literal has the size of a packed chunk, and all sizes and ids fit 31 bits. */
  ghost predicate ValidFrame(f: Frame)
  {
    match f
    case Literal(payload) => |payload| < HALF_WORD && exists n :: n >= 1 && |payload| == PackedLength(n)
    case Reference(id) => id < HALF_WORD
  }

  lemma SplitLiteral(payload: Data, tail: Data, n: nat)
    requires |payload| < HALF_WORD && n >= 1 && |payload| == PackedLength(n)
    ensures SplitFrames(FrameBytes(Literal(payload)) + tail) == Prepend(Literal(payload), SplitFrames(tail))
  {
    hide LittleEndian, FromLittleEndian, CodeCount, LiteralHeader;
    var size, data := |payload|, FrameBytes(Literal(payload)) + tail;
    HeaderInverse(size);
    LittleEndianInverse(2 * size);
    assert data[..4] == LittleEndian(2 * size);
    ExactStop(n);
    assert Fetched(data, 4, size) == payload;
    assert Rest(data, 4 + size) == tail;
  }

  lemma SplitReference(id: nat, tail: Data)
    requires id < HALF_WORD
    ensures SplitFrames(FrameBytes(Reference(id)) + tail) == Prepend(Reference(id), SplitFrames(tail))
  {
    hide LittleEndian, FromLittleEndian, ReferenceHeader, PackedLength, CodeCount, Fetched, Rest;
    var data := FrameBytes(Reference(id)) + tail;
    HeaderInverse(id);
    LittleEndianInverse(2 * id + 1);
    assert data[..4] == LittleEndian(2 * id + 1);
    assert data[4..] == tail;
  }

  /** A record is delimited by its own bytes, whatever follows it. */
  lemma SplitFirst(f: Frame, tail: Data)
    requires ValidFrame(f)
    ensures SplitFrames(FrameBytes(f) + tail) == Prepend(f, SplitFrames(tail))
  {
    match f
    case Literal(payload) =>
      var n :| n >= 1 && |payload| == PackedLength(n);
      SplitLiteral(payload, tail, n);
    case Reference(id) =>
      SplitReference(id, tail);
  }

  /** Framing is self-delimiting: any run of records splits into exactly the records written. */
  lemma {:induction false} SplitSerialized(frames: seq<Frame>)
    requires forall i :: 0 <= i < |frames| ==> ValidFrame(frames[i])
    ensures SplitFrames(Serialize(frames)) == Some(frames)
  {
    if frames != [] {
      var f, rest := frames[0], frames[1..];
      SplitSerialized(rest);
      SerializeSplit([f], rest);
      SerializeOne(f);
      SplitFirst(f, Serialize(rest));
      assert frames == [f] + rest;
    }
  }

  /** One to three bytes after the last record are not a header: the decoder stops there. */
  lemma {:induction false} SplitTrailing(frames: seq<Frame>, tail: Data)
    requires |tail| < 4 && forall i :: 0 <= i < |frames| ==> ValidFrame(frames[i])
    ensures SplitFrames(Serialize(frames) + tail) == Some(frames)
  {
    hide FrameBytes, Concat, ValidFrame;
    if frames == [] {
      NothingSerialized();
      assert [] + tail == tail;
    } else {
      var f, rest := frames[0], frames[1..];
      SplitTrailing(rest, tail);
      assert frames == [f] + rest;
      SerializeSplit([f], rest);
      SerializeOne(f);
      assert FrameBytes(f) + Serialize(rest) + tail == FrameBytes(f) + (Serialize(rest) + tail);
      SplitFirst(f, Serialize(rest) + tail);
    }
  }

  lemma NothingSerialized()
    ensures Serialize([]) == []
  {
  }

  /** What any header makes of the input, in numbers: an odd one is a reference, an even one a literal, 0 is fatal. */
  lemma SplitHeader(data: Data)
    requires |data| >= 4
    ensures var h := data[0] as int + 256 * data[1] as int + 65536 * data[2] as int + 16777216 * data[3] as int;
            SplitFrames(data)
            == if h == 0 then None
               else if h % 2 == 1 then Prepend(Reference(h / 2), SplitFrames(data[4..]))
               else var used := PackedLength(CodeCount(h / 2));
                    Prepend(Literal(Fetched(data, 4, used)), SplitFrames(Rest(data, 4 + used)))
  {
    hide PackedLength, CodeCount, Fetched, Rest;
    assert data[..4][0] == data[0] && data[..4][1] == data[1] && data[..4][2] == data[2] && data[..4][3] == data[3];
  }

  /** The bytes of a record: its header in numbers, highest byte last, then a literal's payload. */
  lemma FrameLayout(f: Frame)
    ensures var b := FrameBytes(f);
            var h := b[0] as int + 256 * b[1] as int + 65536 * b[2] as int + 16777216 * b[3] as int;
            match f
            case Literal(payload) => h == 2 * |payload| % 0x1_0000_0000 && b[4..] == payload
            case Reference(id) => h == 2 * id % 0x1_0000_0000 + 1 && |b| == 4
    ensures FrameBytes(f)[0] % 2 == 1 <==> f.Reference?
  {
    hide LittleEndian, LiteralHeader, ReferenceHeader;
    match f
    case Literal(payload) =>
      HeaderInverse(|payload|);
      PlaceValues(LiteralHeader(|payload|));
    case Reference(id) =>
      HeaderInverse(id);
      PlaceValues(ReferenceHeader(id));
  }

  /** `Decompress` is defined on a literal's bytes. */
  ghost predicate Readable(payload: Data)
  {
    payload != [] && Decodable(InputCodes(payload, CodeCount(|payload|)))
  }

  /** The codes in the payload never look up a table entry that is not there: the last one aside, all are known. */
  lemma ReadableExact(payload: Data)
    ensures Readable(payload)
            <==> payload != [] && forall k :: 0 <= k < CodeCount(|payload|) - 1 ==> CodeAt(payload, k) <= 255 + k
  {
    hide CodeCount, CodeAt;
    if payload != [] {
      var codes := InputCodes(payload, CodeCount(|payload|));
      assert forall k :: 0 <= k < |codes| ==> codes[k] == CodeAt(payload, k);
    }
  }

  /** What `Decompress` makes of a literal's bytes. */
  function Decompressed(payload: Data): Data
    requires Readable(payload)
  {
    Concat(DecodedWords(InputCodes(payload, CodeCount(|payload|))))
  }

  ghost predicate FrameReadable(f: Frame)
  {
    f.Literal? ==> Readable(f.payload)
  }

  ghost predicate AllReadable(frames: seq<Frame>)
  {
    forall i :: 0 <= i < |frames| ==> FrameReadable(frames[i])
  }

  /** `Chunks` after these records: the decompressed literals in order. */
  function Database(frames: seq<Frame>): seq<Data>
    requires AllReadable(frames)
  {
    if frames == [] then []
    else
      var front, last := frames[..|frames| - 1], frames[|frames| - 1];
      assert FrameReadable(last);
      Database(front) + if last.Literal? then [Decompressed(last.payload)] else []
  }

  /** What a record writes: its chunk, or the chunk it refers to, or nothing when the id is out of range. */
  function Piece(f: Frame, chunks: seq<Data>): Data
    requires FrameReadable(f)
  {
    match f
    case Literal(payload) => Decompressed(payload)
    case Reference(id) => if id < |chunks| then chunks[id] else []
  }

  /** What each record writes, in order. */
  function Pieces(frames: seq<Frame>): (pieces: seq<Data>)
    requires AllReadable(frames)
    ensures |pieces| == |frames|
  {
    if frames == [] then []
    else
      var front, last := frames[..|frames| - 1], frames[|frames| - 1];
      assert FrameReadable(last);
      Pieces(front) + [Piece(last, Database(front))]
  }
}
