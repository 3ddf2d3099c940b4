/**
 * The 13-bit code stream: codes laid end to end, highest bit first, in bytes filled
 * from the highest bit, the last byte padded with zero bits.
 */
module Packing {
  import opened Bytes
  import opened Bits

  /** Bytes that hold `n` codes. */
  function PackedLength(n: nat): nat
  {
    (13 * n + 7) / 8
  }

  /** Bit `i` of the codes laid end to end, zero after the last code. */
  function StreamBit(codes: seq<nat>, i: nat): bit
  {
    if i / 13 < |codes| then Bit(codes[i / 13], 12 - i % 13) else 0
  }

  /** Bit `i` of a byte buffer. */
  function BufferBit(buf: Data, i: nat): bit
    requires i / 8 < |buf|
  {
    Bit(buf[i / 8], 7 - i % 8)
  }

  /** Bits `8j` to `8j + 7` of the stream. */
  function Octet(codes: seq<nat>, j: nat): seq<bit>
  {
    seq<bit>(8, m requires 0 <= m < 8 => StreamBit(codes, 8 * j + m))
  }

  function PackedByte(codes: seq<nat>, j: nat): byte
  {
    NumberBound(Octet(codes, j));
    assert Pow2(8) == 256;
    Number(Octet(codes, j))
  }

  /** The packed form of a code sequence. */
  function PackBytes(codes: seq<nat>): (packed: Data)
    ensures |packed| == PackedLength(|codes|)
  {
    seq(PackedLength(|codes|), j requires 0 <= j < PackedLength(|codes|) => PackedByte(codes, j))
  }

  /** The packed bytes hold exactly the bits of the stream. */
  lemma PackedBits(codes: seq<nat>, i: nat)
    requires i / 8 < PackedLength(|codes|)
    ensures BufferBit(PackBytes(codes), i) == StreamBit(codes, i)
  {
    NumberBit(Octet(codes, i / 8), 7 - i % 8);
    assert i == 8 * (i / 8) + i % 8;
  }

  /** The first `size` bytes of the buffer hold the stream. */
  ghost predicate Packs(buf: Data, codes: seq<nat>, size: nat)
    requires size <= |buf|
  {
    forall i :: 0 <= i < 8 * size ==> BufferBit(buf, i) == StreamBit(codes, i)
  }

  lemma PacksByte(b: byte, codes: seq<nat>, j: nat)
    requires forall m :: 0 <= m < 8 ==> Octet(codes, j)[m] == Bit(b, 7 - m)
    ensures b == PackedByte(codes, j)
  {
    NumberOf(b, Octet(codes, j));
    assert Pow2(8) == 256;
  }

  /** A buffer with the bits of the stream starts with its packed bytes. */
  lemma PacksBytes(buf: Data, codes: seq<nat>, size: nat)
    requires PackedLength(|codes|) <= size <= |buf| && Packs(buf, codes, size)
    ensures buf[..PackedLength(|codes|)] == PackBytes(codes)
  {
    forall j | 0 <= j < PackedLength(|codes|)
      ensures buf[j] == PackedByte(codes, j)
    {
      forall m | 0 <= m < 8
        ensures Octet(codes, j)[m] == Bit(buf[j], 7 - m)
      {
        var i := 8 * j + m;
        assert i / 8 == j && i % 8 == m;
        assert BufferBit(buf, i) == StreamBit(codes, i);
      }
      PacksByte(buf[j], codes, j);
    }
  }

  lemma PackAppend(codes: seq<nat>, code: nat, i: nat)
    ensures StreamBit(codes + [code], i)
            == if 13 * |codes| <= i < 13 * |codes| + 13 then Bit(code, 12 - (i - 13 * |codes|)) else StreamBit(codes, i)
  {
    assert i == 13 * (i / 13) + i % 13;
  }

  /** Only 13 bits of a code are stored. */
  lemma PackMasks(codes: seq<nat>, low: seq<nat>)
    requires |codes| == |low| && forall k :: 0 <= k < |codes| ==> low[k] == codes[k] % 8192
    ensures PackBytes(codes) == PackBytes(low)
  {
    forall i: nat
      ensures StreamBit(codes, i) == StreamBit(low, i)
    {
      if i / 13 < |codes| {
        var x, k := codes[i / 13], 12 - i % 13;
        BitLow(x, 13, k);
        BitLow(x % 8192, 13, k);
        LowCode(x);
        LowCode(x % 8192);
      }
    }
    forall j | 0 <= j < |PackBytes(codes)|
      ensures PackedByte(codes, j) == PackedByte(low, j)
    {
      assert Octet(codes, j) == Octet(low, j);
    }
  }

  // ----- The bytes as one number -----

  /** The bytes as digits of one number, the first the highest. */
  function BytesNumber(b: Data): nat
  {
    if b == [] then 0 else 256 * BytesNumber(b[..|b| - 1]) + b[|b| - 1]
  }

  /** The low 13 bits of the codes as digits of one number, the first the highest. */
  function CodesNumber(codes: seq<nat>): nat
  {
    if codes == [] then 0 else 8192 * CodesNumber(codes[..|codes| - 1]) + codes[|codes| - 1] % 8192
  }

  function StreamBits(codes: seq<nat>, n: nat): (bits: seq<bit>)
    ensures |bits| == n
  {
    seq<bit>(n, i requires 0 <= i < n => StreamBit(codes, i))
  }

  lemma BytesAppend(b: Data, last: byte)
    ensures BytesNumber(b + [last]) == 256 * BytesNumber(b) + last
  {
    assert (b + [last])[..|b|] == b;
  }

  lemma CodesAppend(codes: seq<nat>, last: nat)
    ensures CodesNumber(codes + [last]) == 8192 * CodesNumber(codes) + last % 8192
  {
    assert (codes + [last])[..|codes|] == codes;
  }

  /** Eight more bits are one more byte. */
  lemma NextByteBits(codes: seq<nat>, j: nat)
    ensures Number(StreamBits(codes, 8 * j + 8)) == 256 * Number(StreamBits(codes, 8 * j)) + PackedByte(codes, j)
  {
    hide Number, StreamBit;
    NumberSplit(StreamBits(codes, 8 * j), Octet(codes, j));
    assert StreamBits(codes, 8 * j + 8) == StreamBits(codes, 8 * j) + Octet(codes, j);
    assert Pow2(8) == 256;
  }

  lemma {:induction false} StreamBytes(codes: seq<nat>, j: nat)
    requires j <= PackedLength(|codes|)
    ensures Number(StreamBits(codes, 8 * j)) == BytesNumber(PackBytes(codes)[..j])
  {
    hide Number, BytesNumber, PackedLength, StreamBits;
    var packed := PackBytes(codes);
    if j > 0 {
      StreamBytes(codes, j - 1);
      NextByteBits(codes, j - 1);
      assert packed[..j] == packed[..j - 1] + [packed[j - 1]];
      BytesAppend(packed[..j - 1], packed[j - 1]);
    } else {
      assert packed[..0] == [];
      NoBits(codes);
    }
  }

  lemma NoBits(codes: seq<nat>)
    ensures Number(StreamBits(codes, 0)) == BytesNumber([]) == CodesNumber([]) == 0
  {
  }

  /** The bits of code `k`. */
  function CodeBits(codes: seq<nat>, k: nat): (bits: seq<bit>)
    requires k < |codes|
    ensures |bits| == 13
  {
    seq<bit>(13, j requires 0 <= j < 13 => Bit(codes[k], 12 - j))
  }

  lemma CodeBitAt(codes: seq<nat>, k: nat, i: nat)
    requires k < |codes| && 13 * k <= i < 13 * k + 13
    ensures StreamBit(codes, i) == CodeBits(codes, k)[i - 13 * k]
  {
    assert i / 13 == k && i % 13 == i - 13 * k;
  }

  /** Thirteen more bits are one more code. */
  lemma NextCodeBits(codes: seq<nat>, k: nat)
    requires k < |codes|
    ensures Number(StreamBits(codes, 13 * k + 13)) == 8192 * Number(StreamBits(codes, 13 * k)) + codes[k] % 8192
  {
    hide Number, StreamBit;
    var all, parts := StreamBits(codes, 13 * k + 13), StreamBits(codes, 13 * k) + CodeBits(codes, k);
    forall i | 0 <= i < |all|
      ensures all[i] == parts[i]
    {
      if i >= 13 * k {
        CodeBitAt(codes, k, i);
      }
    }
    assert all == parts;
    NumberSplit(StreamBits(codes, 13 * k), CodeBits(codes, k));
    NumberOf(codes[k], CodeBits(codes, k));
    assert Pow2(13) == 8192;
  }

  lemma {:induction false} StreamCodes(codes: seq<nat>, k: nat)
    requires k <= |codes|
    ensures Number(StreamBits(codes, 13 * k)) == CodesNumber(codes[..k])
  {
    hide Number, CodesNumber, StreamBits;
    if k > 0 {
      StreamCodes(codes, k - 1);
      NextCodeBits(codes, k - 1);
      assert codes[..k] == codes[..k - 1] + [codes[k - 1]];
      CodesAppend(codes[..k - 1], codes[k - 1]);
    } else {
      assert codes[..0] == [];
      NoBits(codes);
    }
  }

  lemma NoCodeBit(codes: seq<nat>, i: nat)
    requires i >= 13 * |codes|
    ensures StreamBit(codes, i) == 0
  {
  }

  /** Zero bits after the last code. */
  lemma StreamPadding(codes: seq<nat>, pad: nat)
    ensures Number(StreamBits(codes, 13 * |codes| + pad)) == Number(StreamBits(codes, 13 * |codes|)) * Pow2(pad)
  {
    hide Number, StreamBit;
    var n, zeros := 13 * |codes|, seq<bit>(pad, _ => 0);
    var all, parts := StreamBits(codes, n + pad), StreamBits(codes, n) + zeros;
    forall i | 0 <= i < |all|
      ensures all[i] == parts[i]
    {
      if i >= n {
        NoCodeBit(codes, i);
      }
    }
    assert all == parts;
    NumberSplit(StreamBits(codes, n), zeros);
    NumberZero(zeros);
  }

  lemma {:induction false} SameNumber(a: Data, b: Data)
    requires |a| == |b| && BytesNumber(a) == BytesNumber(b)
    ensures a == b
  {
    if a != [] {
      SameNumber(a[..|a| - 1], b[..|b| - 1]);
    }
  }

  /**
   * The packed form without its bits: the one byte string of `ceil(13 n / 8)` bytes that,
   * as a number, is the codes' number followed by zero bits.
   */
  lemma PackedExact(codes: seq<nat>, packed: Data)
    ensures packed == PackBytes(codes)
            <==> && |packed| == (13 * |codes| + 7) / 8
                 && BytesNumber(packed) == CodesNumber(codes) * Pow2(8 * |packed| - 13 * |codes|)
  {
    hide Number, BytesNumber, CodesNumber, StreamBits, Pow2;
    PackedValue(codes);
    if |packed| == PackedLength(|codes|) && BytesNumber(packed) == BytesNumber(PackBytes(codes)) {
      SameNumber(packed, PackBytes(codes));
    }
  }

  /** Zero bits that fill the last byte. */
  function Padding(n: nat): nat
  {
    8 * PackedLength(n) - 13 * n
  }

  lemma PackedValue(codes: seq<nat>)
    ensures BytesNumber(PackBytes(codes)) == CodesNumber(codes) * Pow2(Padding(|codes|))
  {
    hide Number, BytesNumber, CodesNumber, StreamBits, Pow2, PackBytes, PackedLength;
    var n, size := |codes|, PackedLength(|codes|);
    assert BytesNumber(PackBytes(codes)) == Number(StreamBits(codes, 8 * size)) by {
      StreamBytes(codes, size);
      assert PackBytes(codes)[..size] == PackBytes(codes);
    }
    assert CodesNumber(codes) == Number(StreamBits(codes, 13 * n)) by {
      StreamCodes(codes, n);
      assert codes[..n] == codes;
    }
    StreamPadding(codes, Padding(n));
    assert 13 * n + Padding(n) == 8 * size;
  }

  // ----- Reading codes back -----

  /** Byte `i` of the input; reading past the end of the file gives 255. */
  function ByteAt(data: Data, i: nat): byte
  {
    if i < |data| then data[i] else 255
  }

  /** Bit `i` of the input. */
  function InputBit(data: Data, i: nat): bit
  {
    Bit(ByteAt(data, i / 8), 7 - i % 8)
  }

  /** Bits `from` to `from + n - 1` of the input. */
  function InputBits(data: Data, from: nat, n: nat): seq<bit>
  {
    seq<bit>(n, m requires 0 <= m < n => InputBit(data, from + m))
  }

  /** The 13-bit code at bit `13 k` of the input. */
  function CodeAt(data: Data, k: nat): (code: nat)
  {
    Number(InputBits(data, 13 * k, 13))
  }

  /** The first `n` codes of the input. */
  function InputCodes(data: Data, n: nat): (codes: seq<nat>)
    ensures |codes| == n
  {
    seq(n, k requires 0 <= k < n => CodeAt(data, k))
  }

  lemma PackedInputBit(codes: seq<nat>, tail: Data, k: nat, j: nat)
    requires k < |codes| && j < 13
    ensures InputBit(PackBytes(codes) + tail, 13 * k + j) == Bit(codes[k], 12 - j)
  {
    var i := 13 * k + j;
    assert i / 13 == k && i % 13 == j;
    assert i / 8 < PackedLength(|codes|);
    PackedBits(codes, i);
  }

  /** Reading undoes packing: the codes come back in order, cut to 13 bits, whatever follows them. */
  lemma ReadPacked(codes: seq<nat>, tail: Data, k: nat)
    requires k < |codes|
    ensures CodeAt(PackBytes(codes) + tail, k) == codes[k] % 8192
  {
    var bits := InputBits(PackBytes(codes) + tail, 13 * k, 13);
    forall j | 0 <= j < 13
      ensures bits[j] == Bit(codes[k], 12 - j)
    {
      PackedInputBit(codes, tail, k, j);
    }
    NumberOf(codes[k], bits);
    assert Pow2(13) == 8192;
  }

  // ----- Lengths -----

  /** `n` codes read: the loop of `Decompress` runs while `13 n / 8 < Size - 1`. */
  function CodeCount(size: nat): (n: nat)
    requires size >= 1
    ensures n >= 1
  {
    if (8 * (size - 1) + 12) / 13 == 0 then 1 else (8 * (size - 1) + 12) / 13
  }

  /** `CodeCount` is where the loop test first fails. */
  lemma CodeCountStops(size: nat)
    requires size >= 1
    ensures 13 * CodeCount(size) / 8 >= size - 1
    ensures forall k :: 1 <= k < CodeCount(size) ==> 13 * k / 8 < size - 1
  {
  }

  /** The byte count alone tells how many codes a packed chunk has. */
  lemma ExactStop(n: nat)
    requires n >= 1
    ensures CodeCount(PackedLength(n)) == n
  {
  }

  /** `Decompress(Size)` fetches exactly `Size` bytes if and only if `Size` is the length of a packed chunk. */
  lemma ConsumesExactly(size: nat)
    requires size >= 1
    ensures PackedLength(CodeCount(size)) == size <==> exists n :: n >= 1 && size == PackedLength(n)
  {
    forall n | n >= 1 && size == PackedLength(n)
      ensures PackedLength(CodeCount(size)) == size
    {
      ExactStop(n);
    }
  }

  /** A 13-bit code occupies two or three bytes, so the padding guard of the encoder always holds. */
  lemma PadGuard(n: nat)
    requires n >= 1
    ensures (PackedLength(n) - 1) % 13 != 0
  {
    var q, r := n / 8, n % 8;
    assert n == 8 * q + r;
    assert PackedLength(n) == 13 * q + (13 * r + 7) / 8;
    if r == 0 {
      assert PackedLength(n) - 1 == 13 * (q - 1) + 12;
    } else {
      assert PackedLength(n) - 1 == 13 * q + ((13 * r + 7) / 8 - 1);
    }
  }
}
