/** Content-defined chunking: a hash of the next 16 bytes decides where a chunk ends. */
module Chunking {
  import opened Bytes

  const PRIME := 3
  const WIN_SIZE := 16
  const MODULUS := 256
  const TARGET := 0

  /** `pow(PRIME, n)`. */
  function Pow3(n: nat): (p: nat)
    ensures p >= 1
  {
    if n == 0 then 1 else PRIME * Pow3(n - 1)
  }

  lemma PowerValues()
    ensures Pow3(16) == 43046721 && Pow3(17) == 129140163
  {
    assert Pow3(4) == 81;
    assert Pow3(8) == 6561;
    assert Pow3(12) == 531441;
  }

  function Value(b: Data, i: nat): nat
    requires i < |b|
  {
    b[i]
  }

  /** The first `n` terms of the hash of the window at `i`: the last byte of the window weighs least. */
  function WindowSum(b: Data, i: nat, n: nat): nat
    requires n <= WIN_SIZE && i + WIN_SIZE <= |b|
  {
    if n == 0 then 0 else WindowSum(b, i, n - 1) + Value(b, i + WIN_SIZE - n) * Pow3(n)
  }

  function WindowHash(b: Data, i: nat): nat
    requires i + WIN_SIZE <= |b|
  {
    WindowSum(b, i, WIN_SIZE)
  }

  /** `i` starts a window whose hash marks the byte before it as the end of a chunk. */
  predicate Marks(b: Data, i: nat)
    requires i + WIN_SIZE <= |b|
  {
    WindowHash(b, i) % MODULUS == TARGET
  }

  /** The marks at positions `WIN_SIZE` to `hi - 1`. */
  function MarkedEnds(b: Data, hi: nat): (ends: seq<int>)
    requires hi <= WIN_SIZE || hi + WIN_SIZE <= |b| + 1
  {
    if hi <= WIN_SIZE then []
    else MarkedEnds(b, hi - 1) + if Marks(b, hi - 1) then [hi - 2] else []
  }

  /** The chunk ends of a buffer, as `cdc` leaves them in `chunk_q`. */
  function ChunkEnds(b: Data): (ends: seq<int>)
    requires |b| >= WIN_SIZE
    ensures |ends| >= 1
  {
    MarkedEnds(b, |b| - WIN_SIZE) + [|b| - 1]
  }

  /** The inner loop of the scan. */
  method HashWindow(buff: Data, i: nat) returns (hash: nat)
    requires i + WIN_SIZE <= |buff|
    ensures hash == WindowHash(buff, i)
  {
    hide Pow3, Value;
    hash := 0;
    for j := 0 to WIN_SIZE
      invariant hash == WindowSum(buff, i, j)
    {
      hash := hash + Value(buff, i + WIN_SIZE - 1 - j) * Pow3(j + 1);
    }
  }

  /** The scan writes the chunk ends into the queue, leaving the rest of it alone. */
  method Cdc(buff: Data, chunkQ: array<int>) returns (ghost count: nat)
    requires |buff| >= WIN_SIZE && chunkQ.Length == |buff|
    modifies chunkQ
    ensures count == |ChunkEnds(buff)| < chunkQ.Length
    ensures chunkQ[..count] == ChunkEnds(buff)
    ensures forall j :: count <= j < chunkQ.Length ==> chunkQ[j] == old(chunkQ[j])
  {
    hide WindowSum;
    var chunkIndex := 0;
    var i := WIN_SIZE;
    while i < |buff| - WIN_SIZE
      invariant i == WIN_SIZE || WIN_SIZE < i <= |buff| - WIN_SIZE
      invariant chunkIndex <= i - WIN_SIZE && chunkIndex < chunkQ.Length - 1
      invariant chunkQ[..chunkIndex] == MarkedEnds(buff, i)
      invariant forall j :: chunkIndex <= j < chunkQ.Length ==> chunkQ[j] == old(chunkQ[j])
    {
      var hash := HashWindow(buff, i);
      if hash % MODULUS == TARGET {
        chunkQ[chunkIndex] := i - 1;
        chunkIndex := chunkIndex + 1;
        assert chunkQ[..chunkIndex] == MarkedEnds(buff, i) + [i - 1];
      }
      i := i + 1;
    }
    chunkQ[chunkIndex] := |buff| - 1;
    chunkIndex := chunkIndex + 1;
    count := chunkIndex;
    assert MarkedEnds(buff, i) == MarkedEnds(buff, |buff| - WIN_SIZE);
    assert chunkQ[..count] == MarkedEnds(buff, i) + [|buff| - 1];
  }

  lemma {:induction false} EndsBound(b: Data, hi: nat)
    requires hi <= WIN_SIZE || hi + WIN_SIZE <= |b| + 1
    ensures |MarkedEnds(b, hi)| <= if hi <= WIN_SIZE then 0 else hi - WIN_SIZE
  {
    if hi > WIN_SIZE {
      EndsBound(b, hi - 1);
    }
  }

  // ----- Where the scan reads -----

  /** The scan limit `buff_size - WIN_SIZE` in 32-bit unsigned arithmetic. */
  function ScanLimit(buffSize: nat): nat
  {
    (buffSize - WIN_SIZE) % 0x1_0000_0000
  }

  predicate WindowInside(i: nat, buffSize: nat)
  {
    i + WIN_SIZE - 1 < buffSize
  }

  /** The limit wraps around below 16; the scan reads inside the buffer if and only if it has at least 16 bytes. */
  lemma ScanInBounds(buffSize: nat)
    requires buffSize < 0x1_0000_0000
    ensures ScanLimit(buffSize) == if buffSize >= 16 then buffSize - 16 else 4294967280 + buffSize
    ensures forall i: nat :: WindowInside(i, buffSize) <==> i + 15 < buffSize
    ensures (forall i :: WIN_SIZE <= i < ScanLimit(buffSize) ==> WindowInside(i, buffSize)) <==> buffSize >= WIN_SIZE
  {
    if buffSize < WIN_SIZE {
      assert WIN_SIZE < ScanLimit(buffSize) && !WindowInside(WIN_SIZE, buffSize);
    }
  }

  // ----- The hash -----

  lemma {:induction false} SumBound(b: Data, i: nat, n: nat)
    requires n <= WIN_SIZE && i + WIN_SIZE <= |b|
    ensures 2 * WindowSum(b, i, n) <= 255 * (3 * Pow3(n) - 3)
  {
    if n > 0 {
      SumBound(b, i, n - 1);
      ProductBound(Value(b, i + WIN_SIZE - n), Pow3(n));
    }
  }

  lemma ProductBound(x: nat, p: nat)
    requires x <= 255
    ensures x * p <= 255 * p
  {
  }

  /** One term of the hash. */
  lemma Term(b: Data, i: nat, n: nat)
    requires 1 <= n <= 16 && i + 16 <= |b|
    ensures WindowSum(b, i, n) == WindowSum(b, i, n - 1) + b[i + 16 - n] as int * Pow3(n)
  {
  }

  lemma Weights()
    ensures Pow3(1) == 3 && Pow3(2) == 9 && Pow3(3) == 27 && Pow3(4) == 81 && Pow3(5) == 243 && Pow3(6) == 729
    ensures Pow3(7) == 2187 && Pow3(8) == 6561 && Pow3(9) == 19683 && Pow3(10) == 59049 && Pow3(11) == 177147
    ensures Pow3(12) == 531441 && Pow3(13) == 1594323 && Pow3(14) == 4782969 && Pow3(15) == 14348907
    ensures Pow3(16) == 43046721
  {
    assert Pow3(2) == 9 && Pow3(4) == 81 && Pow3(6) == 729 && Pow3(8) == 6561 && Pow3(10) == 59049;
    assert Pow3(12) == 531441 && Pow3(14) == 4782969;
  }

  /** The hash as a number: the bytes of the window weighed by powers of 3, the last byte by 3 itself. */
  lemma HashOfBytes(b: Data, i: nat)
    requires i + 16 <= |b|
    ensures WindowHash(b, i)
            == 3 * b[i + 15] as int + 9 * b[i + 14] as int + 27 * b[i + 13] as int + 81 * b[i + 12] as int
               + 243 * b[i + 11] as int + 729 * b[i + 10] as int + 2187 * b[i + 9] as int + 6561 * b[i + 8] as int
               + 19683 * b[i + 7] as int + 59049 * b[i + 6] as int + 177147 * b[i + 5] as int
               + 531441 * b[i + 4] as int + 1594323 * b[i + 3] as int + 4782969 * b[i + 2] as int
               + 14348907 * b[i + 1] as int + 43046721 * b[i] as int
  {
    Weights();
    assert WindowSum(b, i, 0) == 0;
    hide WindowSum, Pow3;
    Term(b, i, 1);
    Term(b, i, 2);
    Term(b, i, 3);
    Term(b, i, 4);
    Term(b, i, 5);
    Term(b, i, 6);
    Term(b, i, 7);
    Term(b, i, 8);
    Term(b, i, 9);
    Term(b, i, 10);
    Term(b, i, 11);
    Term(b, i, 12);
    Term(b, i, 13);
    Term(b, i, 14);
    Term(b, i, 15);
    Term(b, i, 16);
  }

  /** The hash of sixteen equal bytes. */
  lemma UniformHash(b: Data, v: byte, i: nat)
    requires i + 16 <= |b| && Uniform(b, v)
    ensures WindowHash(b, i) == v as int * 64570080
    ensures WindowHash(b, i) % 256 == 0 <==> v % 8 == 0
  {
    hide WindowHash;
    HashOfBytes(b, i);
    MultipleOfEight(v);
  }

  lemma MultipleOfEight(v: nat)
    ensures (v * 64570080) % 256 == 0 <==> v % 8 == 0
  {
    var q, r := v / 8, v % 8;
    assert v * 64570080 == 256 * (q * 2017815 + r * 252226) + r * 224;
  }

  /** The hash stays below 2^53, so accumulating it through the `double` that `pow` returns is exact. */
  lemma HashExact(b: Data, i: nat)
    requires i + WIN_SIZE <= |b|
    ensures WindowHash(b, i) <= 16465370400 < 0x20_0000_0000_0000
  {
    SumBound(b, i, WIN_SIZE);
    PowerValues();
  }

  /** The windows at `i - 1` and `i` share all but their end bytes. */
  lemma {:induction false} ShiftedSum(b: Data, i: nat, n: nat)
    requires 1 <= i && n < WIN_SIZE && i + WIN_SIZE <= |b|
    ensures WindowSum(b, i, n + 1) == 3 * WindowSum(b, i - 1, n) + 3 * Value(b, i + WIN_SIZE - 1)
  {
    if n > 0 {
      ShiftedSum(b, i, n - 1);
      TripleTerm(Value(b, i + WIN_SIZE - (n + 1)), n);
    } else {
      assert Pow3(1) == 3;
    }
  }

  lemma TripleTerm(x: nat, n: nat)
    ensures x * Pow3(n + 1) == 3 * (x * Pow3(n))
  {
  }

  /** The rolling form of the hash. */
  lemma RollingStep(b: Data, i: nat)
    requires 1 <= i && i + WIN_SIZE <= |b|
    ensures WindowHash(b, i) == 3 * WindowHash(b, i - 1) - 129140163 * Value(b, i - 1) + 3 * Value(b, i + WIN_SIZE - 1)
  {
    ShiftedSum(b, i, WIN_SIZE - 1);
    PowerValues();
    assert WindowSum(b, i - 1, 16) == WindowSum(b, i - 1, 15) + Value(b, i - 1) * Pow3(16);
  }

  /** The rolling variant: each hash computed from the one before it in 64-bit arithmetic. */
  function Rolling(b: Data, i: nat): nat
    requires WIN_SIZE <= i && i + WIN_SIZE <= |b|
  {
    if i == WIN_SIZE then WindowHash(b, i)
    else (3 * Rolling(b, i - 1) - Pow3(WIN_SIZE + 1) * Value(b, i - 1) + 3 * Value(b, i + WIN_SIZE - 1))
         % 0x1_0000_0000_0000_0000
  }

  /** The rolling variant computes the same hash, so it marks the same chunk ends. */
  lemma {:induction false} RollingAgrees(b: Data, i: nat)
    requires WIN_SIZE <= i && i + WIN_SIZE <= |b|
    ensures Rolling(b, i) == WindowHash(b, i)
  {
    if i > WIN_SIZE {
      RollingAgrees(b, i - 1);
      RollingStep(b, i);
      HashExact(b, i);
      PowerValues();
    }
  }

  lemma {:induction false} SumLocal(a: Data, i: nat, b: Data, j: nat, n: nat)
    requires n <= WIN_SIZE && i + WIN_SIZE <= |a| && j + WIN_SIZE <= |b|
    requires a[i..i + WIN_SIZE] == b[j..j + WIN_SIZE]
    ensures WindowSum(a, i, n) == WindowSum(b, j, n)
  {
    if n > 0 {
      SumLocal(a, i, b, j, n - 1);
      assert a[i + WIN_SIZE - n] == a[i..i + WIN_SIZE][WIN_SIZE - n] == b[j + WIN_SIZE - n];
    }
  }

  // ----- The chunk ends -----

  lemma {:induction false} MarkedEndsExact(b: Data, hi: nat, e: int)
    requires hi <= WIN_SIZE || hi + WIN_SIZE <= |b| + 1
    ensures e in MarkedEnds(b, hi) <==> WIN_SIZE - 1 <= e < hi - 1 && Marks(b, e + 1)
  {
    if hi > WIN_SIZE {
      MarkedEndsExact(b, hi - 1, e);
    }
  }

  /**
   * A chunk ends at the last byte, and before each window the scan reaches whose hash is a
   * multiple of 256; nowhere else.
   */
  lemma ChunkEndsExact(b: Data, e: int)
    requires |b| >= 16
    ensures e in ChunkEnds(b) <==> e == |b| - 1 || (15 <= e < |b| - 17 && WindowHash(b, e + 1) % 256 == 0)
  {
    MarkedEndsExact(b, |b| - WIN_SIZE, e);
  }

  ghost predicate Increasing(ends: seq<int>)
  {
    forall i, j :: 0 <= i < j < |ends| ==> ends[i] < ends[j]
  }

  lemma {:induction false} MarkedEndsIncreasing(b: Data, hi: nat)
    requires hi <= WIN_SIZE || hi + WIN_SIZE <= |b| + 1
    ensures Increasing(MarkedEnds(b, hi))
    ensures forall i :: 0 <= i < |MarkedEnds(b, hi)| ==> WIN_SIZE - 1 <= MarkedEnds(b, hi)[i] < hi - 1
  {
    if hi > WIN_SIZE {
      MarkedEndsIncreasing(b, hi - 1);
    }
  }

  /** The ends increase strictly from byte 15 or later to the last byte, and leave room for the sentinel. */
  lemma ChunkEndsShape(b: Data)
    requires |b| >= WIN_SIZE
    ensures Increasing(ChunkEnds(b)) && ChunkEnds(b)[0] >= WIN_SIZE - 1
    ensures ChunkEnds(b)[|ChunkEnds(b)| - 1] == |b| - 1
    ensures |ChunkEnds(b)| < |b|
  {
    hide Marks, MarkedEnds;
    MarkedEndsIncreasing(b, |b| - WIN_SIZE);
    EndsBound(b, |b| - WIN_SIZE);
  }

  /**
   * Resynchronisation: two buffers that end alike are cut alike, wherever the window lies
   * in the common tail and both scans have started.
   */
  lemma Resynchronises(x: Data, y: Data, tail: Data, t: nat)
    requires |x| + t >= WIN_SIZE && |y| + t >= WIN_SIZE && t + WIN_SIZE <= |tail|
    ensures |x| + t - 1 in ChunkEnds(x + tail) <==> |y| + t - 1 in ChunkEnds(y + tail)
  {
    hide ChunkEnds, WindowSum;
    var a, b := x + tail, y + tail;
    assert a[|x| + t..|x| + t + WIN_SIZE] == tail[t..t + WIN_SIZE] == b[|y| + t..|y| + t + WIN_SIZE];
    SumLocal(a, |x| + t, b, |y| + t, WIN_SIZE);
    ChunkEndsExact(a, |x| + t - 1);
    ChunkEndsExact(b, |y| + t - 1);
  }

  // ----- The chunks -----

  /** Where the chunk that ends at `ends[k]` starts. */
  function Start(ends: seq<int>, k: nat): int
    requires k < |ends|
  {
    if k == 0 then 0 else ends[k - 1] + 1
  }

  predicate EndsFit(b: Data, ends: seq<int>, k: nat)
    requires k < |ends|
  {
    0 <= Start(ends, k) <= ends[k] < |b|
  }

  /** The chunk whose last byte is `ends[k]`. */
  function Slice(b: Data, ends: seq<int>, k: nat): (chunk: Data)
    requires k < |ends| && EndsFit(b, ends, k)
    ensures chunk != []
  {
    Chunk(b, Start(ends, k), ends[k])
  }

  ghost predicate GoodEnds(b: Data, ends: seq<int>)
  {
    && Increasing(ends) && |ends| > 0 && ends[0] >= 0 && ends[|ends| - 1] == |b| - 1
  }

  lemma EndsInRange(b: Data, ends: seq<int>, k: nat)
    requires GoodEnds(b, ends) && k < |ends|
    ensures EndsFit(b, ends, k)
  {
  }

  /** The chunks of a packet, in order. */
  function Chunks(b: Data): (chunks: seq<Data>)
    requires |b| >= WIN_SIZE
    ensures |chunks| == |ChunkEnds(b)|
  {
    ChunkEndsShape(b);
    var ends := ChunkEnds(b);
    seq(|ends|, k requires 0 <= k < |ends| => EndsInRange(b, ends, k); Slice(b, ends, k))
  }

  lemma {:induction false} SlicesCover(b: Data, chunks: seq<Data>, ends: seq<int>, k: nat)
    requires GoodEnds(b, ends) && |chunks| == |ends| && k <= |ends|
    requires forall j :: 0 <= j < |ends| ==> EndsFit(b, ends, j) && chunks[j] == Slice(b, ends, j)
    ensures k > 0 ==> EndsFit(b, ends, k - 1)
    ensures Concat(chunks[..k]) == b[..if k == 0 then 0 else ends[k - 1] + 1]
  {
    if k > 0 {
      SlicesCover(b, chunks, ends, k - 1);
      assert chunks[..k] == chunks[..k - 1] + [chunks[k - 1]];
      ConcatAppend(chunks[..k - 1], chunks[k - 1]);
      assert EndsFit(b, ends, k - 1);
    }
  }

  /** The first `k` chunks are the bytes up to the last of their ends. */
  lemma ChunksCover(b: Data, k: nat)
    requires |b| >= WIN_SIZE && k <= |ChunkEnds(b)|
    ensures k > 0 ==> EndsFit(b, ChunkEnds(b), k - 1)
    ensures Concat(Chunks(b)[..k]) == b[..if k == 0 then 0 else ChunkEnds(b)[k - 1] + 1]
  {
    hide ChunkEnds, Slice, Concat;
    ChunkEndsShape(b);
    var ends, chunks := ChunkEnds(b), Chunks(b);
    forall k | 0 <= k < |ends|
      ensures EndsFit(b, ends, k) && chunks[k] == Slice(b, ends, k)
    {
      EndsInRange(b, ends, k);
    }
    SlicesCover(b, chunks, ends, k);
  }

  /** The chunks are non-empty and laid end to end they are the packet. */
  lemma ChunksPartition(b: Data)
    requires |b| >= WIN_SIZE
    ensures Concat(Chunks(b)) == b
    ensures forall k :: 0 <= k < |Chunks(b)| ==> Chunks(b)[k] != []
  {
    hide ChunkEnds, Concat;
    ChunkEndsShape(b);
    var ends, chunks := ChunkEnds(b), Chunks(b);
    forall k | 0 <= k < |ends|
      ensures chunks[k] != []
    {
      EndsInRange(b, ends, k);
    }
    ChunksCover(b, |ends|);
    assert chunks[..|ends|] == chunks;
  }

  /** A packet is one chunk exactly if the scan marks no window. */
  lemma OneChunkExact(b: Data)
    requires |b| >= WIN_SIZE
    ensures Chunks(b) == [b] <==> forall i :: WIN_SIZE <= i < |b| - WIN_SIZE ==> !Marks(b, i)
  {
    hide Marks;
    var hi := |b| - WIN_SIZE;
    if Chunks(b) == [b] {
      forall i | WIN_SIZE <= i < hi
        ensures !Marks(b, i)
      {
        MarkedEndsExact(b, hi, i - 1);
      }
    }
    if forall i :: WIN_SIZE <= i < hi ==> !Marks(b, i) {
      NoMarks(b, hi);
      assert Slice(b, ChunkEnds(b), 0) == b;
    }
  }

  lemma {:induction false} NoMarks(b: Data, hi: nat)
    requires hi <= WIN_SIZE || hi + WIN_SIZE <= |b| + 1
    requires forall i :: WIN_SIZE <= i < hi ==> !Marks(b, i)
    ensures MarkedEnds(b, hi) == []
  {
    if hi > WIN_SIZE {
      NoMarks(b, hi - 1);
    }
  }

  lemma {:induction false} UniformEnds(b: Data, v: byte, hi: nat)
    requires Uniform(b, v) && 16 <= hi && hi + 16 <= |b| + 1
    ensures MarkedEnds(b, hi) == if v % 8 == 0 then seq(hi - 16, k => 15 + k) else []
  {
    hide WindowHash;
    if hi > 16 {
      UniformEnds(b, v, hi - 1);
      UniformHash(b, v, hi - 1);
    }
  }

  /** A packet of equal bytes is cut after every byte the scan reaches, or not at all. */
  lemma UniformCuts(b: Data, v: byte)
    requires |b| >= 16 && Uniform(b, v)
    ensures ChunkEnds(b)
            == (if v % 8 == 0 && |b| > 32 then seq(|b| - 32, k => 15 + k) else []) + [|b| - 1]
  {
    if |b| > 32 {
      UniformEnds(b, v, |b| - 16);
    }
  }

  // ----- Buffers that end alike -----

  /** The ends that the windows of a tail starting from `t` to `h - 1` mark, as positions in the tail. */
  function TailEnds(tail: Data, t: nat, h: nat): (ends: seq<int>)
    requires t <= h && h + WIN_SIZE <= |tail| + 1
    ensures forall i :: 0 <= i < |ends| ==> t - 1 <= ends[i] < h - 1
  {
    if h == t then [] else TailEnds(tail, t, h - 1) + if Marks(tail, h - 1) then [h - 2] else []
  }

  /** All the ends of a tail from `t - 1` on. */
  function CommonEnds(tail: Data, t: nat): (ends: seq<int>)
    requires t + WIN_SIZE <= |tail|
    ensures |ends| >= 1 && forall i :: 0 <= i < |ends| ==> t - 1 <= ends[i] < |tail|
  {
    TailEnds(tail, t, |tail| - WIN_SIZE) + [|tail| - 1]
  }

  function Shift(ends: seq<int>, n: nat): (shifted: seq<int>)
    ensures |shifted| == |ends|
    ensures forall i :: 0 <= i < |ends| ==> shifted[i] == n + ends[i]
  {
    seq(|ends|, i requires 0 <= i < |ends| => n + ends[i])
  }

  lemma MarksLocal(x: Data, tail: Data, h: nat)
    requires h + WIN_SIZE <= |tail|
    ensures Marks(x + tail, |x| + h) <==> Marks(tail, h)
  {
    assert (x + tail)[|x| + h..|x| + h + WIN_SIZE] == tail[h..h + WIN_SIZE];
    SumLocal(x + tail, |x| + h, tail, h, WIN_SIZE);
  }

  lemma {:induction false} MarkedSplit(x: Data, tail: Data, t: nat, h: nat)
    requires |x| + t >= WIN_SIZE && t <= h && h + WIN_SIZE <= |tail| + 1
    ensures MarkedEnds(x + tail, |x| + h) == MarkedEnds(x + tail, |x| + t) + Shift(TailEnds(tail, t, h), |x|)
    decreases h
  {
    hide Marks;
    if h > t {
      MarkedSplit(x, tail, t, h - 1);
      MarksLocal(x, tail, h - 1);
    }
  }

  /** Past the first window inside the tail, the ends of `x + tail` are those of the tail. */
  lemma EndsSplit(x: Data, tail: Data, t: nat)
    requires |x| + t >= WIN_SIZE && t + WIN_SIZE <= |tail|
    ensures ChunkEnds(x + tail) == MarkedEnds(x + tail, |x| + t) + Shift(CommonEnds(tail, t), |x|)
  {
    hide MarkedEnds, TailEnds;
    MarkedSplit(x, tail, t, |tail| - WIN_SIZE);
  }

  /** Chunk `k` of `b` ends at `e`. */
  predicate CutAt(b: Data, k: nat, e: int)
    requires |b| >= WIN_SIZE
  {
    k < |ChunkEnds(b)| && ChunkEnds(b)[k] == e
  }

  /** A cut just before byte `t` of the tail is the first of the ends the tail alone decides. */
  lemma CutIndex(x: Data, tail: Data, t: nat, k: nat)
    requires |x| + t >= WIN_SIZE && t + WIN_SIZE <= |tail|
    ensures CutAt(x + tail, k, |x| + t - 1) <==> k == |MarkedEnds(x + tail, |x| + t)| && CommonEnds(tail, t)[0] == t - 1
  {
    hide MarkedEnds, CommonEnds, ChunkEnds;
    EndsSplit(x, tail, t);
    ChunkEndsShape(x + tail);
    MarkedEndsIncreasing(x + tail, |x| + t);
  }

  /** Later chunks are slices of the tail between its own ends. */
  lemma TailChunk(x: Data, tail: Data, t: nat, m: nat)
    requires |x| + t >= WIN_SIZE && t + WIN_SIZE <= |tail| && 1 <= m < |CommonEnds(tail, t)|
    ensures var p := |MarkedEnds(x + tail, |x| + t)|;
            && p + |CommonEnds(tail, t)| == |Chunks(x + tail)|
            && EndsFit(tail, CommonEnds(tail, t), m)
            && Chunks(x + tail)[p + m] == Slice(tail, CommonEnds(tail, t), m)
  {
    hide MarkedEnds, CommonEnds, ChunkEnds;
    EndsSplit(x, tail, t);
    ChunkEndsShape(x + tail);
    EndsInRange(x + tail, ChunkEnds(x + tail), |MarkedEnds(x + tail, |x| + t)| + m);
  }

  /**
   * What deduplication relies on: two buffers with a common tail that are both cut before
   * byte `t` of it, as by `Resynchronises` they are when one is, have the same chunks from
   * there to the end, and those chunks are the rest of the tail.
   */
  lemma SameChunks(x: Data, y: Data, tail: Data, t: nat, i: nat, j: nat)
    requires |x| + t >= WIN_SIZE && |y| + t >= WIN_SIZE && t + WIN_SIZE <= |tail|
    requires CutAt(x + tail, i, |x| + t - 1) && CutAt(y + tail, j, |y| + t - 1)
    ensures Chunks(x + tail)[i + 1..] == Chunks(y + tail)[j + 1..]
    ensures Concat(Chunks(x + tail)[i + 1..]) == tail[t..]
  {
    hide MarkedEnds, ChunkEnds, CommonEnds, Chunks, Slice, Concat;
    CutIndex(x, tail, t, i);
    CutIndex(y, tail, t, j);
    SameCount(x, y, tail, t);
    var left, right := Chunks(x + tail)[i + 1..], Chunks(y + tail)[j + 1..];
    forall m | 0 <= m < |left|
      ensures left[m] == right[m]
    {
      TailChunk(x, tail, t, m + 1);
      TailChunk(y, tail, t, m + 1);
    }
    ChunksAfter(x + tail, i);
    assert (x + tail)[|x| + t..] == tail[t..];
  }

  lemma SameCount(x: Data, y: Data, tail: Data, t: nat)
    requires |x| + t >= WIN_SIZE && |y| + t >= WIN_SIZE && t + WIN_SIZE <= |tail|
    ensures |Chunks(x + tail)| - |MarkedEnds(x + tail, |x| + t)| == |CommonEnds(tail, t)|
    ensures |Chunks(y + tail)| - |MarkedEnds(y + tail, |y| + t)| == |CommonEnds(tail, t)|
  {
    EndsSplit(x, tail, t);
    EndsSplit(y, tail, t);
  }

  /** The chunks after chunk `k` are the bytes after its end. */
  lemma ChunksAfter(b: Data, k: nat)
    requires |b| >= WIN_SIZE && k < |ChunkEnds(b)|
    ensures 0 <= ChunkEnds(b)[k] < |b| && Concat(Chunks(b)[k + 1..]) == b[ChunkEnds(b)[k] + 1..]
  {
    hide ChunkEnds, Slice, Concat;
    ChunksPartition(b);
    ChunksCover(b, k + 1);
    var chunks := Chunks(b);
    assert chunks == chunks[..k + 1] + chunks[k + 1..];
    ConcatSplit(chunks[..k + 1], chunks[k + 1..]);
  }
}
