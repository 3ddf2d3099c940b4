/**
 * Where the 13-bit code field stops being enough. The string table is never reset, so a
 * long chunk with many distinct byte pairs reaches code 8192; this module builds one
 * of every length above 7938 and shows that the decoder loses it.
 */
module LzwLimit {
  import opened Bytes
  import opened LzwCoding
  import opened LzwDecoding

  /**
   * Byte `i` of a walk over the byte pairs. Small even bytes at even positions; at odd
   * positions odd bytes, but large even ones at every eighth, so that 16 bytes in a row
   * always hold seven odd ones.
   */
  function Walk(i: nat): byte
    requires i < SAFE_LENGTH - 1
  {
    var m := i / 2;
    if i % 2 == 0 then 2 * (m % 64) + 2
    else if m % 8 == 0 then 2 * (m / 64) + 130
    else 2 * (m / 64) + 1
  }

  /** No two neighbours of the walk repeat an earlier pair of neighbours. */
  lemma WalkPairsDiffer(i: nat, j: nat)
    requires i < j < SAFE_LENGTH - 2
    ensures Walk(i) != Walk(j) || Walk(i + 1) != Walk(j + 1)
  {
    if Walk(i) == Walk(j) && Walk(i + 1) == Walk(j + 1) {
      NextHalf(i);
      NextHalf(j);
      SameHalves(i / 2, j / 2);
    }
  }

  /** A position is determined by its remainder and quotient by 64, seen from either side of a pair. */
  lemma SameHalves(m: nat, m': nat)
    ensures m / 64 == m' / 64 && m % 64 == m' % 64 ==> m == m'
    ensures m / 64 == m' / 64 && (m + 1) % 64 == (m' + 1) % 64 ==> m == m'
  {
    assert (m + 1) % 64 == if m % 64 == 63 then 0 else m % 64 + 1;
    assert (m' + 1) % 64 == if m' % 64 == 63 then 0 else m' % 64 + 1;
  }

  lemma NextHalf(i: nat)
    ensures i % 2 == 0 ==> (i + 1) % 2 == 1 && (i + 1) / 2 == i / 2
    ensures i % 2 == 1 ==> (i + 1) % 2 == 0 && (i + 1) / 2 == i / 2 + 1
  {
  }

  /** An odd byte stands at this position of the long chunk. */
  predicate OddAt(i: nat)
  {
    i % 2 == 1 && i % 16 != 1
  }

  /** The walk for 7937 bytes, then ones and twos. */
  function LongChunk(n: nat): (s: Data)
    requires n > SAFE_LENGTH
    ensures |s| == n
  {
    seq(n, i requires 0 <= i < n => if i < SAFE_LENGTH - 1 then Walk(i) else if OddAt(i) then 1 else 2)
  }

  /** The long chunk is free of zero bytes and odd exactly where `OddAt` says. */
  lemma LongChunkBytes(n: nat, i: nat)
    requires n > SAFE_LENGTH && i < n
    ensures LongChunk(n)[i] != 0 && (LongChunk(n)[i] % 2 == 1 <==> OddAt(i))
  {
    assert i % 16 == 1 <==> i % 2 == 1 && i / 2 % 8 == 0;
  }

  ghost predicate PairRepeats(s: Data, i: nat, j: nat)
    requires i < j < |s| - 1
  {
    s[i] == s[j] && s[i + 1] == s[j + 1]
  }

  /** A chunk whose first 7937 neighbour pairs all differ, the last of them a byte twice, then that byte again. */
  ghost predicate Exhausting(s: Data)
  {
    && |s| > SAFE_LENGTH
    && s[7936] == s[7937] == s[7938]
    && forall i, j :: 0 <= i < j < SAFE_LENGTH - 1 ==> !PairRepeats(s, i, j)
  }

  lemma LongChunkExhausting(n: nat)
    requires n > SAFE_LENGTH
    ensures Exhausting(LongChunk(n))
  {
    var s := LongChunk(n);
    assert Walk(7936) == 2 && !OddAt(7937) && !OddAt(7938);
    forall i, j | 0 <= i < j < SAFE_LENGTH - 1
      ensures !PairRepeats(s, i, j)
    {
      if j < SAFE_LENGTH - 2 {
        WalkPairsDiffer(i, j);
      } else {
        NextHalf(i);
      }
    }
  }

  /** Entries built from single-byte words are the pairs of neighbours. */
  lemma PairEntry(s: Data, words: seq<Data>, k: nat, j: nat)
    requires NonEmpty(words) && j < k < |words| && k < |s|
    requires forall i :: 0 <= i < k ==> words[i] == [s[i]]
    requires words[k][0] == s[k]
    ensures Entry(words, 256 + j) == [s[j], s[j + 1]]
  {
  }

  lemma ExhaustingLength(s: Data)
    requires Exhausting(s)
    ensures |s| > SAFE_LENGTH
  {
  }

  /** The first 7937 words are single bytes. */
  lemma {:induction false} SingleWords(s: Data, words: seq<Data>, codes: seq<nat>, k: nat)
    requires Exhausting(s) && LzwParse(s, words, codes) && k < SAFE_LENGTH
    ensures k < |words|
    ensures forall j :: 0 <= j < k ==> words[j] == [s[j]]
    ensures Concat(words[k..]) == s[k..]
    ensures words[k] <= s[k..]
    decreases k
  {
    hide Exhausting, Distinct, Named, Concat;
    ExhaustingLength(s);
    if k == 0 {
      assert words[0..] == words;
    } else {
      var m := k - 1;
      SingleWords(s, words, codes, m);
      OneByteWord(s, words, codes, m);
      RemainsAt(words, m);
      assert s[m..][1..] == s[k..];
    }
    ConcatAtOrEnd(words, k);
  }

  /** A word of two bytes or more would start with an earlier pair of neighbours. */
  lemma OneByteWord(s: Data, words: seq<Data>, codes: seq<nat>, m: nat)
    requires Exhausting(s) && NonEmpty(words) && |codes| == |words| && Named(words, codes)
    requires m < SAFE_LENGTH - 1 && m < |words| && words[m] <= s[m..]
    requires forall j :: 0 <= j < m ==> words[j] == [s[j]]
    ensures words[m] == [s[m]]
  {
    var w, rest := words[m], s[m..];
    assert w == Entry(words, codes[m]);
    assert w[0] == rest[0] == s[m];
    if codes[m] >= 256 {
      var j := codes[m] - 256;
      PairEntry(s, words, m, j);
      assert w[1] == rest[1] == s[m + 1];
      NoRepeat(s, j, m);
    }
  }

  lemma NoRepeat(s: Data, i: nat, j: nat)
    requires Exhausting(s) && i < j < SAFE_LENGTH - 1
    ensures s[i] != s[j] || s[i + 1] != s[j + 1]
  {
    assert !PairRepeats(s, i, j);
  }

  lemma ConcatAtOrEnd(words: seq<Data>, k: nat)
    requires NonEmpty(words) && k <= |words| && Concat(words[k..]) != []
    ensures k < |words| && words[k] <= Concat(words[k..])
  {
    assert words[|words|..] == [];
    ConcatAt(words, k);
  }

  /** Code 8192 is the pair of equal bytes, and no entry before it is longer than a pair. */
  lemma EntriesToLimit(s: Data, words: seq<Data>, codes: seq<nat>)
    requires Exhausting(s) && LzwParse(s, words, codes)
    ensures 7937 < |words| && Entry(words, CODE_LIMIT) == [s[7937], s[7937]]
    ensures forall i :: 0 <= i < CODE_LIMIT ==> |Entry(words, i)| <= 2 && Entry(words, i) != [s[7937], s[7937]]
  {
    var k := 7937;
    SingleWords(s, words, codes, k);
    assert words[k][0] == s[k..][0];
    PairEntry(s, words, k, k - 1);
    forall i | 0 <= i < CODE_LIMIT
      ensures |Entry(words, i)| <= 2 && Entry(words, i) != [s[7937], s[7937]]
    {
      if i >= 256 {
        PairEntry(s, words, k, i - 256);
        assert !PairRepeats(s, i - 256, 7936);
      }
    }
  }

  /** The word after the single bytes is that pair. */
  lemma CodeOverflows(s: Data, words: seq<Data>, codes: seq<nat>)
    requires Exhausting(s) && LzwParse(s, words, codes)
    ensures 7937 < |words| && codes[7937] == CODE_LIMIT && |words[7937]| == 2
  {
    hide Concat, Distinct, Exhausting, Remains;
    TailRepeats(s);
    var rest := s[7937..];
    EntriesToLimit(s, words, codes);
    SingleWords(s, words, codes, 7937);
    RemainsAt(words, 7937);
    LongestMatch(words, codes, 7937, CODE_LIMIT, rest);
    assert words[7937] == Entry(words, codes[7937]) && codes[7937] <= CODE_LIMIT;
    PairPrefix(words[7937], rest, s[7937]);
  }

  lemma TailRepeats(s: Data)
    requires Exhausting(s)
    ensures |s| > SAFE_LENGTH && [s[7937], s[7937]] <= s[7937..]
  {
  }

  lemma PairPrefix(w: Data, rest: Data, z: byte)
    requires w <= rest && [z, z] <= rest && |w| >= 2
    ensures |w| == 2 ==> w == [z, z]
  {
  }

  lemma {:induction false} ShorterParts(a: seq<Data>, b: seq<Data>, k: nat)
    requires |a| == |b| && k <= |a|
    requires forall i :: 0 <= i < |a| ==> |a[i]| <= |b[i]|
    requires k < |a| ==> |a[k]| < |b[k]|
    ensures |Concat(a)| <= |Concat(b)|
    ensures k < |a| ==> |Concat(a)| < |Concat(b)|
  {
    if a != [] {
      var n := |a| - 1;
      ShorterParts(a[..n], b[..n], if k < n then k else n);
    }
  }

  /** No decoded word is longer than the word it stands for, and word 7937 is shorter. */
  lemma DecodedShorter(words: seq<Data>, codes: seq<nat>, k: nat)
    requires NonEmpty(words) && |codes| == |words| && Named(words, codes)
    requires forall i :: 0 <= i < CODE_LIMIT && i < 255 + |words| ==> |Entry(words, i)| <= 2
    requires k < |codes|
    ensures codes[k] % CODE_LIMIT < 255 + |words|
    ensures |Entry(words, codes[k] % CODE_LIMIT)| <= |words[k]|
    ensures codes[k] == CODE_LIMIT ==> |Entry(words, codes[k] % CODE_LIMIT)| < |words[k]|
  {
    var code := codes[k];
    assert Entry(words, code) == words[k];
    assert code >= 256 ==> |words[k]| >= 2;
    assert code % CODE_LIMIT <= code;
    assert |Entry(words, code % CODE_LIMIT)| <= 2;
  }

  /** An exhausting chunk comes back shorter than it went. */
  lemma ExhaustingLost(s: Data)
    requires Exhausting(s)
    ensures |Recovered(s)| < |s|
  {
    var words, codes := Words(s), Codes(s);
    EncoderParses(s);
    DecodedWord(s, 0);
    EntriesToLimit(s, words, codes);
    CodeOverflows(s, words, codes);
    var decoded := DecodedWords(Masked(codes));
    forall k | 0 <= k < |decoded|
      ensures |decoded[k]| <= |words[k]| && (k == 7937 ==> |decoded[k]| < |words[k]|)
    {
      DecodedWord(s, k);
      DecodedShorter(words, codes, k);
    }
    ShorterParts(decoded, words, 7937);
  }

  /** Every chunk of `n` bytes survives compression and decompression exactly when `n` is at most 7938. */
  lemma SafeLengthExact(n: nat)
    requires n >= 1
    ensures (forall s: Data :: |s| == n ==> Recovered(s) == s) <==> n <= SAFE_LENGTH
  {
    if n <= SAFE_LENGTH {
      forall s: Data | |s| == n
        ensures Recovered(s) == s
      {
        ShortChunkRecovered(s);
      }
    } else {
      LongChunkExhausting(n);
      ExhaustingLost(LongChunk(n));
      assert Recovered(LongChunk(n)) != LongChunk(n);
    }
  }

  // ----- Long chunks that survive -----

  lemma UniformWord(words: seq<Data>, b: byte, k: nat)
    requires Uniform(Concat(words), b) && k < |words|
    ensures Uniform(words[k], b)
  {
    hide Concat;
    ConcatAt(words, k);
    var before, whole := |Concat(words[..k])|, Concat(words);
    forall i | 0 <= i < |words[k]|
      ensures words[k][i] == b
    {
      assert words[k][i] == whole[before + i];
    }
  }

  lemma SameRun(v: Data, w: Data, b: byte)
    requires Uniform(v, b) && Uniform(w, b) && |v| == |w|
    ensures v == w
  {
  }

  /** An entry built from words of a run of equal bytes is such a run. */
  lemma UniformEntry(words: seq<Data>, b: byte, j: nat)
    requires NonEmpty(words) && Uniform(Concat(words), b) && j + 1 < |words|
    ensures Uniform(Entry(words, 256 + j), b) && |Entry(words, 256 + j)| == |words[j]| + 1
  {
    hide Concat;
    UniformWord(words, b, j);
    UniformWord(words, b, j + 1);
  }

  /** Each word of a run of equal bytes, but the last, is one byte longer than the word before it. */
  lemma {:induction false} UniformLengths(words: seq<Data>, codes: seq<nat>, b: byte, k: nat)
    requires LzwParse(Concat(words), words, codes) && Uniform(Concat(words), b) && k < |words|
    ensures forall j :: 0 <= j < k ==> |words[j]| == j + 1
  {
    hide Concat, Distinct, Uniform, Entry;
    if k > 0 {
      var m := k - 1;
      UniformLengths(words, codes, b, m);
      UniformAtMost(words, codes[m], m);
      if |words[m]| <= m {
        var j := |words[m]| - 1;
        UniformEntry(words, b, j);
        UniformEntry(words, b, m);
        EntriesDiffer(words, 256 + j, 256 + m);
        SameRun(Entry(words, 256 + j), Entry(words, 256 + m), b);
      }
    }
  }

  /** A word is at most one byte longer than the longest word before it. */
  lemma UniformAtMost(words: seq<Data>, code: nat, m: nat)
    requires NonEmpty(words) && m < |words| && code <= 255 + m && Entry(words, code) == words[m]
    requires forall j :: 0 <= j < m ==> |words[j]| == j + 1
    ensures |words[m]| <= m + 1
  {
  }

  lemma {:induction false} TriangleLength(words: seq<Data>, k: nat)
    requires k <= |words| && forall j :: 0 <= j < k ==> |words[j]| == j + 1
    ensures 2 * |Concat(words[..k])| == k * (k + 1)
  {
    if k > 0 {
      TriangleLength(words, k - 1);
      assert words[..k] == words[..k - 1] + [words[k - 1]];
      ConcatAppend(words[..k - 1], words[k - 1]);
    }
  }

  /** In a run of equal bytes the code tells the length of what it names. */
  lemma UniformEntryLength(words: seq<Data>, codes: seq<nat>, b: byte, i: nat)
    requires LzwParse(Concat(words), words, codes) && Uniform(Concat(words), b) && i < 255 + |words|
    ensures |Entry(words, i)| == if i < 256 then 1 else i - 254
  {
    hide Concat, Distinct;
    UniformLengths(words, codes, b, |words| - 1);
  }

  /** The words of a run: lengths 1, 2, 3 and so on, and a last one at most one byte longer than that. */
  lemma UniformShape(s: Data, b: byte)
    requires s != [] && Uniform(s, b)
    ensures var words, codes := Words(s), Codes(s);
            && LzwParse(s, words, codes)
            && (forall j :: 0 <= j < |words| - 1 ==> |words[j]| == j + 1)
            && 2 * |s| == (|words| - 1) * |words| + 2 * |words[|words| - 1]|
            && 1 <= |words[|words| - 1]| <= |words|
            && forall k :: 0 <= k < |codes| ==> |words[k]| == if codes[k] < 256 then 1 else codes[k] - 254
  {
    hide Concat, Distinct, Entry, Uniform;
    EncoderParses(s);
    var words, codes := Words(s), Codes(s);
    var m := |words| - 1;
    UniformLengths(words, codes, b, m);
    UniformAtMost(words, codes[m], m);
    TriangleLength(words, m);
    ConcatAt(words, m);
    assert words[m + 1..] == [];
    NoParts();
    forall k | 0 <= k < |codes|
      ensures |words[k]| == if codes[k] < 256 then 1 else codes[k] - 254
    {
      assert codes[k] <= 255 + k && Entry(words, codes[k]) == words[k];
      UniformEntryLength(words, codes, b, codes[k]);
    }
  }

  lemma NoParts()
    ensures Concat([]) == []
  {
  }

  lemma LargerProduct(a: nat, b: nat, c: nat, d: nat)
    requires a <= c && b <= d
    ensures a * b <= c * d
  {
    assert c * d == a * b + (c - a) * b + c * (d - b);
  }

  /** Triangular numbers around the limit, doubled. */
  lemma Triangles(m: nat)
    ensures m <= 7937 ==> m * (m + 1) <= 7937 * 7938
    ensures m >= 7939 ==> (m - 1) * m >= 7938 * 7939
  {
    if m <= 7937 {
      LargerProduct(m, m + 1, 7937, 7938);
    } else if m >= 7939 {
      LargerProduct(7938, 7939, m - 1, m);
    }
  }

  /** The longest run of equal bytes whose codes all fit. */
  const LONGEST_RUN := 31509890

  lemma UniformCodes(s: Data, b: byte)
    requires s != [] && Uniform(s, b)
    ensures Fits(s) <==> |s| <= LONGEST_RUN
  {
    hide Concat, Distinct, Entry, Uniform, Words, Codes;
    UniformShape(s, b);
    var words, codes := Words(s), Codes(s);
    var m := |words|;
    Triangles(m);
    assert (m - 1) * m + 2 * m == m * (m + 1);
    assert forall k :: 0 <= k < |codes| ==> codes[k] <= 255 + k;
    if m >= 7939 {
      assert |words[7937]| == 7938 && codes[7937] >= CODE_LIMIT;
    } else if m == 7938 {
      assert codes[7937] < CODE_LIMIT <==> |words[7937]| <= 7937;
    }
  }

  /** A truncated code of a run names a shorter word. */
  lemma UniformLost(s: Data, b: byte)
    requires s != [] && Uniform(s, b) && !Fits(s)
    ensures |Recovered(s)| < |s|
  {
    hide Concat, Distinct, Entry, Words, Codes, Masked, DecodedWords, Decodable;
    EncoderParses(s);
    var words, codes := Words(s), Codes(s);
    DecodedWord(s, 0);
    var decoded := DecodedWords(Masked(codes));
    var bad :| 0 <= bad < |codes| && codes[bad] >= CODE_LIMIT;
    forall k | 0 <= k < |codes|
      ensures |decoded[k]| <= |words[k]| && (codes[k] >= CODE_LIMIT ==> |decoded[k]| < |words[k]|)
    {
      DecodedWord(s, k);
      assert codes[k] <= 255 + k && Entry(words, codes[k]) == words[k];
      UniformEntryLength(words, codes, b, codes[k]);
      UniformEntryLength(words, codes, b, codes[k] % CODE_LIMIT);
    }
    ShorterParts(decoded, words, bad);
  }

  /** A run of equal bytes survives, and its codes fit, exactly up to this length, far beyond any packet. */
  lemma UniformExact(s: Data, b: byte)
    requires s != [] && Uniform(s, b)
    ensures Fits(s) <==> |s| <= LONGEST_RUN
    ensures Recovered(s) == s <==> |s| <= LONGEST_RUN
  {
    UniformCodes(s, b);
    if Fits(s) {
      FitsRecovered(s);
    } else {
      UniformLost(s, b);
    }
  }
}
