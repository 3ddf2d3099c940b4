/**
 * What the LZW decoder computes from a sequence of codes, and its lock-step
 * agreement with the encoder.
 */
module LzwDecoding {
  import opened Bytes
  import opened LzwCoding

  /** Codes travel in 13 bits. */
  const CODE_LIMIT := 8192

  /** The longest chunk length that can always be decoded. */
  const SAFE_LENGTH := 7938

  /** `Code_table`, `Old`, `Symbol`, and the strings appended to the output so far. */
  datatype Replayed = Replayed(table: seq<Data>, prev: nat, symbol: byte, words: seq<Data>)

  function FirstCode(code: nat): Replayed
  {
    Replayed(seq(256, i requires 0 <= i < 256 => [i]), code, code % 256, [[code % 256]])
  }

  function NextCode(st: Replayed, code: nat): Replayed
    requires NonEmpty(st.table) && st.prev < |st.table|
  {
    var symbols := if code >= |st.table| then st.table[st.prev] + [st.symbol] else st.table[code];
    Replayed(st.table + [st.table[st.prev] + [symbols[0]]], code, symbols[0], st.words + [symbols])
  }

  /** No lookup of the previous code ever leaves the table: each code but the last was known when it was read. */
  predicate Decodable(codes: seq<nat>)
  {
    codes != [] && forall k :: 0 <= k < |codes| - 1 ==> codes[k] <= 255 + k
  }

  /** The decoder's variables after `k` codes. */
  function Replay(codes: seq<nat>, k: nat): (st: Replayed)
    requires Decodable(codes) && 1 <= k <= |codes|
    ensures |st.table| == 255 + k && NonEmpty(st.table)
    ensures st.prev == codes[k - 1] && |st.words| == k
  {
    if k == 1 then FirstCode(codes[0]) else NextCode(Replay(codes, k - 1), codes[k - 1])
  }

  function DecodedWords(codes: seq<nat>): seq<Data>
    requires Decodable(codes)
  {
    Replay(codes, |codes|).words
  }

  // ----- Decoding of any codes -----

  /**
   * The reference definition of LZW decoding, for codes from any source: a code names an
   * entry of the dictionary of the words before it, and a code that is not in it yet the
   * last word with its own first byte appended.
   */
  ghost predicate LzwDecoded(codes: seq<nat>, words: seq<Data>)
  {
    && |words| == |codes| > 0 && NonEmpty(words)
    && words[0] == [codes[0] % 256]
    && forall k :: 1 <= k < |codes| ==> WordDecoded(codes, words, k)
  }

  ghost predicate WordDecoded(codes: seq<nat>, words: seq<Data>, k: nat)
    requires NonEmpty(words) && 1 <= k < |codes| == |words|
  {
    words[k] == if codes[k] < 255 + k then Entry(words, codes[k]) else words[k - 1] + [words[k - 1][0]]
  }

  /** The decoder's table is the dictionary of its words, and the last code names the last word. */
  ghost predicate ReplaySound(codes: seq<nat>, k: nat, st: Replayed)
    requires 1 <= k <= |codes|
  {
    && |st.table| == 255 + k && LzwDecoded(codes[..k], st.words)
    && (forall i {:trigger st.table[i]} :: 0 <= i < 255 + k ==> st.table[i] == Entry(st.words, i))
    && st.symbol == st.words[k - 1][0] && st.prev == codes[k - 1]
    && (codes[k - 1] < 255 + k ==> Entry(st.words, codes[k - 1]) == st.words[k - 1])
  }

  lemma EntryKept(words: seq<Data>, word: Data, i: nat)
    requires NonEmpty(words) && word != [] && i < 255 + |words|
    ensures NonEmpty(words + [word]) && Entry(words + [word], i) == Entry(words, i)
  {
  }

  lemma DecodingGrows(codes: seq<nat>, k: nat, words: seq<Data>, word: Data)
    requires 1 <= k < |codes| && LzwDecoded(codes[..k], words)
    requires word == if codes[k] < 255 + k then Entry(words, codes[k]) else words[k - 1] + [words[k - 1][0]]
    ensures LzwDecoded(codes[..k + 1], words + [word])
  {
    hide Entry;
    var next, more := words + [word], codes[..k + 1];
    assert NonEmpty(next) && |next| == |more|;
    forall j | 1 <= j < |more|
      ensures WordDecoded(more, next, j)
    {
      assert j < k ==> codes[..k][j] == more[j] && WordDecoded(codes[..k], words, j);
      if more[j] < 255 + j {
        EntryKept(words, word, more[j]);
      }
    }
    assert codes[..k][0] == more[0];
  }

  lemma ReplayStaysSound(codes: seq<nat>, k: nat, st: Replayed)
    requires 1 <= k < |codes| && NonEmpty(st.table) && ReplaySound(codes, k, st) && codes[k - 1] < 255 + k
    ensures ReplaySound(codes, k + 1, NextCode(st, codes[k]))
  {
    hide Entry, LzwDecoded;
    SoundWords(codes, k, st);
    var code, next := codes[k], NextCode(st, codes[k]);
    var word := if code < 255 + k then Entry(st.words, code) else st.words[k - 1] + [st.words[k - 1][0]];
    assert st.table[st.prev] == st.words[k - 1];
    assert code < 255 + k ==> st.table[code] == Entry(st.words, code);
    assert next.words == st.words + [word];
    DecodingGrows(codes, k, st.words, word);
    NewestEntryIs(st.words, word);
    forall i | 0 <= i < 256 + k
      ensures next.table[i] == Entry(next.words, i)
    {
      if i < 255 + k {
        EntryKept(st.words, word, i);
        assert next.table[i] == st.table[i];
      }
    }
    if code < 255 + k {
      EntryKept(st.words, word, code);
    }
  }

  lemma SoundWords(codes: seq<nat>, k: nat, st: Replayed)
    requires 1 <= k <= |codes| && ReplaySound(codes, k, st)
    ensures |st.words| == k && NonEmpty(st.words)
  {
  }

  lemma NewestEntryIs(words: seq<Data>, word: Data)
    requires NonEmpty(words) && words != [] && word != []
    ensures NonEmpty(words + [word])
    ensures Entry(words + [word], 255 + |words|) == words[|words| - 1] + [word[0]]
  {
  }

  lemma {:induction false} ReplayIsSound(codes: seq<nat>, k: nat)
    requires Decodable(codes) && 1 <= k <= |codes|
    ensures ReplaySound(codes, k, Replay(codes, k))
    decreases k
  {
    hide ReplaySound, NextCode;
    if k == 1 {
      FirstSound(codes);
    } else {
      ReplayIsSound(codes, k - 1);
      ReplayStaysSound(codes, k - 1, Replay(codes, k - 1));
    }
  }

  lemma FirstSound(codes: seq<nat>)
    requires codes != []
    ensures ReplaySound(codes, 1, FirstCode(codes[0]))
  {
  }

  lemma {:induction false} SameDecoding(codes: seq<nat>, words: seq<Data>, words': seq<Data>, k: nat)
    requires LzwDecoded(codes, words) && LzwDecoded(codes, words') && k <= |codes|
    ensures words[..k] == words'[..k]
  {
    hide Entry;
    if k > 0 {
      SameDecoding(codes, words, words', k - 1);
      assert forall j :: 0 <= j < k - 1 ==> words[j] == words[..k - 1][j] == words'[j];
      if k > 1 {
        SameEntries(words, words', k - 2);
        assert WordDecoded(codes, words, k - 1) && WordDecoded(codes, words', k - 1);
      }
      assert words[k - 1] == words'[k - 1];
    }
  }

  /**
   * Whatever codes arrive, as long as no table lookup leaves the table: the words the decoder
   * appends are the one sequence that meets the reference definition.
   */
  lemma DecodingExact(codes: seq<nat>, words: seq<Data>)
    requires codes != [] && forall k :: 0 <= k < |codes| - 1 ==> codes[k] <= 255 + k
    ensures Decodable(codes)
    ensures words == DecodedWords(codes) <==> LzwDecoded(codes, words)
  {
    hide LzwDecoded;
    ReplayIsSound(codes, |codes|);
    assert codes[..|codes|] == codes;
    assert LzwDecoded(codes, DecodedWords(codes));
    if LzwDecoded(codes, words) {
      DecodedCount(codes, words);
      SameDecoding(codes, words, DecodedWords(codes), |codes|);
      assert words[..|codes|] == words;
    }
  }

  lemma DecodedCount(codes: seq<nat>, words: seq<Data>)
    requires LzwDecoded(codes, words)
    ensures |words| == |codes|
  {
  }

  // ----- Codes from the encoder -----

  /** What reaches the decoder: the low 13 bits of each code. */
  function Masked(codes: seq<nat>): (masked: seq<nat>)
    ensures |masked| == |codes|
    ensures forall k :: 0 <= k < |codes| ==> masked[k] == codes[k] % CODE_LIMIT
  {
    seq(|codes|, k requires 0 <= k < |codes| => codes[k] % CODE_LIMIT)
  }

  lemma MaskedDecodable(words: seq<Data>, codes: seq<nat>)
    requires NonEmpty(words) && |codes| == |words| > 0 && Named(words, codes)
    ensures Decodable(Masked(codes))
  {
  }

  /** The decoder after `k` codes knows the encoder's first `255 + k` entries, as far as 13-bit codes can name them. */
  ghost predicate InStep(words: seq<Data>, low: seq<nat>, k: nat, st: Replayed)
    requires NonEmpty(words) && 1 <= k <= |low| == |words|
  {
    && |st.table| == 255 + k && NonEmpty(st.table)
    && (forall i {:trigger st.table[i]} :: 0 <= i < 255 + k && i < CODE_LIMIT ==> st.table[i] == Entry(words, i))
    && |st.words| == k
    && (forall j :: 0 <= j < k ==> low[j] < 255 + |words| && st.words[j] == Entry(words, low[j]))
    && st.words[k - 1] != [] && st.symbol == st.words[k - 1][0]
    && st.prev == low[k - 1] < |st.table|
  }

  /** The next word and the next entry are the encoder's, the not-yet-recorded entry included. */
  lemma NextWordInStep(words: seq<Data>, codes: seq<nat>, k: nat, st: Replayed)
    requires NonEmpty(words) && 1 <= k < |codes| == |words| && Named(words, codes)
    requires InStep(words, Masked(codes), k, st)
    ensures Masked(codes)[k] <= 255 + k
    ensures NextCode(st, Masked(codes)[k]).words[k] == Entry(words, Masked(codes)[k])
    ensures 255 + k < CODE_LIMIT ==> NextCode(st, Masked(codes)[k]).table[255 + k] == Entry(words, 255 + k)
  {
    hide NextCode, Entry;
    var low := Masked(codes);
    assert codes[k] <= 255 + k && codes[k - 1] <= 254 + k;
    if 255 + k < CODE_LIMIT {
      assert low[k] == codes[k] && low[k - 1] == codes[k - 1];
      assert Entry(words, codes[k]) == words[k] && Entry(words, codes[k - 1]) == words[k - 1];
      assert st.words[k - 1] == Entry(words, low[k - 1]);
      UntruncatedWord(words, codes[k], k, st);
    } else {
      assert st.table[low[k]] == Entry(words, low[k]);
      KnownWord(words, low[k], k, st);
    }
  }

  lemma KnownWord(words: seq<Data>, code: nat, k: nat, st: Replayed)
    requires NonEmpty(words) && NonEmpty(st.table) && st.prev < |st.table| && |st.words| == k
    requires code < |st.table| && code < 255 + |words| && st.table[code] == Entry(words, code)
    ensures NextCode(st, code).words[k] == Entry(words, code)
  {
  }

  /** While every code fits, a known code is looked up; the unknown one is the last word and its first byte. */
  lemma UntruncatedWord(words: seq<Data>, code: nat, k: nat, st: Replayed)
    requires NonEmpty(words) && 1 <= k < |words| && code <= 255 + k && 255 + k < CODE_LIMIT
    requires |st.table| == 255 + k && NonEmpty(st.table) && st.prev < |st.table| && |st.words| == k
    requires forall i {:trigger st.table[i]} :: 0 <= i < 255 + k ==> st.table[i] == Entry(words, i)
    requires Entry(words, code) == words[k] && st.table[st.prev] == words[k - 1] && st.symbol == words[k - 1][0]
    ensures NextCode(st, code).words[k] == words[k]
    ensures NextCode(st, code).table[255 + k] == Entry(words, 255 + k)
  {
    assert Entry(words, 255 + k) == words[k - 1] + [words[k][0]];
    if code == 255 + k {
      assert words[k][0] == words[k - 1][0];
    }
  }

  /** A step appends one non-empty word and one non-empty table entry, and leaves the others. */
  lemma NextCodeAppends(st: Replayed, code: nat)
    requires NonEmpty(st.table) && st.prev < |st.table|
    ensures var next := NextCode(st, code);
            && |next.table| == |st.table| + 1 && NonEmpty(next.table)
            && (forall i {:trigger next.table[i]} :: 0 <= i < |st.table| ==> next.table[i] == st.table[i])
            && |next.words| == |st.words| + 1
            && (forall j {:trigger next.words[j]} :: 0 <= j < |st.words| ==> next.words[j] == st.words[j])
            && next.words[|st.words|] != [] && next.symbol == next.words[|st.words|][0] && next.prev == code
  {
  }

  /** One more code keeps encoder and decoder in step. */
  lemma StaysInStep(words: seq<Data>, codes: seq<nat>, k: nat, st: Replayed)
    requires NonEmpty(words) && 1 <= k < |codes| == |words| && Named(words, codes)
    requires InStep(words, Masked(codes), k, st)
    ensures InStep(words, Masked(codes), k + 1, NextCode(st, Masked(codes)[k]))
  {
    hide NextCode, Entry, Named;
    var low := Masked(codes);
    NextWordInStep(words, codes, k, st);
    NextCodeAppends(st, low[k]);
    var next := NextCode(st, low[k]);
    forall j | 0 <= j < k + 1
      ensures low[j] < 255 + |words| && next.words[j] == Entry(words, low[j])
    {
    }
    forall i | 0 <= i < 256 + k && i < CODE_LIMIT
      ensures next.table[i] == Entry(words, i)
    {
    }
  }

  lemma FirstInStep(words: seq<Data>, codes: seq<nat>)
    requires NonEmpty(words) && |codes| == |words| > 0 && Named(words, codes)
    ensures InStep(words, Masked(codes), 1, FirstCode(Masked(codes)[0]))
  {
    assert codes[0] <= 255;
    assert Entry(words, codes[0]) == [codes[0]];
  }

  /** Lock-step simulation over every chunk, however long. */
  lemma {:induction false} LockStep(s: Data, words: seq<Data>, codes: seq<nat>, k: nat)
    requires LzwParse(s, words, codes) && 1 <= k <= |codes|
    ensures Decodable(Masked(codes)) && InStep(words, Masked(codes), k, Replay(Masked(codes), k))
    decreases k
  {
    hide Concat, Distinct, Named, InStep, FirstCode, NextCode;
    MaskedDecodable(words, codes);
    if k == 1 {
      FirstInStep(words, codes);
    } else {
      LockStep(s, words, codes, k - 1);
      assert Replay(Masked(codes), k) == NextCode(Replay(Masked(codes), k - 1), Masked(codes)[k - 1]);
      StaysInStep(words, codes, k - 1, Replay(Masked(codes), k - 1));
    }
  }

  /** The entry a step adds: the word the previous code named, and the first byte of the new one. */
  lemma StepEntry(words: seq<Data>, low: seq<nat>, k: nat, st: Replayed)
    requires NonEmpty(words) && 1 <= k < |low| == |words| && low[k - 1] < CODE_LIMIT
    requires InStep(words, low, k, st) && InStep(words, low, k + 1, NextCode(st, low[k]))
    ensures low[k - 1] < 255 + |words| && low[k] < 255 + |words|
    ensures NextCode(st, low[k]).table[255 + k] == Entry(words, low[k - 1]) + [Entry(words, low[k])[0]]
  {
    hide Entry;
    assert st.table[st.prev] == Entry(words, st.prev);
    assert NextCode(st, low[k]).words[k] == Entry(words, low[k]);
  }

  /** For every chunk: the decoder's table is the dictionary of the words it has decoded, right or wrong. */
  lemma {:induction false} TableEntry(s: Data, words: seq<Data>, codes: seq<nat>, k: nat, j: nat)
    requires LzwParse(s, words, codes) && 1 <= j < k <= |codes|
    ensures Decodable(Masked(codes)) && Masked(codes)[j - 1] < 255 + |words| && Masked(codes)[j] < 255 + |words|
    ensures Replay(Masked(codes), k).table[255 + j]
            == Entry(words, Masked(codes)[j - 1]) + [Entry(words, Masked(codes)[j])[0]]
    decreases k
  {
    hide Concat, Distinct, Named, FirstCode, NextCode, Entry, InStep;
    LockStep(s, words, codes, k - 1);
    LockStep(s, words, codes, k);
    var low := Masked(codes);
    var st := Replay(low, k - 1);
    if j < k - 1 {
      TableEntry(s, words, codes, k - 1, j);
      NextCodeAppends(st, low[k - 1]);
    } else {
      StepEntry(words, low, j, st);
    }
  }

  /** What code `j` decodes to starts with the first byte of word `j`. */
  ghost predicate StartsRight(words: seq<Data>, codes: seq<nat>, j: nat)
    requires NonEmpty(words) && |codes| == |words| && Named(words, codes) && j < |codes|
  {
    var code := codes[j] % CODE_LIMIT;
    assert code <= codes[j] <= 255 + j;
    Entry(words, code)[0] == words[j][0]
  }

  /** The entry after word `j - 1` is rebuilt if and only if its code fits and the next decoded word starts right. */
  lemma EntryRebuilt(words: seq<Data>, codes: seq<nat>, j: nat)
    requires NonEmpty(words) && |codes| == |words| && Named(words, codes) && Distinct(words) && 1 <= j < |codes|
    ensures codes[j - 1] <= 254 + j && codes[j] <= 255 + j
    ensures Entry(words, codes[j - 1] % CODE_LIMIT) + [Entry(words, codes[j] % CODE_LIMIT)[0]] == Entry(words, 255 + j)
            <==> codes[j - 1] < CODE_LIMIT && StartsRight(words, codes, j)
    ensures codes[j] < CODE_LIMIT ==> StartsRight(words, codes, j)
  {
    hide Distinct, Entry;
    var code, next := codes[j - 1] % CODE_LIMIT, Entry(words, codes[j] % CODE_LIMIT)[0];
    assert Entry(words, codes[j - 1]) == words[j - 1] && Entry(words, codes[j]) == words[j];
    NewestEntry(words, j);
    SameParts(Entry(words, code), next, words[j - 1], words[j][0]);
    if codes[j - 1] >= CODE_LIMIT {
      EntriesDiffer(words, code, codes[j - 1]);
    }
  }

  lemma SameParts(v: Data, x: byte, w: Data, y: byte)
    ensures v + [x] == w + [y] <==> v == w && x == y
  {
    if v + [x] == w + [y] {
      assert (v + [x])[..|v|] == v && (w + [y])[..|w|] == w;
      assert (v + [x])[|v|] == x;
    }
  }

  /** The decoder's table holds the encoder's entries. */
  ghost predicate HoldsEntries(words: seq<Data>, table: seq<Data>)
    requires NonEmpty(words) && |table| < 255 + |words| + 1
  {
    forall i {:trigger table[i]} :: 0 <= i < |table| ==> table[i] == Entry(words, i)
  }

  /** Of the first `k` codes all but the last fit, and what the last decodes to starts with the right byte. */
  ghost predicate FitsBefore(words: seq<Data>, codes: seq<nat>, k: nat)
    requires NonEmpty(words) && |codes| == |words| && Named(words, codes) && 1 <= k <= |codes|
  {
    && (forall j :: 0 <= j < k - 1 ==> codes[j] < CODE_LIMIT)
    && StartsRight(words, codes, k - 1)
  }

  /** Codes that all fit are enough. */
  lemma FittingBefore(words: seq<Data>, codes: seq<nat>, k: nat)
    requires NonEmpty(words) && |codes| == |words| && Named(words, codes) && 1 <= k <= |codes|
    requires forall j :: 0 <= j < k ==> codes[j] < CODE_LIMIT
    ensures FitsBefore(words, codes, k)
  {
    hide Entry;
    assert codes[k - 1] % CODE_LIMIT == codes[k - 1];
    assert Entry(words, codes[k - 1]) == words[k - 1];
  }

  /** When the table's entry after word `j - 1` is the encoder's. */
  lemma EntryExact(s: Data, words: seq<Data>, codes: seq<nat>, k: nat, j: nat)
    requires LzwParse(s, words, codes) && 1 <= j < k <= |codes|
    ensures Decodable(Masked(codes)) && codes[j] <= 255 + j
    ensures Replay(Masked(codes), k).table[255 + j] == Entry(words, 255 + j)
            <==> codes[j - 1] < CODE_LIMIT && StartsRight(words, codes, j)
    ensures codes[j] < CODE_LIMIT ==> StartsRight(words, codes, j)
  {
    hide Concat, Distinct, Replay, Entry, Decodable;
    TableEntry(s, words, codes, k, j);
    EntryRebuilt(words, codes, j);
  }

  lemma TablesExact(s: Data, words: seq<Data>, codes: seq<nat>, k: nat)
    requires LzwParse(s, words, codes) && 1 <= k <= |codes|
    ensures Decodable(Masked(codes))
    ensures HoldsEntries(words, Replay(Masked(codes), k).table) <==> FitsBefore(words, codes, k)
  {
    hide Concat, Distinct, Replay, Entry, Decodable;
    LockStep(s, words, codes, k);
    var table := Replay(Masked(codes), k).table;
    if FitsBefore(words, codes, k) {
      forall i | 0 <= i < 255 + k
        ensures table[i] == Entry(words, i)
      {
        if i >= 256 {
          EntryExact(s, words, codes, k, i - 255);
        }
      }
    }
    if HoldsEntries(words, table) {
      forall j | 0 <= j < k - 1
        ensures codes[j] < CODE_LIMIT
      {
        EntryExact(s, words, codes, k, j + 1);
      }
      if k == 1 {
        FittingBefore(words, codes, 1);
      } else {
        EntryExact(s, words, codes, k, k - 1);
      }
    }
  }

  /**
   * The decoder is exactly one entry behind the encoder: its table is the encoder's but for
   * the newest entry if and only if the codes it was built from were not truncated. A code
   * equal to the table size arrives exactly when the encoder used that newest entry, a word
   * repeating the one before it.
   */
  lemma OneEntryBehind(s: Data, words: seq<Data>, codes: seq<nat>, k: nat)
    requires LzwParse(s, words, codes) && 1 <= k < |codes|
    ensures Decodable(Masked(codes))
    ensures var table := Replay(Masked(codes), k).table;
            && |table| == 255 + k
            && (HoldsEntries(words, table) <==> FitsBefore(words, codes, k))
            && codes[k] <= |table|
            && (codes[k] == |table| <==> words[k] == words[k - 1] + [words[k - 1][0]])
  {
    hide Concat, Distinct, Masked, Decodable, Entry, FitsBefore, HoldsEntries;
    TablesExact(s, words, codes, k);
    NewestEntryUsed(words, codes, k);
  }

  lemma NewestEntry(words: seq<Data>, k: nat)
    requires NonEmpty(words) && 1 <= k < |words|
    ensures Entry(words, 255 + k) == words[k - 1] + [words[k][0]]
  {
  }

  lemma RepeatedWord(a: Data, w: Data)
    requires a != [] && w != []
    ensures w == a + [w[0]] <==> w == a + [a[0]]
  {
    if w == a + [w[0]] || w == a + [a[0]] {
      assert w[0] == a[0];
    }
  }

  /** A code names the newest entry exactly when its word is the word before it and that word's first byte again. */
  lemma NewestEntryUsed(words: seq<Data>, codes: seq<nat>, k: nat)
    requires NonEmpty(words) && |codes| == |words| && Named(words, codes) && Distinct(words) && 1 <= k < |codes|
    ensures codes[k] <= 255 + k
    ensures codes[k] == 255 + k <==> words[k] == words[k - 1] + [words[k - 1][0]]
  {
    hide Distinct, Entry;
    assert Entry(words, codes[k]) == words[k];
    NewestEntry(words, k);
    RepeatedWord(words[k - 1], words[k]);
    if codes[k] < 255 + k {
      EntriesDiffer(words, codes[k], 255 + k);
    }
  }

  /** Every code of the chunk survives the 13-bit field. */
  predicate Fits(s: Data)
    requires s != []
  {
    forall k :: 0 <= k < |Codes(s)| ==> Codes(s)[k] < CODE_LIMIT
  }

  /** Each table gives back what the other was asked for. */
  ghost predicate InverseTables(encoder: map<Data, nat>, decoder: seq<Data>)
  {
    && (forall w :: w in encoder ==> encoder[w] < |decoder| && decoder[encoder[w]] == w)
    && (forall i {:trigger decoder[i]} :: 0 <= i < |decoder| ==> decoder[i] in encoder && encoder[decoder[i]] == i)
  }

  lemma InverseExact(encoder: map<Data, nat>, decoder: seq<Data>, words: seq<Data>)
    requires NonEmpty(words) && Inverts(encoder, words) && |decoder| == 255 + |words|
    ensures InverseTables(encoder, decoder) <==> HoldsEntries(words, decoder)
  {
    hide Entry;
    if InverseTables(encoder, decoder) {
      forall i | 0 <= i < |decoder|
        ensures decoder[i] == Entry(words, i)
      {
        assert encoder[Entry(words, i)] == i;
      }
    }
  }

  /**
   * Encoder and decoder finish with tables inverse to each other if and only if every code
   * but the last fits and what the last decodes to starts with the right byte.
   */
  lemma TablesAgreeAtEnd(s: Data)
    requires s != []
    ensures LzwParse(s, Words(s), Codes(s)) && Decodable(Masked(Codes(s)))
    ensures InverseTables(Scan(s, |s|).table, Replay(Masked(Codes(s)), |Codes(s)|).table)
            <==> FitsBefore(Words(s), Codes(s), |Codes(s)|)
    ensures Fits(s) ==> FitsBefore(Words(s), Codes(s), |Codes(s)|)
  {
    hide Concat, Distinct, Named, Replay, Entry, Masked, Decodable, FitsBefore, InverseTables, HoldsEntries;
    EncoderParses(s);
    ScanSound(s, |s|);
    var words, codes := Words(s), Codes(s);
    TablesExact(s, words, codes, |codes|);
    InverseExact(Scan(s, |s|).table, Replay(Masked(codes), |codes|).table, words);
    if Fits(s) {
      FittingBefore(words, codes, |codes|);
    }
  }

  /** What the decoder writes for the chunk `s`. */
  function Recovered(s: Data): Data
    requires s != []
  {
    EncoderParses(s);
    MaskedDecodable(Words(s), Codes(s));
    Concat(DecodedWords(Masked(Codes(s))))
  }

  /** For every chunk: each decoded word is the encoder's entry named by the truncated code. */
  lemma DecodedWord(s: Data, k: nat)
    requires s != [] && k < |Codes(s)|
    ensures Decodable(Masked(Codes(s))) && |DecodedWords(Masked(Codes(s)))| == |Words(s)| == |Codes(s)|
    ensures NonEmpty(Words(s)) && Codes(s)[k] % CODE_LIMIT < 255 + |Words(s)|
    ensures DecodedWords(Masked(Codes(s)))[k] == Entry(Words(s), Codes(s)[k] % CODE_LIMIT)
  {
    EncoderParses(s);
    LockStep(s, Words(s), Codes(s), |Codes(s)|);
  }

  lemma WordRecovered(s: Data, k: nat)
    requires s != [] && k < |Codes(s)|
    ensures Decodable(Masked(Codes(s))) && |DecodedWords(Masked(Codes(s)))| == |Words(s)| == |Codes(s)|
    ensures DecodedWords(Masked(Codes(s)))[k] == Words(s)[k] <==> Codes(s)[k] < CODE_LIMIT
  {
    hide Concat, Distinct, Codes, Words, DecodedWords, Decodable, Masked;
    DecodedWord(s, k);
    EncoderParses(s);
    var code := Codes(s)[k];
    assert Entry(Words(s), code) == Words(s)[k];
    if code >= CODE_LIMIT {
      EntriesDiffer(Words(s), code % CODE_LIMIT, code);
    }
  }

  /** Word for word, the decoder recovers the encoder's parse if and only if no code was truncated. */
  lemma WordsRecovered(s: Data)
    requires s != []
    ensures Decodable(Masked(Codes(s)))
    ensures DecodedWords(Masked(Codes(s))) == Words(s) <==> Fits(s)
  {
    WordRecovered(s, 0);
    forall k | 0 <= k < |Codes(s)|
      ensures DecodedWords(Masked(Codes(s)))[k] == Words(s)[k] <==> Codes(s)[k] < CODE_LIMIT
    {
      WordRecovered(s, k);
    }
  }

  /** LZW round trip for codes in range. */
  lemma FitsRecovered(s: Data)
    requires s != [] && Fits(s)
    ensures Recovered(s) == s
  {
    WordsRecovered(s);
    EncoderParses(s);
  }

  /** A code past the 13-bit range needs 7937 codes before it and names a word of two bytes or more. */
  lemma ShortChunkFits(s: Data)
    requires 1 <= |s| <= SAFE_LENGTH
    ensures Fits(s)
  {
    var words, codes := Words(s), Codes(s);
    EncoderParses(s);
    forall k | 0 <= k < |codes|
      ensures codes[k] < CODE_LIMIT
    {
      assert Entry(words, codes[k]) == words[k];
      assert |words[k]| == 1 ==> codes[k] < 256;
      ConcatAt(words, k);
      CountBound(words[..k]);
    }
  }

  /** Every chunk of at most 7938 bytes is recovered. */
  lemma ShortChunkRecovered(s: Data)
    requires 1 <= |s| <= SAFE_LENGTH
    ensures Recovered(s) == s
  {
    ShortChunkFits(s);
    FitsRecovered(s);
  }
}
