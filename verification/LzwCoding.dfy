/**
 * What the LZW encoder computes: the dictionary it grows, the codes it emits, and
 * the reference definition of an LZW parse that determines those codes.
 */
module LzwCoding {
  import opened Bytes

  ghost predicate NonEmpty(parts: seq<Data>)
  {
    forall k :: 0 <= k < |parts| ==> parts[k] != []
  }

  /**
   * Dictionary entry `i` when the input has been cut into `words`: a single byte,
   * or a word extended by the first byte of the word after it. Only the first byte
   * of the last word matters.
   */
  ghost function Entry(words: seq<Data>, i: nat): (entry: Data)
    requires NonEmpty(words) && i < 255 + |words|
    ensures entry != []
  {
    if i < 256 then [i] else words[i - 256] + [words[i - 255][0]]
  }

  ghost predicate Differ(words: seq<Data>, i: nat, j: nat)
    requires NonEmpty(words) && i < 255 + |words| && j < 255 + |words|
  {
    Entry(words, i) != Entry(words, j)
  }

  /** No string is in the dictionary twice. */
  ghost predicate Distinct(words: seq<Data>)
    requires NonEmpty(words)
  {
    forall i, j :: 0 <= i < j < 255 + |words| ==> Differ(words, i, j)
  }

  /** Word `k` is the dictionary entry named by code `k`, an entry known when it was emitted. */
  ghost predicate Named(words: seq<Data>, codes: seq<nat>)
    requires NonEmpty(words) && |codes| <= |words|
  {
    forall k :: 0 <= k < |codes| ==> codes[k] <= 255 + k && Entry(words, codes[k]) == words[k]
  }

  lemma EntriesDiffer(words: seq<Data>, i: nat, j: nat)
    requires NonEmpty(words) && Distinct(words) && i < j < 255 + |words|
    ensures Entry(words, i) != Entry(words, j)
  {
    assert Differ(words, i, j);
  }

  /** `words` is an LZW parse of `s` and `codes` names its words. */
  ghost predicate LzwParse(s: Data, words: seq<Data>, codes: seq<nat>)
  {
    && |words| == |codes| > 0
    && NonEmpty(words)
    && Concat(words) == s
    && Named(words, codes)
    && Distinct(words)
  }

  // ----- The encoder's loop -----

  /** The variables of the loop: the string table, the pending string, and what was emitted. */
  datatype State = State(table: map<Data, nat>, p: Data, words: seq<Data>, codes: seq<nat>)

  function BaseTable(): (t: map<Data, nat>)
    ensures forall b: byte :: [b] in t && t[[b]] == b
    ensures forall w :: w in t ==> |w| == 1
  {
    map b: byte | 0 <= b < 256 :: [b] := b
  }

  /** `table[w]`, which reads 0 for a missing key. */
  function Lookup(table: map<Data, nat>, w: Data): nat
  {
    if w in table then table[w] else 0
  }

  /** One iteration, given the next byte (or nothing at the end of the chunk). */
  function Step(st: State, c: Data): State
  {
    if st.p + c in st.table then st.(p := st.p + c)
    else State(st.table[st.p + c := 256 + |st.codes|], c, st.words + [st.p], st.codes + [Lookup(st.table, st.p)])
  }

  /** The variables after `k` iterations over the chunk `s`. */
  function Scan(s: Data, k: nat): State
    requires s != [] && k <= |s|
  {
    if k == 0 then State(BaseTable(), s[..1], [], [])
    else Step(Scan(s, k - 1), if k < |s| then [s[k]] else [])
  }

  function Words(s: Data): seq<Data>
    requires s != []
  {
    Scan(s, |s|).words + [Scan(s, |s|).p]
  }

  /** Every code emitted for the chunk, the final flush included. */
  function Codes(s: Data): (codes: seq<nat>)
    requires s != []
    ensures codes != []
  {
    var st := Scan(s, |s|);
    st.codes + [Lookup(st.table, st.p)]
  }

  /** The string table is exactly the dictionary of `words`, read backwards. */
  ghost predicate Inverts(table: map<Data, nat>, words: seq<Data>)
    requires NonEmpty(words)
  {
    && (forall w :: w in table ==> table[w] < 255 + |words| && Entry(words, table[w]) == w)
    && (forall i :: 0 <= i < 255 + |words| ==> Entry(words, i) in table && table[Entry(words, i)] == i)
  }

  /** The loop invariant of the encoder: table, pending string and codes agree. */
  ghost predicate SoundTable(st: State)
  {
    && st.p != [] && NonEmpty(st.words) && |st.codes| == |st.words|
    && st.p in st.table
    && Inverts(st.table, st.words + [st.p])
    && Named(st.words + [st.p], st.codes)
  }

  /** The loop invariant of the encoder after `k` iterations: words and pending string are the bytes read. */
  ghost predicate Sound(s: Data, k: nat, st: State)
    requires s != [] && k <= |s|
  {
    && SoundTable(st)
    && Concat(st.words) + st.p == s[..if k < |s| then k + 1 else |s|]
  }

  /** Lengthening the last word changes no entry. */
  lemma ExtendLast(words: seq<Data>, p: Data, c: Data)
    requires NonEmpty(words) && p != []
    ensures NonEmpty(words + [p]) && NonEmpty(words + [p + c])
    ensures forall i :: 0 <= i < 256 + |words| ==> Entry(words + [p + c], i) == Entry(words + [p], i)
  {
  }

  /** Starting a new word adds one entry: the finished word and the new word's first byte. */
  lemma StartWord(words: seq<Data>, p: Data, b: byte)
    requires NonEmpty(words) && p != []
    ensures NonEmpty(words + [p]) && NonEmpty(words + [p] + [[b]])
    ensures forall i :: 0 <= i < 256 + |words| ==> Entry(words + [p] + [[b]], i) == Entry(words + [p], i)
    ensures Entry(words + [p] + [[b]], 256 + |words|) == p + [b]
  {
  }

  lemma StepExtendsTable(st: State, c: Data)
    requires SoundTable(st) && st.p + c in st.table
    ensures SoundTable(Step(st, c))
  {
    ExtendLast(st.words, st.p, c);
    var before, after := st.words + [st.p], st.words + [st.p + c];
    assert Inverts(st.table, after);
    assert Named(after, st.codes) by {
      assert forall j :: 0 <= j < |st.words| ==> before[j] == st.words[j] == after[j];
    }
  }

  lemma StepExtends(s: Data, k: nat, st: State, c: Data)
    requires s != [] && k < |s| && Sound(s, k, st) && st.p + c in st.table
    requires c == if k + 1 < |s| then [s[k + 1]] else []
    ensures Sound(s, k + 1, Step(st, c))
  {
    hide SoundTable, Concat;
    StepExtendsTable(st, c);
    assert s[..k + 1] + c == s[..if k + 1 < |s| then k + 2 else |s|];
    assert Concat(st.words) + (st.p + c) == Concat(st.words) + st.p + c;
  }

  /** Recording the new entry keeps the table the exact inverse of the dictionary. */
  lemma InsertInverts(table: map<Data, nat>, words: seq<Data>, p: Data, b: byte)
    requires NonEmpty(words) && p != [] && NonEmpty(words + [p]) && NonEmpty(words + [p] + [[b]])
    requires Inverts(table, words + [p]) && p + [b] !in table
    ensures Inverts(table[p + [b] := 256 + |words|], words + [p] + [[b]])
  {
    StartWord(words, p, b);
    var before, after := words + [p], words + [p] + [[b]];
    var next := table[p + [b] := 256 + |words|];
    forall i | 0 <= i < 255 + |after|
      ensures Entry(after, i) in next && next[Entry(after, i)] == i
    {
      if i < 255 + |before| {
        assert Entry(before, i) in table;
      }
    }
    forall w | w in next
      ensures next[w] < 255 + |after| && Entry(after, next[w]) == w
    {
      if w != p + [b] {
        assert w in table && Entry(before, table[w]) == w;
      }
    }
  }

  lemma StepNames(words: seq<Data>, codes: seq<nat>, table: map<Data, nat>, p: Data, b: byte)
    requires NonEmpty(words) && p != [] && |codes| == |words| && p in table
    requires NonEmpty(words + [p]) && NonEmpty(words + [p] + [[b]])
    requires Inverts(table, words + [p]) && Named(words + [p], codes)
    ensures Named(words + [p] + [[b]], codes + [table[p]])
  {
    StartWord(words, p, b);
    var before, after, emitted := words + [p], words + [p] + [[b]], codes + [table[p]];
    forall j | 0 <= j < |emitted|
      ensures emitted[j] <= 255 + j && Entry(after, emitted[j]) == after[j]
    {
      if j < |codes| {
        assert codes[j] <= 255 + j && Entry(before, codes[j]) == before[j];
      } else {
        assert Entry(before, table[p]) == p;
      }
    }
  }

  lemma StepEmitsTable(st: State, b: byte)
    requires SoundTable(st) && st.p + [b] !in st.table
    ensures SoundTable(Step(st, [b]))
  {
    var next := Step(st, [b]);
    StartWord(st.words, st.p, b);
    InsertInverts(st.table, st.words, st.p, b);
    StepNames(st.words, st.codes, st.table, st.p, b);
    assert next.words + [next.p] == st.words + [st.p] + [[b]];
    assert Entry(next.words + [next.p], b) == [b];
  }

  lemma StepEmits(s: Data, k: nat, st: State, b: byte)
    requires s != [] && k < |s| && Sound(s, k, st) && st.p + [b] !in st.table
    requires k + 1 < |s| && b == s[k + 1]
    ensures Sound(s, k + 1, Step(st, [b]))
  {
    hide SoundTable, Concat;
    StepEmitsTable(st, b);
    ConcatAppend(st.words, st.p);
    assert s[..k + 1] + [b] == s[..k + 2];
  }

  lemma StepSound(s: Data, k: nat, st: State, c: Data)
    requires s != [] && k < |s| && Sound(s, k, st)
    requires c == if k + 1 < |s| then [s[k + 1]] else []
    ensures Sound(s, k + 1, Step(st, c))
  {
    assert c == [] ==> st.p + c == st.p;
    if st.p + c in st.table {
      StepExtends(s, k, st, c);
    } else if c != [] {
      StepEmits(s, k, st, s[k + 1]);
    }
  }

  /** The encoder's loop keeps its invariant over the whole chunk. */
  lemma {:induction false} ScanSound(s: Data, k: nat)
    requires s != [] && k <= |s|
    ensures Sound(s, k, Scan(s, k))
  {
    if k == 0 {
      InitialSound(s);
    } else {
      var st, c := Scan(s, k - 1), if k < |s| then [s[k]] else [];
      ScanSound(s, k - 1);
      assert Scan(s, k) == Step(st, c);
      StepSound(s, k - 1, st, c);
    }
  }

  lemma InitialSound(s: Data)
    requires s != []
    ensures Sound(s, 0, Scan(s, 0))
  {
    var st := Scan(s, 0);
    assert st.p == [s[0]] && [] + [st.p] == [st.p];
    forall i | 0 <= i < 256
      ensures Entry([st.p], i) in st.table && st.table[Entry([st.p], i)] == i
    {
      var b: byte := i;
      assert [b] in st.table;
    }
    forall w | w in st.table
      ensures st.table[w] < 256 && Entry([st.p], st.table[w]) == w
    {
      var b := w[0];
      assert w == [b];
    }
  }

  lemma InvertsDistinct(table: map<Data, nat>, words: seq<Data>)
    requires NonEmpty(words) && Inverts(table, words)
    ensures Distinct(words)
  {
  }

  /** The encoder produces an LZW parse of the chunk. */
  lemma EncoderParses(s: Data)
    requires s != []
    ensures LzwParse(s, Words(s), Codes(s))
  {
    ScanSound(s, |s|);
    var st := Scan(s, |s|);
    ConcatAppend(st.words, st.p);
    InvertsDistinct(st.table, Words(s));
    assert s[..|s|] == s;
  }

  // ----- What an LZW parse is -----

  /** The dictionary is closed under non-empty prefixes, each prefix being an older entry. */
  lemma {:induction false} PrefixEntry(words: seq<Data>, codes: seq<nat>, i: nat, n: nat) returns (j: nat)
    requires NonEmpty(words) && |codes| == |words| && Named(words, codes)
    requires i < 255 + |words| && 1 <= n <= |Entry(words, i)|
    ensures j <= i && Entry(words, j) == Entry(words, i)[..n]
    decreases i
  {
    if n == |Entry(words, i)| {
      j := i;
      assert Entry(words, i)[..n] == Entry(words, i);
    } else {
      var w := words[i - 256];
      assert Entry(words, codes[i - 256]) == w;
      j := PrefixEntry(words, codes, codes[i - 256], n);
      assert Entry(words, i)[..n] == w[..n];
    }
  }

  /** The input that remains when word `k` is chosen: the word, then the first byte of the next one. */
  ghost predicate Remains(words: seq<Data>, k: nat, rest: Data)
    requires NonEmpty(words) && k < |words|
  {
    && words[k] <= rest
    && (k + 1 == |words| ==> rest == words[k])
    && (k + 1 < |words| ==> words[k] + [words[k + 1][0]] <= rest)
  }

  lemma RemainsAt(words: seq<Data>, k: nat)
    requires NonEmpty(words) && k < |words|
    ensures Remains(words, k, Concat(words[k..]))
    ensures Concat(words[k + 1..]) == Concat(words[k..])[|words[k]|..]
  {
    ConcatAt(words, k);
    if k + 1 < |words| {
      ConcatAt(words, k + 1);
    } else {
      assert words[k + 1..] == [];
    }
  }

  /** A longer match would start with the entry made from word `k` itself. */
  lemma LongerMatch(words: seq<Data>, k: nat, i: nat, rest: Data)
    requires NonEmpty(words) && k < |words| && i < 256 + k
    requires Remains(words, k, rest) && Entry(words, i) <= rest && |Entry(words, i)| > |words[k]|
    ensures k + 1 < |words|
    ensures Entry(words, 256 + k) == Entry(words, i)[..|words[k]| + 1]
  {
    assert Entry(words, 256 + k) == rest[..|words[k]| + 1];
  }

  /** Greed: word `k` is the longest entry known at its turn that starts the remaining input. */
  lemma LongestMatch(words: seq<Data>, codes: seq<nat>, k: nat, i: nat, rest: Data)
    requires NonEmpty(words) && |codes| == |words| && Named(words, codes) && Distinct(words)
    requires k < |words| && i < 256 + k
    requires Remains(words, k, rest) && Entry(words, i) <= rest
    ensures |Entry(words, i)| <= |words[k]|
  {
    hide Named, Distinct, Remains;
    var n := |words[k]|;
    if |Entry(words, i)| > n {
      LongerMatch(words, k, i, rest);
      var j := PrefixEntry(words, codes, i, n + 1);
      EntriesDiffer(words, j, 256 + k);
      assert false;
    }
  }

  /** Two parses that agree up to word `k` agree on word `k`. */
  lemma NextWordUnique(words: seq<Data>, codes: seq<nat>, words': seq<Data>, codes': seq<nat>, k: nat, rest: Data)
    requires NonEmpty(words) && |codes| == |words| && Named(words, codes) && Distinct(words)
    requires NonEmpty(words') && |codes'| == |words'| && Named(words', codes') && Distinct(words')
    requires k < |words| && k < |words'|
    requires forall j :: 0 <= j < k ==> words[j] == words'[j]
    requires Remains(words, k, rest) && Remains(words', k, rest)
    ensures words[k] == words'[k]
  {
    assert words[k][0] == rest[0] == words'[k][0];
    SameEntries(words, words', k);
    assert Entry(words', codes[k]) == words[k];
    LongestMatch(words', codes', k, codes[k], rest);
    assert Entry(words, codes'[k]) == words'[k];
    LongestMatch(words, codes, k, codes'[k], rest);
    assert words[k] == rest[..|words[k]|] == words'[k];
  }

  /** Words equal before `k`, and equal first bytes at `k`, give the same first `256 + k` entries. */
  lemma SameEntries(words: seq<Data>, words': seq<Data>, k: nat)
    requires NonEmpty(words) && NonEmpty(words') && k < |words| && k < |words'|
    requires forall j :: 0 <= j < k ==> words[j] == words'[j]
    requires words[k][0] == words'[k][0]
    ensures forall i :: 0 <= i < 256 + k ==> Entry(words, i) == Entry(words', i)
  {
  }

  lemma ParseUniqueStep(s: Data, words: seq<Data>, codes: seq<nat>, words': seq<Data>, codes': seq<nat>, k: nat)
    requires LzwParse(s, words, codes) && LzwParse(s, words', codes')
    requires k < |words| && k < |words'|
    requires forall j :: 0 <= j < k ==> words[j] == words'[j]
    requires Concat(words[k..]) == Concat(words'[k..])
    ensures words[k] == words'[k]
    ensures Concat(words[k + 1..]) == Concat(words'[k + 1..])
  {
    RemainsAt(words, k);
    RemainsAt(words', k);
    NextWordUnique(words, codes, words', codes', k, Concat(words[k..]));
  }

  /** An LZW parse is determined by the input, word by word. */
  lemma {:induction false} ParseUniquePrefix(s: Data, words: seq<Data>, codes: seq<nat>,
                                             words': seq<Data>, codes': seq<nat>, k: nat)
    requires LzwParse(s, words, codes) && LzwParse(s, words', codes')
    requires k <= |words| && k <= |words'|
    ensures forall j :: 0 <= j < k ==> words[j] == words'[j]
    ensures Concat(words[k..]) == Concat(words'[k..])
  {
    hide Named, Distinct, Concat;
    if k == 0 {
      assert words[0..] == words && words'[0..] == words';
    } else {
      ParseUniquePrefix(s, words, codes, words', codes', k - 1);
      ParseUniqueStep(s, words, codes, words', codes', k - 1);
    }
  }

  lemma ConcatEmpty(parts: seq<Data>)
    requires NonEmpty(parts) && Concat(parts) == []
    ensures parts == []
  {
  }

  /** There is one LZW parse of each chunk, so `Words` and `Codes` are exactly that parse. */
  lemma ParseUnique(s: Data, words: seq<Data>, codes: seq<nat>)
    requires s != []
    ensures LzwParse(s, words, codes) <==> words == Words(s) && codes == Codes(s)
  {
    EncoderParses(s);
    if LzwParse(s, words, codes) {
      var words', codes' := Words(s), Codes(s);
      var k := if |words| <= |words'| then |words| else |words'|;
      ParseUniquePrefix(s, words, codes, words', codes', k);
      ConcatEmpty(words[k..]);
      ConcatEmpty(words'[k..]);
      assert words == words[..k] && words' == words'[..k];
      forall j | 0 <= j < |codes|
        ensures codes[j] == codes'[j]
      {
        assert Entry(words, codes[j]) == words[j] == Entry(words, codes'[j]);
        if codes[j] < codes'[j] {
          EntriesDiffer(words, codes[j], codes'[j]);
        } else if codes'[j] < codes[j] {
          EntriesDiffer(words, codes'[j], codes[j]);
        }
      }
    }
  }

  /** A chunk is emitted in at most one code per byte. */
  lemma CodeCountBound(s: Data)
    requires s != []
    ensures 1 <= |Codes(s)| <= |s|
  {
    EncoderParses(s);
    CountBound(Words(s));
  }

  /** Part way through a chunk, at least as many bytes have been read as codes emitted. */
  lemma EmittedBound(s: Data, k: nat)
    requires s != [] && k <= |s|
    ensures |Scan(s, k).codes| <= k
    ensures |Scan(s, k).codes| < |s|
  {
    ScanSound(s, k);
    CountBound(Scan(s, k).words);
  }
}
