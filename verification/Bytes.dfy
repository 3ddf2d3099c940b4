/** Bytes and byte strings, shared by every component. */
module Bytes {

  /** An `unsigned char`. */
  type byte = x: int | 0 <= x < 256

  type Data = seq<byte>

  /** The chunk of `s` from `chunkStart` to `chunkEnd`, both included. */
  function Chunk(s: Data, chunkStart: int, chunkEnd: int): Data
    requires 0 <= chunkStart <= chunkEnd < |s|
  {
    s[chunkStart..chunkEnd + 1]
  }

  /** All bytes are `b`. */
  ghost predicate Uniform(s: Data, b: byte)
  {
    forall i :: 0 <= i < |s| ==> s[i] == b
  }

  /** The parts laid end to end. */
  function Concat(parts: seq<Data>): Data
  {
    if parts == [] then [] else Concat(parts[..|parts| - 1]) + parts[|parts| - 1]
  }

  lemma ConcatAppend(parts: seq<Data>, last: Data)
    ensures Concat(parts + [last]) == Concat(parts) + last
  {
    assert (parts + [last])[..|parts|] == parts;
  }

  lemma {:induction false} ConcatSplit(left: seq<Data>, right: seq<Data>)
    ensures Concat(left + right) == Concat(left) + Concat(right)
  {
    if right == [] {
      assert left + right == left;
    } else {
      var front := right[..|right| - 1];
      ConcatSplit(left, front);
      assert (left + right)[..|left + right| - 1] == left + front;
    }
  }

  lemma ConcatOne(part: Data)
    ensures Concat([part]) == part
  {
    assert Concat([part][..0]) == [];
  }

  lemma SplitAt(parts: seq<Data>, k: nat)
    requires k < |parts|
    ensures parts == parts[..k] + parts[k..]
    ensures parts[k..] == [parts[k]] + parts[k + 1..]
  {
  }

  /** The parts before `k`, then part `k`, then the rest. */
  lemma ConcatAt(parts: seq<Data>, k: nat)
    requires k < |parts|
    ensures Concat(parts) == Concat(parts[..k]) + Concat(parts[k..])
    ensures Concat(parts[k..]) == parts[k] + Concat(parts[k + 1..])
  {
    ConcatOne(parts[k]);
    hide Concat;
    SplitAt(parts, k);
    ConcatSplit(parts[..k], parts[k..]);
    ConcatSplit([parts[k]], parts[k + 1..]);
  }

  /** Non-empty parts are at most as many as the bytes they cover. */
  lemma {:induction false} CountBound(parts: seq<Data>)
    requires forall k :: 0 <= k < |parts| ==> parts[k] != []
    ensures |parts| <= |Concat(parts)|
  {
    if parts != [] {
      CountBound(parts[..|parts| - 1]);
    }
  }
}
