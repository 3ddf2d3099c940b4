/** The persistent map from chunk digests to recorded ids. */
module Dedup {
  import opened Bytes

  /** A `HASH`, the string holding a chunk's digest. */
  type Digest = Data

  /** `CHUNK_idx_t` result for a digest not seen before. */
  const ABSENT := -1

  type Umap = map<Digest, nat>

  /** `umap[hash_value]` inserts 0 for a missing key, so ids are stored plus one. */
  function Stored(umap: Umap, digest: Digest): nat
  {
    if digest in umap then umap[digest] else 0
  }

  /** What `deduplication` returns. */
  function Answer(umap: Umap, digest: Digest): int
  {
    if Stored(umap, digest) != 0 then Stored(umap, digest) - 1 else ABSENT
  }

  /** What `deduplication` leaves in the map. */
  function Updated(umap: Umap, id: nat, digest: Digest): Umap
  {
    if Stored(umap, digest) != 0 then umap else umap[digest := id + 1]
  }

  /** The function-local static of `deduplication`. */
  class Deduplicator {
    var umap: Umap

    constructor ()
      ensures umap == map[]
    {
      umap := map[];
    }

    method Deduplication(chunkIndex: nat, digest: Digest) returns (sent: int)
      modifies this
      ensures umap == Updated(old(umap), chunkIndex, digest)
      ensures sent == Answer(old(umap), digest)
    {
      if digest !in umap {
        umap := umap[digest := 0];
      }
      var idx := umap[digest];
      if idx != 0 {
        return idx - 1;
      }
      umap := umap[digest := chunkIndex + 1];
      return ABSENT;
    }
  }

  // ----- Whole runs -----

  datatype Call = Call(id: nat, digest: Digest)

  /** The map after a run of calls. */
  function AfterCalls(calls: seq<Call>): Umap
  {
    if calls == [] then map[]
    else var last := calls[|calls| - 1]; Updated(AfterCalls(calls[..|calls| - 1]), last.id, last.digest)
  }

  /** Call `t` is the first with its digest. */
  ghost predicate IsFirst(calls: seq<Call>, t: nat)
    requires t < |calls|
  {
    forall j :: 0 <= j < t ==> calls[j].digest != calls[t].digest
  }

  /** The first call before `t` with this digest, or `t` when there is none. */
  ghost function Earliest(calls: seq<Call>, t: nat, digest: Digest): (u: nat)
    requires t <= |calls|
    ensures u <= t
    ensures u < t ==> calls[u].digest == digest
    ensures forall j :: 0 <= j < u ==> calls[j].digest != digest
  {
    if t == 0 then 0
    else
      var u := Earliest(calls, t - 1, digest);
      if u < t - 1 || calls[t - 1].digest == digest then u else t
  }

  /** The map holds, for each digest seen, the id given with it the first time, and nothing else. */
  lemma {:induction false} AfterCallsExact(calls: seq<Call>, t: nat, digest: Digest)
    requires t <= |calls|
    ensures var u := Earliest(calls, t, digest);
            Stored(AfterCalls(calls[..t]), digest) == if u < t then calls[u].id + 1 else 0
  {
    if t > 0 {
      AfterCallsExact(calls, t - 1, digest);
      AfterCallsExact(calls, t - 1, calls[t - 1].digest);
      assert calls[..t][..t - 1] == calls[..t - 1];
    }
  }

  /** Over a whole run, a call answers -1 exactly when its digest is new, and the first-recorded id every time after. */
  lemma AnswerExact(calls: seq<Call>, t: nat)
    requires t < |calls|
    ensures var u := Earliest(calls, t, calls[t].digest);
            && (IsFirst(calls, t) <==> u == t)
            && Answer(AfterCalls(calls[..t]), calls[t].digest) == if IsFirst(calls, t) then -1 else calls[u].id
  {
    AfterCallsExact(calls, t, calls[t].digest);
  }

  /** An entry, once made, never changes. */
  lemma EntriesPersist(calls: seq<Call>, t: nat, t': nat, digest: Digest)
    requires t <= t' <= |calls| && Stored(AfterCalls(calls[..t]), digest) != 0
    ensures Stored(AfterCalls(calls[..t']), digest) == Stored(AfterCalls(calls[..t]), digest)
  {
    AfterCallsExact(calls, t, digest);
    AfterCallsExact(calls, t', digest);
  }

  // ----- Which chunks are sent as literals -----

  /** Positions below `t` of the calls whose digest is new, in order. */
  ghost function Firsts(calls: seq<Call>, t: nat): (firsts: seq<nat>)
    requires t <= |calls|
  {
    if t == 0 then [] else Firsts(calls, t - 1) + if IsFirst(calls, t - 1) then [t - 1] else []
  }

  lemma {:induction false} FirstsExact(calls: seq<Call>, t: nat)
    requires t <= |calls|
    ensures forall p :: 0 <= p < |Firsts(calls, t)| ==> Firsts(calls, t)[p] < t && IsFirst(calls, Firsts(calls, t)[p])
    ensures forall p, q :: 0 <= p < q < |Firsts(calls, t)| ==> Firsts(calls, t)[p] < Firsts(calls, t)[q]
  {
    if t > 0 {
      FirstsExact(calls, t - 1);
    }
  }

  /** The position of a first occurrence in the list is the number of first occurrences before it. */
  lemma {:induction false} FirstsRank(calls: seq<Call>, t: nat, u: nat)
    requires u < t <= |calls| && IsFirst(calls, u)
    ensures |Firsts(calls, u)| < |Firsts(calls, t)| && Firsts(calls, t)[|Firsts(calls, u)|] == u
  {
    if u < t - 1 {
      FirstsRank(calls, t - 1, u);
    }
  }
}
