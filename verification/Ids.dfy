/**
 * The ids under which digests are recorded: what their documentation promises, what `encode`
 * passes, and when a repeated digest resolves under each.
 */
module Ids {
  import opened Bytes
  import opened Dedup
  import opened Encoder
  import opened RoundTrip
  import opened Server

  /** No two chunks of the run share a digest unless they are equal. */
  ghost predicate CollisionFree(items: seq<Item>, hash: Data -> Digest)
  {
    forall t, u :: 0 <= u < t < |items| && hash(items[u].chunk) == hash(items[t].chunk) ==>
                     items[u].chunk == items[t].chunk
  }

  /** Calls with the same digest have the same first occurrence. */
  lemma SameEarliest(calls: seq<Call>, u: nat, t: nat)
    requires u <= t < |calls| && calls[u].digest == calls[t].digest
    ensures Earliest(calls, u, calls[u].digest) == Earliest(calls, t, calls[t].digest)
  {
  }

  /** Equal digests mean equal chunks, seen pairwise or against the first occurrence only. */
  lemma EqualChunks(items: seq<Item>, hash: Data -> Digest)
    ensures var calls := CallsOf(items, hash);
            CollisionFree(items, hash)
            <==> forall t :: 0 <= t < |items| ==> items[Earliest(calls, t, calls[t].digest)].chunk == items[t].chunk
  {
    var calls := CallsOf(items, hash);
    if forall t :: 0 <= t < |items| ==> items[Earliest(calls, t, calls[t].digest)].chunk == items[t].chunk {
      forall t, u | 0 <= u < t < |items| && hash(items[u].chunk) == hash(items[t].chunk)
        ensures items[u].chunk == items[t].chunk
      {
        SameEarliest(calls, u, t);
      }
    }
    if CollisionFree(items, hash) {
      forall t | 0 <= t < |items|
        ensures items[Earliest(calls, t, calls[t].digest)].chunk == items[t].chunk
      {
        assert calls[Earliest(calls, t, calls[t].digest)].digest == calls[t].digest;
      }
    }
  }

  // ----- The documented meaning -----

  /** Every new chunk is recorded under the number of new chunks before it, the meaning `CHUNK_idx_t` documents. */
  ghost predicate DocumentedIds(items: seq<Item>, hash: Data -> Digest)
  {
    forall u :: 0 <= u < |items| && IsFirst(CallsOf(items, hash), u) ==>
                  items[u].id == |Firsts(CallsOf(items, hash), u)|
  }

  /** With ids that count unique chunks, every repeated digest resolves exactly when none collide. */
  lemma DocumentedResolves(items: seq<Item>, hash: Data -> Digest)
    requires DocumentedIds(items, hash)
    ensures AllResolve(items, hash) <==> CollisionFree(items, hash)
  {
    var calls := CallsOf(items, hash);
    forall t | 0 <= t < |items|
      ensures Resolves(items, hash, t) <==> items[Earliest(calls, t, calls[t].digest)].chunk == items[t].chunk
    {
      var u := Earliest(calls, t, calls[t].digest);
      AnswerExact(calls, t);
      if u < t {
        assert IsFirst(calls, u);
      }
    }
    EqualChunks(items, hash);
  }

  /** The run with the ids of its chunks replaced by the documented ones. */
  ghost function Numbered(items: seq<Item>, hash: Data -> Digest): (numbered: seq<Item>)
    ensures |numbered| == |items|
    ensures forall t :: 0 <= t < |items| ==> numbered[t].chunk == items[t].chunk
  {
    seq(|items|, t requires 0 <= t < |items| => Item(items[t].chunk, |Firsts(CallsOf(items, hash), t)|))
  }

  /** Which calls are first depends on the digests alone. */
  lemma {:induction false} FirstsOfDigests(calls: seq<Call>, others: seq<Call>, t: nat)
    requires t <= |calls| == |others| && forall j :: 0 <= j < |calls| ==> calls[j].digest == others[j].digest
    ensures Firsts(calls, t) == Firsts(others, t)
    ensures forall j :: 0 <= j < |calls| ==> (IsFirst(calls, j) <==> IsFirst(others, j))
  {
    if t > 0 {
      FirstsOfDigests(calls, others, t - 1);
    }
  }

  /** Every run can be given documented ids: the chunks stay, and with them what is new and what collides. */
  lemma NumberedDocumented(items: seq<Item>, hash: Data -> Digest)
    requires NonEmptyItems(items)
    ensures var numbered := Numbered(items, hash);
            && NonEmptyItems(numbered) && DocumentedIds(numbered, hash)
            && (CollisionFree(numbered, hash) <==> CollisionFree(items, hash))
            && (NewSurvive(numbered, hash) <==> NewSurvive(items, hash))
  {
    hide Firsts, IsFirst;
    var numbered := Numbered(items, hash);
    var calls, others := CallsOf(items, hash), CallsOf(numbered, hash);
    forall t | 0 <= t < |items|
      ensures Firsts(calls, t) == Firsts(others, t) && (IsFirst(calls, t) <==> IsFirst(others, t))
    {
      FirstsOfDigests(calls, others, t);
    }
  }

  // ----- The ids the code records -----

  /** Positions are first occurrences at most as often as there are positions. */
  lemma {:induction false} FirstsAll(calls: seq<Call>, u: nat)
    requires u <= |calls|
    ensures |Firsts(calls, u)| <= u
    ensures |Firsts(calls, u)| == u <==> forall j :: 0 <= j < u ==> IsFirst(calls, j)
  {
    if u > 0 {
      FirstsAll(calls, u - 1);
    }
  }

  /** No chunk that is repeated later makes its first appearance after some other repetition. */
  ghost predicate NewChunksFirst(items: seq<Item>, hash: Data -> Digest)
  {
    var calls := CallsOf(items, hash);
    forall t, j :: 0 <= t < |items| && !IsFirst(calls, t) && 0 <= j < Earliest(calls, t, calls[t].digest) ==>
                     IsFirst(calls, j)
  }

  /** With the index of the chunk as its id, every repeated digest resolves exactly under these two conditions. */
  lemma IndexIdsResolve(items: seq<Item>, hash: Data -> Digest)
    requires forall k :: 0 <= k < |items| ==> items[k].id == k
    ensures AllResolve(items, hash) <==> CollisionFree(items, hash) && NewChunksFirst(items, hash)
  {
    var calls := CallsOf(items, hash);
    forall t | 0 <= t < |items|
      ensures var u := Earliest(calls, t, calls[t].digest);
              Resolves(items, hash, t)
              <==> u == t || (items[u].chunk == items[t].chunk && forall j :: 0 <= j < u ==> IsFirst(calls, j))
    {
      AnswerExact(calls, t);
      FirstsAll(calls, Earliest(calls, t, calls[t].digest));
    }
    EqualChunks(items, hash);
  }

  /** Calls before `u` whose digest is not new. */
  ghost function Repeats(calls: seq<Call>, u: nat): nat
    requires u <= |calls|
  {
    if u == 0 then 0 else Repeats(calls, u - 1) + if IsFirst(calls, u - 1) then 0 else 1
  }

  lemma {:induction false} RepeatsCount(calls: seq<Call>, u: nat)
    requires u <= |calls|
    ensures Repeats(calls, u) + |Firsts(calls, u)| == u
  {
    if u > 0 {
      RepeatsCount(calls, u - 1);
    }
  }

  /** The number of chunks in the packets before the one that holds chunk `u` of the run. */
  ghost function Before(payloads: seq<Data>, u: nat): nat
    requires AllChunkable(payloads)
  {
    if payloads == [] then 0
    else
      var front := payloads[..|payloads| - 1];
      if |RunItems(front)| <= u then |RunItems(front)| else Before(front, u)
  }

  /** The id of a chunk is its position in the run less the chunks of earlier packets. */
  lemma {:induction false} IdInPacket(payloads: seq<Data>, u: nat)
    requires AllChunkable(payloads) && u < |RunItems(payloads)|
    ensures Before(payloads, u) <= u && RunItems(payloads)[u].id == u - Before(payloads, u)
  {
    hide PacketItems;
    var front := payloads[..|payloads| - 1];
    if u < |RunItems(front)| {
      IdInPacket(front, u);
    }
  }

  /** If chunk `t` repeats an earlier digest, as many repetitions precede the first one as chunks of earlier packets. */
  ghost predicate RepeatMatches(payloads: seq<Data>, hash: Data -> Digest, t: nat)
    requires AllChunkable(payloads) && t < |RunItems(payloads)|
  {
    var calls := CallsOf(RunItems(payloads), hash);
    var u := Earliest(calls, t, calls[t].digest);
    !IsFirst(calls, t) ==> Repeats(calls, u) == Before(payloads, u)
  }

  ghost predicate RepeatsMatch(payloads: seq<Data>, hash: Data -> Digest)
    requires AllChunkable(payloads)
  {
    forall t :: 0 <= t < |RunItems(payloads)| ==> RepeatMatches(payloads, hash, t)
  }

  /** An id is the number of new chunks before it exactly under that count. */
  lemma IdIsRank(payloads: seq<Data>, hash: Data -> Digest, u: nat)
    requires AllChunkable(payloads) && u < |RunItems(payloads)|
    ensures var calls := CallsOf(RunItems(payloads), hash);
            RunItems(payloads)[u].id == |Firsts(calls, u)| <==> Repeats(calls, u) == Before(payloads, u)
  {
    hide RunItems, Before, Repeats, Firsts;
    RepeatsCount(CallsOf(RunItems(payloads), hash), u);
    IdInPacket(payloads, u);
  }

  lemma RepeatResolves(payloads: seq<Data>, hash: Data -> Digest, t: nat)
    requires AllChunkable(payloads) && t < |RunItems(payloads)|
    ensures var items := RunItems(payloads);
            var calls := CallsOf(items, hash);
            Resolves(items, hash, t)
            <==> items[Earliest(calls, t, calls[t].digest)].chunk == items[t].chunk && RepeatMatches(payloads, hash, t)
  {
    hide RunItems, Before, Repeats, Firsts, IsFirst, Earliest;
    var calls := CallsOf(RunItems(payloads), hash);
    var u := Earliest(calls, t, calls[t].digest);
    AnswerExact(calls, t);
    IdIsRank(payloads, hash, u);
  }

  /** With the ids of a session, every repeated digest resolves exactly under these two conditions. */
  lemma SessionIdsResolve(payloads: seq<Data>, hash: Data -> Digest)
    requires AllChunkable(payloads)
    ensures AllResolve(RunItems(payloads), hash)
            <==> CollisionFree(RunItems(payloads), hash) && RepeatsMatch(payloads, hash)
  {
    hide RunItems, CollisionFree, Resolves, RepeatMatches, Earliest;
    var items := RunItems(payloads);
    forall t | 0 <= t < |items|
      ensures var calls := CallsOf(items, hash);
              Resolves(items, hash, t)
              <==> items[Earliest(calls, t, calls[t].digest)].chunk == items[t].chunk
                   && RepeatMatches(payloads, hash, t)
    {
      RepeatResolves(payloads, hash, t);
    }
    EqualChunks(items, hash);
  }
}
