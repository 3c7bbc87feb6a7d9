/** `bpe` of GPT4_Tokenizer.py: split a token into single bytes and merge
    adjacent parts by their rank in a flat table of byte strings, lowest rank
    first, optionally only below a rank limit. */
module RankBpe {
  import opened Wrappers
  import opened Dicts

  type Bytes = seq<Byte>

  /** `mergeable_ranks.get(...)` looks byte strings up here. */
  type RankTable = map<Bytes, nat>

  /** `[bytes([b]) for b in token]` */
  function Singletons(token: Bytes): (parts: seq<Bytes>)
    ensures |parts| == |token|
    ensures forall i :: 0 <= i < |token| ==> parts[i] == [token[i]]
  {
    seq(|token|, i requires 0 <= i < |token| => [token[i]])
  }

  /** `b"".join(parts)` */
  function Join(parts: seq<Bytes>): Bytes
  {
    if parts == [] then [] else parts[0] + Join(parts[1..])
  }

  lemma JoinPair(a: Bytes, b: Bytes)
    ensures Join([a, b]) == a + b
  {
    calc {
      Join([a, b]);
      a + Join([a, b][1..]);
      { assert [a, b][1..] == [b]; }
      a + Join([b]);
      { assert [b][1..] == []; }
      a + (b + Join([]));
    }
  }

  /** Number of adjacent pairs of parts. */
  function PairCount(parts: seq<Bytes>): nat
  {
    if parts == [] then 0 else |parts| - 1
  }

  /** `mergeable_ranks.get(parts[j] + parts[j + 1])` */
  function RankAt(r: RankTable, parts: seq<Bytes>, j: nat): Option<nat>
    requires j + 1 < |parts|
  {
    if parts[j] + parts[j + 1] in r then Some(r[parts[j] + parts[j + 1]]) else None
  }

  /** What the inner loop of `bpe` holds after looking at the pairs before
      position `k`: `Some((min_idx, min_rank))` for the leftmost pair whose
      concatenation has the lowest rank among them, or `None` when no
      concatenation looked at is in the table. */
  function Scan(r: RankTable, parts: seq<Bytes>, k: nat): (best: Option<(nat, nat)>)
    requires k <= PairCount(parts)
    ensures best.None? <==> forall j :: 0 <= j < k ==> RankAt(r, parts, j).None?
    ensures best.Some? ==>
      && best.value.0 < k
      && RankAt(r, parts, best.value.0) == Some(best.value.1)
      && (forall j :: 0 <= j < k && RankAt(r, parts, j).Some? ==> best.value.1 <= RankAt(r, parts, j).value)
      && (forall j :: 0 <= j < best.value.0 && RankAt(r, parts, j).Some? ==> best.value.1 < RankAt(r, parts, j).value)
  {
    if k == 0 then None
    else
      var prev := Scan(r, parts, k - 1);
      var rank := RankAt(r, parts, k - 1);
      if rank.Some? && (prev.None? || rank.value < prev.value.1) then Some((k - 1, rank.value)) else prev
  }

  /** `parts[:i] + [parts[i] + parts[i + 1]] + parts[i + 2:]`: one part fewer,
      the same bytes. */
  function MergeAt(parts: seq<Bytes>, i: nat): (r: seq<Bytes>)
    requires i + 1 < |parts|
    ensures |r| == |parts| - 1
    ensures Join(r) == Join(parts)
  {
    var tail := parts[i + 2..];
    var merged := [parts[i] + parts[i + 1]] + tail;
    JoinAppend(parts[..i], parts[i..]);
    JoinAppend(parts[..i], merged);
    assert parts[..i] + parts[i..] == parts;
    assert parts[i..][1..][1..] == tail;
    assert merged[1..] == tail;
    assert Join(parts[i..]) == parts[i] + (parts[i + 1] + Join(tail));
    assert Join(merged) == (parts[i] + parts[i + 1]) + Join(tail);
    assert parts[..i] + merged == parts[..i] + [parts[i] + parts[i + 1]] + tail;
    parts[..i] + merged
  }

  lemma {:induction false} JoinAppend(a: seq<Bytes>, b: seq<Bytes>)
    ensures Join(a + b) == Join(a) + Join(b)
  {
    if a == [] {
      assert a + b == b;
    } else {
      assert (a + b)[0] == a[0] && (a + b)[1..] == a[1..] + b;
      JoinAppend(a[1..], b);
    }
  }

  /** The position the outer loop merges next, or `None` when it stops. */
  function NextMerge(r: RankTable, parts: seq<Bytes>, maxRank: Option<nat>): (next: Option<nat>)
    ensures next.Some? ==> next.value + 1 < |parts|
  {
    var best := Scan(r, parts, PairCount(parts));
    if best.None? || (maxRank.Some? && best.value.1 >= maxRank.value) then None
    else Some(best.value.0)
  }

  /** The parts `bpe` returns, starting from `parts`. */
  function BpeFrom(r: RankTable, parts: seq<Bytes>, maxRank: Option<nat>): seq<Bytes>
    decreases |parts|
  {
    match NextMerge(r, parts, maxRank)
    case None => parts
    case Some(i) => BpeFrom(r, MergeAt(parts, i), maxRank)
  }

  /** bpe (GPT4_Tokenizer.py:14-28). */
  method Bpe(ranks: RankTable, token: Bytes, maxRank: Option<nat>) returns (parts: seq<Bytes>)
    ensures parts == BpeFrom(ranks, Singletons(token), maxRank)
  {
    parts := Singletons(token);
    while true
      invariant BpeFrom(ranks, parts, maxRank) == BpeFrom(ranks, Singletons(token), maxRank)
      decreases |parts|
    {
      var best: Option<(nat, nat)> := None;
      for i := 0 to PairCount(parts)
        invariant best == Scan(ranks, parts, i)
      {
        var rank := RankAt(ranks, parts, i);
        if rank.Some? && (best.None? || rank.value < best.value.1) {
          best := Some((i, rank.value));
        }
      }
      if best.None? || (maxRank.Some? && best.value.1 >= maxRank.value) {
        break;
      }
      var minIdx := best.value.0;
      assert NextMerge(ranks, parts, maxRank) == Some(minIdx);
      ghost var next := MergeAt(parts, minIdx);
      parts := parts[..minIdx] + [parts[minIdx] + parts[minIdx + 1]] + parts[minIdx + 2..];
      assert parts == next;
    }
  }

  /** Every part is a non-empty byte string; every part of two or more bytes
      is in the table, below the limit when there is one. */
  ghost predicate WellSplit(r: RankTable, parts: seq<Bytes>, maxRank: Option<nat>)
  {
    forall p :: p in parts ==>
      && |p| >= 1
      && (|p| >= 2 ==> p in r && (maxRank.Some? ==> r[p] < maxRank.value))
  }

  /** bpe keeps the bytes and never adds parts. */
  lemma {:induction false} BpeJoin(r: RankTable, parts: seq<Bytes>, maxRank: Option<nat>)
    ensures Join(BpeFrom(r, parts, maxRank)) == Join(parts)
    ensures |BpeFrom(r, parts, maxRank)| <= |parts|
    ensures parts != [] ==> BpeFrom(r, parts, maxRank) != []
    decreases |parts|
  {
    match NextMerge(r, parts, maxRank)
    case None =>
    case Some(i) => BpeJoin(r, MergeAt(parts, i), maxRank);
  }

  /** Each merge creates a part whose rank is below the limit. */
  lemma {:induction false} BpeWellSplit(r: RankTable, parts: seq<Bytes>, maxRank: Option<nat>)
    requires WellSplit(r, parts, maxRank)
    ensures WellSplit(r, BpeFrom(r, parts, maxRank), maxRank)
    decreases |parts|
  {
    match NextMerge(r, parts, maxRank)
    case None =>
    case Some(i) =>
      var next := MergeAt(parts, i);
      var merged := parts[i] + parts[i + 1];
      assert RankAt(r, parts, i).Some?;
      forall p | p in next
        ensures |p| >= 1 && (|p| >= 2 ==> p in r && (maxRank.Some? ==> r[p] < maxRank.value))
      {
        var j :| 0 <= j < |next| && next[j] == p;
        if j < i {
          assert p == parts[j];
        } else if j > i {
          assert p == parts[j + 1];
        }
      }
      BpeWellSplit(r, next, maxRank);
  }

  /** bpe stops only when no adjacent concatenation is in the table below the limit. */
  lemma {:induction false} BpeStops(r: RankTable, parts: seq<Bytes>, maxRank: Option<nat>)
    ensures var res := BpeFrom(r, parts, maxRank);
      forall j :: 0 <= j < |res| - 1 && RankAt(r, res, j).Some? ==>
        maxRank.Some? && RankAt(r, res, j).value >= maxRank.value
    decreases |parts|
  {
    match NextMerge(r, parts, maxRank)
    case None =>
    case Some(i) =>
      assert BpeFrom(r, parts, maxRank) == BpeFrom(r, MergeAt(parts, i), maxRank);
      BpeStops(r, MergeAt(parts, i), maxRank);
  }

  lemma {:induction false} JoinSingletons(token: Bytes, r: RankTable, maxRank: Option<nat>)
    ensures Join(Singletons(token)) == token
    ensures WellSplit(r, Singletons(token), maxRank)
  {
    if token != [] {
      assert Singletons(token)[1..] == Singletons(token[1..]);
      JoinSingletons(token[1..], r, maxRank);
    }
  }

  /** bpe (GPT4_Tokenizer.py:14-28) on a token: the parts join back to the
      token, are non-empty, and multi-byte parts are table entries below
      `max_rank`; no adjacent pair could still be merged under the limit; and
      since every round removes exactly one part, a non-empty token ends in
      at least one part after at most `len(token) - 1` rounds. */
  lemma BpeOfToken(r: RankTable, token: Bytes, maxRank: Option<nat>)
    ensures Join(BpeFrom(r, Singletons(token), maxRank)) == token
    ensures WellSplit(r, BpeFrom(r, Singletons(token), maxRank), maxRank)
    ensures 1 <= |BpeFrom(r, Singletons(token), maxRank)| <= |token| || token == []
    ensures var res := BpeFrom(r, Singletons(token), maxRank);
      forall j :: 0 <= j < |res| - 1 && RankAt(r, res, j).Some? ==>
        maxRank.Some? && RankAt(r, res, j).value >= maxRank.value
  {
    JoinSingletons(token, r, maxRank);
    BpeJoin(r, Singletons(token), maxRank);
    BpeWellSplit(r, Singletons(token), maxRank);
    BpeStops(r, Singletons(token), maxRank);
  }
}
