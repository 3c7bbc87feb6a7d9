/** `merge` of BPE.py: one left-to-right pass that replaces every
    non-overlapping occurrence of a pair by a new id. */
module MergeStep {
  import opened Dicts
  import opened PairStats

  /** The sequence the scan of `merge` produces: at each position, if the pair
      starts there it is replaced and the scan resumes two ids later. */
  function Merged(ids: seq<Id>, p: Pair, idx: Id): seq<Id>
    decreases |ids|
  {
    if ids == [] then []
    else if |ids| >= 2 && (ids[0], ids[1]) == p then [idx] + Merged(ids[2..], p, idx)
    else [ids[0]] + Merged(ids[1..], p, idx)
  }

  /** Number of replacements the scan makes. */
  function Replacements(ids: seq<Id>, p: Pair): nat
    decreases |ids|
  {
    if ids == [] then 0
    else if |ids| >= 2 && (ids[0], ids[1]) == p then 1 + Replacements(ids[2..], p)
    else Replacements(ids[1..], p)
  }

  /** merge (BPE.py:19-29). */
  method Merge(ids: seq<Id>, pair: Pair, idx: Id) returns (newids: seq<Id>)
    ensures newids == Merged(ids, pair, idx)
  {
    newids := [];
    var i := 0;
    while i < |ids|
      invariant 0 <= i <= |ids|
      invariant newids + Merged(ids[i..], pair, idx) == Merged(ids, pair, idx)
    {
      MergedAt(ids, pair, idx, i);
      if i < |ids| - 1 && ids[i] == pair.0 && ids[i + 1] == pair.1 {
        assert newids + [idx] + Merged(ids[i + 2..], pair, idx) == newids + Merged(ids[i..], pair, idx);
        newids := newids + [idx];
        i := i + 2;
      } else {
        assert newids + [ids[i]] + Merged(ids[i + 1..], pair, idx) == newids + Merged(ids[i..], pair, idx);
        newids := newids + [ids[i]];
        i := i + 1;
      }
    }
  }

  /** One step of the scan, taken at position `i`. */
  lemma MergedAt(ids: seq<Id>, p: Pair, idx: Id, i: nat)
    requires i < |ids|
    ensures i < |ids| - 1 && (ids[i], ids[i + 1]) == p ==>
      Merged(ids[i..], p, idx) == [idx] + Merged(ids[i + 2..], p, idx)
    ensures !(i < |ids| - 1 && (ids[i], ids[i + 1]) == p) ==>
      Merged(ids[i..], p, idx) == [ids[i]] + Merged(ids[i + 1..], p, idx)
  {
    assert ids[i..][1..] == ids[i + 1..];
    if i < |ids| - 1 {
      assert ids[i..][2..] == ids[i + 2..];
    }
  }

  /** The output is as long as the input less one per replacement; there is a
      replacement exactly when the pair occurs, and without one the input is
      returned unchanged. */
  lemma {:induction false} MergeLength(ids: seq<Id>, p: Pair, idx: Id)
    ensures |Merged(ids, p, idx)| == |ids| - Replacements(ids, p)
    ensures Replacements(ids, p) > 0 <==> Adjacent(ids, p)
    ensures !Adjacent(ids, p) ==> Merged(ids, p, idx) == ids
    decreases |ids|
  {
    if ids == [] {
    } else if |ids| >= 2 && (ids[0], ids[1]) == p {
      MergeLength(ids[2..], p, idx);
      assert Adjacent(ids, p);
    } else {
      var tail := ids[1..];
      MergeLength(tail, p, idx);
      if Adjacent(ids, p) {
        var i :| 0 <= i < |ids| - 1 && (ids[i], ids[i + 1]) == p;
        assert (tail[i - 1], tail[i]) == p;
      }
      if Adjacent(tail, p) {
        var i :| 0 <= i < |tail| - 1 && (tail[i], tail[i + 1]) == p;
        assert (ids[i + 1], ids[i + 2]) == p;
      }
      assert ids == [ids[0]] + tail;
    }
  }

  /** Every id of the output is the new id or an id of the input. */
  lemma {:induction false} MergedElements(ids: seq<Id>, p: Pair, idx: Id)
    ensures forall x :: x in Merged(ids, p, idx) ==> x == idx || x in ids
    decreases |ids|
  {
    if ids == [] {
    } else if |ids| >= 2 && (ids[0], ids[1]) == p {
      MergedElements(ids[2..], p, idx);
      assert forall x :: x in ids[2..] ==> x in ids;
    } else {
      MergedElements(ids[1..], p, idx);
      assert forall x :: x in ids[1..] ==> x in ids;
    }
  }

  /** The first id of a non-empty output is the new id or the first input id. */
  lemma MergedHead(ids: seq<Id>, p: Pair, idx: Id)
    requires ids != []
    ensures Merged(ids, p, idx) != []
    ensures Merged(ids, p, idx)[0] == idx || Merged(ids, p, idx)[0] == ids[0]
  {
  }

  /** Two adjacent ids of the output were adjacent in the input, unless one of
      them is the new id. */
  lemma {:induction false} MergedAdjacency(ids: seq<Id>, p: Pair, idx: Id, q: Pair)
    requires Adjacent(Merged(ids, p, idx), q)
    ensures Adjacent(ids, q) || q.0 == idx || q.1 == idx
    decreases |ids|
  {
    var out := Merged(ids, p, idx);
    var k :| 0 <= k < |out| - 1 && (out[k], out[k + 1]) == q;
    if |ids| >= 2 && (ids[0], ids[1]) == p {
      var rest := Merged(ids[2..], p, idx);
      assert out == [idx] + rest;
      if k > 0 {
        assert (rest[k - 1], rest[k]) == q;
        MergedAdjacency(ids[2..], p, idx, q);
        if Adjacent(ids[2..], q) {
          var j :| 0 <= j < |ids[2..]| - 1 && (ids[2..][j], ids[2..][j + 1]) == q;
          assert (ids[j + 2], ids[j + 3]) == q;
        }
      }
    } else {
      var rest := Merged(ids[1..], p, idx);
      assert out == [ids[0]] + rest;
      if k > 0 {
        assert (rest[k - 1], rest[k]) == q;
        MergedAdjacency(ids[1..], p, idx, q);
        if Adjacent(ids[1..], q) {
          var j :| 0 <= j < |ids[1..]| - 1 && (ids[1..][j], ids[1..][j + 1]) == q;
          assert (ids[j + 1], ids[j + 2]) == q;
        }
      } else {
        MergedHead(ids[1..], p, idx);
        assert (ids[0], ids[1]) == q || q.1 == idx;
      }
    }
  }

  /** "Replace all consecutive occurrences": when the new id is neither half of
      the pair, the pair no longer occurs in the output. */
  lemma {:induction false} MergeRemovesPair(ids: seq<Id>, p: Pair, idx: Id)
    requires idx != p.0 && idx != p.1
    ensures !Adjacent(Merged(ids, p, idx), p)
    decreases |ids|
  {
    var out := Merged(ids, p, idx);
    if ids != [] {
      var tail := if |ids| >= 2 && (ids[0], ids[1]) == p then ids[2..] else ids[1..];
      var rest := Merged(tail, p, idx);
      MergeRemovesPair(tail, p, idx);
      assert out == [out[0]] + rest;
      forall k | 0 <= k < |out| - 1 ensures (out[k], out[k + 1]) != p {
        if k == 0 {
          MergedHead(tail, p, idx);
        } else {
          assert (out[k], out[k + 1]) == (rest[k - 1], rest[k]);
        }
      }
    }
  }
}
