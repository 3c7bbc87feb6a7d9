/** The training loop of BPE.py (lines 33-44): repeatedly merge the most
    frequent adjacent pair into a new id `256 + i`. */
module Training {
  import opened Wrappers
  import opened Dicts
  import opened PairStats
  import opened MergeStep
  import opened Vocab

  /** The learned merges and the working ids after the last round. */
  datatype Trained = Trained(merges: Merges, ids: seq<Id>)

  /** `max` of an empty stats dict raised `ValueError` in round `round`. */
  datatype TrainError = NoPairs(round: nat)

  /** `max(stats, key=stats.get)` */
  function MostFrequent(st: Stats): Pair
    requires st.keys != [] && Valid(st)
  {
    st.keys[ArgMax(st)]
  }

  /** The result of running rounds `i..n - 1` from working ids `ids` and the
      merges recorded so far. */
  function TrainFrom(ids: seq<Id>, merges: Merges, i: nat, n: nat): Result<Trained, TrainError>
    requires Valid(merges)
    decreases n - i
  {
    if i >= n then Success(Trained(merges, ids))
    else
      var stats := StatsOf(ids);
      if stats.keys == [] then Failure(NoPairs(i))
      else
        var pair := MostFrequent(stats);
        TrainFrom(Merged(ids, pair, 256 + i), Put(merges, pair, 256 + i), i + 1, n)
  }

  /** The training loop (BPE.py:33-44) wrapped as a function of the corpus
      bytes and the number of merges. */
  method Train(tokens: seq<Byte>, numMerges: nat) returns (r: Result<Trained, TrainError>)
    ensures r == TrainFrom(tokens, Empty(), 0, numMerges)
  {
    var ids: seq<Id> := tokens;
    var merges: Merges := Empty();
    for i := 0 to numMerges
      invariant Valid(merges)
      invariant TrainFrom(ids, merges, i, numMerges) == TrainFrom(tokens, Empty(), 0, numMerges)
    {
      var stats := GetStats(ids);
      if stats.keys == [] {
        return Failure(NoPairs(i));
      }
      var pair := MostFrequent(stats);
      var idx := 256 + i;
      ids := Merge(ids, pair, idx);
      merges := Put(merges, pair, idx);
    }
    return Success(Trained(merges, ids));
  }

  /** A pair that does not occur has count zero. */
  lemma CountAbsent(ids: seq<Id>, q: Pair)
    requires !Adjacent(ids, q)
    ensures Count(ids, q) == 0
  {
    AdjacentIffPair(ids, q);
  }

  /** The pair `max` picks occurs and no pair occurs more often. */
  lemma MostFrequentHasMaxCount(ids: seq<Id>)
    requires |ids| >= 2
    ensures StatsOf(ids).keys != []
    ensures Adjacent(ids, MostFrequent(StatsOf(ids)))
    ensures forall q :: Count(ids, q) <= Count(ids, MostFrequent(StatsOf(ids)))
  {
    MostFrequentOccurs(ids);
    var st := StatsOf(ids);
    var k := ArgMax(st);
    KeyCount(ids, k);
    forall q ensures Count(ids, q) <= Count(ids, st.keys[k]) {
      if Adjacent(ids, q) {
        var j := KeyIndex(ids, q);
        assert st.items[st.keys[j]] <= st.items[st.keys[k]];
      } else {
        CountAbsent(ids, q);
      }
    }
  }

  /** Among pairs with the largest count, `max` picks the one that occurs first. */
  lemma MostFrequentIsFirst(ids: seq<Id>)
    requires |ids| >= 2
    ensures StatsOf(ids).keys != []
    ensures Adjacent(ids, MostFrequent(StatsOf(ids)))
    ensures forall q :: Adjacent(ids, q) && Count(ids, q) == Count(ids, MostFrequent(StatsOf(ids))) ==>
      FirstPos(ids, MostFrequent(StatsOf(ids))) <= FirstPos(ids, q)
  {
    MostFrequentOccurs(ids);
    forall q | Adjacent(ids, q) && Count(ids, q) == Count(ids, MostFrequent(StatsOf(ids)))
      ensures FirstPos(ids, MostFrequent(StatsOf(ids))) <= FirstPos(ids, q)
    {
      TieGoesToFirst(ids, q);
    }
  }

  lemma TieGoesToFirst(ids: seq<Id>, q: Pair)
    requires StatsOf(ids).keys != []
    requires Adjacent(ids, q) && Count(ids, q) == Count(ids, MostFrequent(StatsOf(ids)))
    ensures Adjacent(ids, MostFrequent(StatsOf(ids)))
    ensures FirstPos(ids, MostFrequent(StatsOf(ids))) <= FirstPos(ids, q)
  {
    var st := StatsOf(ids);
    var k := ArgMax(st);
    KeyCount(ids, k);
    var j := KeyIndex(ids, q);
    assert st.items[st.keys[j]] == st.items[st.keys[k]];
    assert j >= k;
    if j > k {
      StatsOrderAt(ids, k, j);
    } else {
      KeyAdjacent(ids, k);
    }
  }

  lemma KeyAdjacent(ids: seq<Id>, k: nat)
    requires k < |StatsOf(ids).keys|
    ensures Adjacent(ids, StatsOf(ids).keys[k])
  {
    StatsCounts(ids);
  }

  /** Position among the stats keys of a pair that occurs. */
  lemma KeyIndex(ids: seq<Id>, q: Pair) returns (j: nat)
    requires Adjacent(ids, q)
    ensures j < |StatsOf(ids).keys| && StatsOf(ids).keys[j] == q
    ensures StatsOf(ids).items[q] == Count(ids, q)
  {
    StatsCounts(ids);
    j :| 0 <= j < |StatsOf(ids).keys| && StatsOf(ids).keys[j] == q;
  }

  lemma KeyCount(ids: seq<Id>, k: nat)
    requires k < |StatsOf(ids).keys|
    ensures StatsOf(ids).keys[k] in StatsOf(ids).items
    ensures StatsOf(ids).items[StatsOf(ids).keys[k]] == Count(ids, StatsOf(ids).keys[k])
  {
    StatsCounts(ids);
  }

  lemma StatsOrderAt(ids: seq<Id>, i: nat, j: nat)
    requires i < j < |StatsOf(ids).keys|
    ensures Adjacent(ids, StatsOf(ids).keys[i]) && Adjacent(ids, StatsOf(ids).keys[j])
    ensures FirstPos(ids, StatsOf(ids).keys[i]) < FirstPos(ids, StatsOf(ids).keys[j])
  {
    StatsOrder(ids);
  }

  /** Python's `max` (BPE.py:40) picks a pair that occurs, with the largest
      count, and among pairs with that count the one that occurs first. */
  lemma MostFrequentIsMax(ids: seq<Id>)
    requires |ids| >= 2
    ensures StatsOf(ids).keys != []
    ensures Adjacent(ids, MostFrequent(StatsOf(ids)))
    ensures forall q :: Count(ids, q) <= Count(ids, MostFrequent(StatsOf(ids)))
    ensures forall q :: Adjacent(ids, q) && Count(ids, q) == Count(ids, MostFrequent(StatsOf(ids))) ==>
      FirstPos(ids, MostFrequent(StatsOf(ids))) <= FirstPos(ids, q)
  {
    MostFrequentHasMaxCount(ids);
    MostFrequentIsFirst(ids);
  }

  /** The pair `max` picks occurs in the working ids. */
  lemma MostFrequentOccurs(ids: seq<Id>)
    requires |ids| >= 2
    ensures StatsOf(ids).keys != []
    ensures Adjacent(ids, MostFrequent(StatsOf(ids)))
  {
    assert Adjacent(ids, (ids[0], ids[1]));
    var _ := KeyIndex(ids, (ids[0], ids[1]));
    KeyAdjacent(ids, ArgMax(StatsOf(ids)));
  }

  /** The merges after `i` rounds: the `j`-th has id `256 + j` and merges two
      ids that existed before it. */
  ghost predicate MergesInv(m: Merges, i: nat)
  {
    && Valid(m)
    && |m.keys| == i
    && (forall j :: 0 <= j < i ==> m.items[m.keys[j]] == 256 + j)
    && (forall j :: 0 <= j < i ==> m.keys[j].0 < 256 + j && m.keys[j].1 < 256 + j)
  }

  /** Every id is below `bound`. */
  ghost predicate IdsBelow(ids: seq<Id>, bound: nat)
  {
    forall x :: x in ids ==> x < bound
  }

  /** No recorded pair is left in the working ids. */
  ghost predicate Reduced(ids: seq<Id>, m: Merges)
  {
    forall p :: p in m.items ==> !Adjacent(ids, p)
  }

  /** What holds of the working ids and the merges after `i` rounds. */
  ghost predicate TrainInv(ids: seq<Id>, m: Merges, i: nat)
  {
    MergesInv(m, i) && IdsBelow(ids, 256 + i) && Reduced(ids, m)
  }

  lemma StepMerges(ids: seq<Id>, m: Merges, i: nat, p: Pair)
    requires MergesInv(m, i) && IdsBelow(ids, 256 + i) && Reduced(ids, m) && Adjacent(ids, p)
    ensures p !in m.items
    ensures MergesInv(Put(m, p, 256 + i), i + 1)
  {
    var k :| 0 <= k < |ids| - 1 && (ids[k], ids[k + 1]) == p;
    assert ids[k] in ids && ids[k + 1] in ids;
    var m' := Put(m, p, 256 + i);
    assert m'.keys == m.keys + [p];
    forall j | 0 <= j < i + 1 ensures m'.items[m'.keys[j]] == 256 + j {
      if j < i {
        assert m.keys[j] != p;
      }
    }
  }

  lemma StepIds(ids: seq<Id>, i: nat, p: Pair)
    requires IdsBelow(ids, 256 + i)
    ensures IdsBelow(Merged(ids, p, 256 + i), 256 + i + 1)
  {
    MergedElements(ids, p, 256 + i);
  }

  lemma StepReduced(ids: seq<Id>, m: Merges, i: nat, p: Pair)
    requires MergesInv(m, i) && IdsBelow(ids, 256 + i) && Reduced(ids, m) && Adjacent(ids, p)
    ensures Reduced(Merged(ids, p, 256 + i), Put(m, p, 256 + i))
  {
    var idx := 256 + i;
    var ids' := Merged(ids, p, idx);
    var k :| 0 <= k < |ids| - 1 && (ids[k], ids[k + 1]) == p;
    assert ids[k] in ids && ids[k + 1] in ids;
    MergeRemovesPair(ids, p, idx);
    forall q | q in Put(m, p, idx).items ensures !Adjacent(ids', q) {
      if q != p {
        assert q in m.items;
        assert q in m.keys;
        var j :| 0 <= j < i && m.keys[j] == q;
        assert q.0 != idx && q.1 != idx;
        if Adjacent(ids', q) {
          MergedAdjacency(ids, p, idx, q);
        }
      }
    }
  }

  lemma TrainStep(ids: seq<Id>, m: Merges, i: nat)
    requires TrainInv(ids, m, i) && |ids| >= 2
    ensures StatsOf(ids).keys != []
    ensures Adjacent(ids, MostFrequent(StatsOf(ids)))
    ensures MostFrequent(StatsOf(ids)) !in m.items
    ensures TrainInv(Merged(ids, MostFrequent(StatsOf(ids)), 256 + i),
                     Put(m, MostFrequent(StatsOf(ids)), 256 + i), i + 1)
  {
    MostFrequentOccurs(ids);
    var p := MostFrequent(StatsOf(ids));
    StepMerges(ids, m, i, p);
    StepIds(ids, i, p);
    StepReduced(ids, m, i, p);
  }

  /** `fin` keeps every merge of `m` under the same id. */
  ghost predicate Extends(m: Merges, fin: Merges)
  {
    forall p :: p in m.items ==> p in fin.items && fin.items[p] == m.items[p]
  }

  lemma {:induction false} TrainFromFacts(ids: seq<Id>, m: Merges, i: nat, n: nat)
    requires TrainInv(ids, m, i) && i <= n
    requires TrainFrom(ids, m, i, n).Success?
    ensures TrainInv(TrainFrom(ids, m, i, n).value.ids, TrainFrom(ids, m, i, n).value.merges, n)
    ensures |TrainFrom(ids, m, i, n).value.ids| + (n - i) <= |ids|
    decreases n - i
  {
    if i < n {
      TrainStep(ids, m, i);
      var p := MostFrequent(StatsOf(ids));
      MergeLength(ids, p, 256 + i);
      TrainFromFacts(Merged(ids, p, 256 + i), Put(m, p, 256 + i), i + 1, n);
    }
  }

  lemma {:induction false} TrainFromExtends(ids: seq<Id>, m: Merges, i: nat, n: nat)
    requires TrainInv(ids, m, i) && i <= n
    requires TrainFrom(ids, m, i, n).Success?
    ensures Extends(m, TrainFrom(ids, m, i, n).value.merges)
    decreases n - i
  {
    if i < n {
      TrainStep(ids, m, i);
      var p := MostFrequent(StatsOf(ids));
      var m' := Put(m, p, 256 + i);
      TrainFromExtends(Merged(ids, p, 256 + i), m', i + 1, n);
      assert Extends(m, m');
    }
  }

  /** Training (BPE.py:38-44) records its `i`-th merge under id `256 + i`, so
      ids strictly increase and no pair is recorded twice; every round shortens
      the working ids; and each merge uses only bytes and earlier merges. */
  lemma TrainedIds(tokens: seq<Byte>, n: nat)
    requires TrainFrom(tokens, Empty(), 0, n).Success?
    ensures var m := TrainFrom(tokens, Empty(), 0, n).value.merges;
      && Valid(m)
      && |m.keys| == n
      && (forall i :: 0 <= i < n ==> m.items[m.keys[i]] == 256 + i)
      && Ordered(m) && FreshIds(m)
    ensures |TrainFrom(tokens, Empty(), 0, n).value.ids| + n <= |tokens|
  {
    assert TrainInv(tokens, Empty(), 0);
    TrainFromFacts(tokens, Empty(), 0, n);
    var m := TrainFrom(tokens, Empty(), 0, n).value.merges;
    forall k | 0 <= k < n
      ensures DefinedBefore(m, m.keys[k].0, k) && DefinedBefore(m, m.keys[k].1, k)
    {
      var a, b := m.keys[k].0, m.keys[k].1;
      if a >= 256 {
        assert m.items[m.keys[a - 256]] == a;
      }
      if b >= 256 {
        assert m.items[m.keys[b - 256]] == b;
      }
    }
  }

  lemma {:induction false} TrainFromConserves(v: Vocab, ids: seq<Id>, m: Merges, i: nat, n: nat)
    requires TrainInv(ids, m, i) && i <= n
    requires TrainFrom(ids, m, i, n).Success?
    requires forall x :: x in ids ==> x in v
    requires Consistent(v, TrainFrom(ids, m, i, n).value.merges)
    ensures forall x :: x in TrainFrom(ids, m, i, n).value.ids ==> x in v
    ensures Expand(v, TrainFrom(ids, m, i, n).value.ids) == Expand(v, ids)
    decreases n - i
  {
    if i < n {
      TrainStep(ids, m, i);
      var p := MostFrequent(StatsOf(ids));
      var m' := Put(m, p, 256 + i);
      TrainFromExtends(Merged(ids, p, 256 + i), m', i + 1, n);
      var fin := TrainFrom(ids, m, i, n).value.merges;
      assert TrainFrom(ids, m, i, n) == TrainFrom(Merged(ids, p, 256 + i), m', i + 1, n);
      assert p in fin.items && fin.items[p] == 256 + i;
      assert PairBuilt(v, fin, p);
      MergePreservesBytes(v, ids, p, 256 + i);
      TrainFromConserves(v, Merged(ids, p, 256 + i), m', i + 1, n);
    }
  }

  /** Training only renames: the learned vocab expands the final working ids
      back to the corpus bytes. */
  lemma TrainedDecode(tokens: seq<Byte>, n: nat)
    requires TrainFrom(tokens, Empty(), 0, n).Success?
    ensures var t := TrainFrom(tokens, Empty(), 0, n).value;
      && Valid(t.merges)
      && VocabFrom(t.merges, 0, ByteVocab()).Success?
      && Decode(VocabFrom(t.merges, 0, ByteVocab()).value, t.ids) == Success(tokens)
  {
    var t := TrainFrom(tokens, Empty(), 0, n).value;
    TrainedIds(tokens, n);
    VocabInvariant(t.merges);
    var v := VocabFrom(t.merges, 0, ByteVocab()).value;
    assert forall x :: x in tokens ==> x in v;
    TrainFromConserves(v, tokens, Empty(), 0, n);
    ExpandBytes(v, tokens);
  }

  /** Byte ids expand to themselves. */
  lemma {:induction false} ExpandBytes(v: Vocab, bytes: seq<Byte>)
    requires forall i: Id :: i < 256 ==> i in v && v[i] == [i as Byte]
    ensures Expand(v, bytes) == bytes
  {
    if bytes != [] {
      ExpandBytes(v, bytes[1..]);
    }
  }
}
