/** `recover_merges` of GPT4_Tokenizer.py: rebuild the pairwise merge table
    that a flat byte-string -> rank table implies. */
module MergeRecovery {
  import opened Wrappers
  import opened Dicts
  import opened PairStats
  import opened RankBpe

  /** `mergeable_ranks`, with the provider's iteration order. */
  type Ranks = Dict<Bytes, nat>

  /** Recovered merges: `merges[(rank(part0), rank(part1))] = rank`. */
  type RankMerges = Dict<Pair, nat>

  datatype RecoverError =
    | NotTwoParts(token: Bytes)  // `assert len(pair) == 2` failed
    | MissingRank(part: Bytes)   // `mergeable_ranks[pair[k]]` raised KeyError

  /** The two parts the rank-limited `bpe` leaves of `token`. */
  function Halves(r: RankTable, token: Bytes): seq<Bytes>
    requires token in r
  {
    BpeFrom(r, Singletons(token), Some(r[token]))
  }

  /** Under the token's own rank, bpe leaves exactly two parts, both in the
      table: what `recover_merges` needs to record the token. */
  predicate GoodSplit(r: RankTable, token: Bytes)
  {
    && token in r
    && var parts := Halves(r, token);
       |parts| == 2 && parts[0] in r && parts[1] in r
  }

  /** The entry `(rank(part0), rank(part1))` recorded for the token. */
  function SplitPair(r: RankTable, token: Bytes): Pair
    requires GoodSplit(r, token)
  {
    var parts := Halves(r, token);
    (r[parts[0]], r[parts[1]])
  }

  /** The merges after the loop has processed tokens `k..`. */
  function RecoverFrom(ranks: Ranks, k: nat, merges: RankMerges): (r: Result<RankMerges, RecoverError>)
    requires Valid(ranks) && Valid(merges) && k <= |ranks.keys|
    ensures r.Success? ==> Valid(r.value)
    decreases |ranks.keys| - k
  {
    if k == |ranks.keys| then Success(merges)
    else
      var token := ranks.keys[k];
      var rank := ranks.items[token];
      if |token| == 1 then RecoverFrom(ranks, k + 1, merges)
      else
        var pair := Halves(ranks.items, token);
        if |pair| != 2 then Failure(NotTwoParts(token))
        else if pair[0] !in ranks.items then Failure(MissingRank(pair[0]))
        else if pair[1] !in ranks.items then Failure(MissingRank(pair[1]))
        else RecoverFrom(ranks, k + 1, Put(merges, (ranks.items[pair[0]], ranks.items[pair[1]]), rank))
  }

  /** recover_merges (GPT4_Tokenizer.py:30-40). */
  method RecoverMerges(mergeableRanks: Ranks) returns (r: Result<RankMerges, RecoverError>)
    requires Valid(mergeableRanks)
    ensures r == RecoverFrom(mergeableRanks, 0, Empty())
  {
    var merges: RankMerges := Empty();
    var items := Items(mergeableRanks);
    for k := 0 to |items|
      invariant Valid(merges)
      invariant RecoverFrom(mergeableRanks, k, merges) == RecoverFrom(mergeableRanks, 0, Empty())
    {
      var (token, rank) := items[k];
      if |token| == 1 {
        continue;
      }
      var pair := Bpe(mergeableRanks.items, token, Some(rank));
      if |pair| != 2 {
        return Failure(NotTwoParts(token));
      }
      if pair[0] !in mergeableRanks.items {
        return Failure(MissingRank(pair[0]));
      }
      if pair[1] !in mergeableRanks.items {
        return Failure(MissingRank(pair[1]));
      }
      var ix0 := mergeableRanks.items[pair[0]];
      var ix1 := mergeableRanks.items[pair[1]];
      merges := Put(merges, (ix0, ix1), rank);
    }
    return Success(merges);
  }

  /** A token that splits well halves into two non-empty parts, the
      multi-byte ones ranked below the token itself. */
  lemma SplitMeaning(r: RankTable, token: Bytes)
    requires token in r && GoodSplit(r, token)
    ensures var parts := Halves(r, token);
      && parts[0] + parts[1] == token
      && |parts[0]| >= 1 && |parts[1]| >= 1
      && (|parts[0]| >= 2 ==> r[parts[0]] < r[token])
      && (|parts[1]| >= 2 ==> r[parts[1]] < r[token])
  {
    var parts := Halves(r, token);
    JoinSingletons(token, r, Some(r[token]));
    BpeJoin(r, Singletons(token), Some(r[token]));
    BpeWellSplit(r, Singletons(token), Some(r[token]));
    assert parts == [parts[0], parts[1]];
    JoinPair(parts[0], parts[1]);
    assert parts[0] in parts && parts[1] in parts;
  }

  /** The invariant of the loop after `k` tokens: every recorded entry comes
      from a token already processed, and every multi-byte token processed
      has its pair recorded. */
  ghost predicate RecoveredUpTo(ranks: Ranks, k: nat, m: RankMerges)
    requires Valid(ranks) && k <= |ranks.keys|
  {
    && Valid(m)
    && (forall p :: p in m.items ==> Justified(ranks, k, p, m.items[p]))
    && (forall j :: 0 <= j < k ==> Covered(ranks.items, ranks.keys[j], m))
  }

  /** A multi-byte token splits well and its pair is recorded. */
  ghost predicate Covered(r: RankTable, t: Bytes, m: RankMerges)
  {
    |t| != 1 ==> GoodSplit(r, t) && SplitPair(r, t) in m.items
  }

  /** Some token among the first `k`, of the given rank, splits into `p`. */
  ghost predicate Justified(ranks: Ranks, k: nat, p: Pair, rank: nat)
    requires Valid(ranks) && k <= |ranks.keys|
  {
    exists j :: 0 <= j < k && Records(ranks, j, p, rank)
  }

  /** Token `j` is recorded as `p -> rank`. */
  ghost predicate Records(ranks: Ranks, j: nat, p: Pair, rank: nat)
    requires Valid(ranks) && j < |ranks.keys|
  {
    var t := ranks.keys[j];
    |t| != 1 && ranks.items[t] == rank && GoodSplit(ranks.items, t) && SplitPair(ranks.items, t) == p
  }

  lemma RecoverStep(ranks: Ranks, k: nat, m: RankMerges)
    requires Valid(ranks) && k < |ranks.keys| && RecoveredUpTo(ranks, k, m)
    requires |ranks.keys[k]| != 1 && GoodSplit(ranks.items, ranks.keys[k])
    ensures RecoveredUpTo(ranks, k + 1,
      Put(m, SplitPair(ranks.items, ranks.keys[k]), ranks.items[ranks.keys[k]]))
  {
    var t := ranks.keys[k];
    var p := SplitPair(ranks.items, t);
    var m' := Put(m, p, ranks.items[t]);
    assert Records(ranks, k, p, ranks.items[t]);
    assert Valid(m');
    forall q | q in m'.items ensures Justified(ranks, k + 1, q, m'.items[q]) {
      if q == p {
        assert Records(ranks, k, q, m'.items[q]);
      } else {
        assert Justified(ranks, k, q, m.items[q]);
        var j :| 0 <= j < k && Records(ranks, j, q, m.items[q]);
        assert Records(ranks, j, q, m'.items[q]);
      }
    }
    forall j | 0 <= j < k + 1 ensures Covered(ranks.items, ranks.keys[j], m') {
      if j < k {
        CoveredGrows(ranks.items, ranks.keys[j], m, m');
      } else {
        assert ranks.keys[j] == t;
      }
    }
  }

  lemma CoveredGrows(r: RankTable, t: Bytes, m: RankMerges, m': RankMerges)
    requires Covered(r, t, m) && m.items.Keys <= m'.items.Keys
    ensures Covered(r, t, m')
  {
  }

  lemma RecoverSkip(ranks: Ranks, k: nat, m: RankMerges)
    requires Valid(ranks) && k < |ranks.keys| && RecoveredUpTo(ranks, k, m)
    requires |ranks.keys[k]| == 1
    ensures RecoveredUpTo(ranks, k + 1, m)
  {
    forall q | q in m.items ensures Justified(ranks, k + 1, q, m.items[q]) {
      var j :| 0 <= j < k && Records(ranks, j, q, m.items[q]);
    }
  }

  /** Every token from position `k` on whose length is not 1 splits well. */
  ghost predicate AllSplitFrom(ranks: Ranks, k: nat)
    requires Valid(ranks)
  {
    forall j :: k <= j < |ranks.keys| && |ranks.keys[j]| != 1 ==> GoodSplit(ranks.items, ranks.keys[j])
  }

  /** The loop runs to the end exactly when every remaining multi-byte token
      splits well. */
  lemma {:induction false} RecoverSucceeds(ranks: Ranks, k: nat, m: RankMerges)
    requires Valid(ranks) && k <= |ranks.keys| && Valid(m)
    ensures RecoverFrom(ranks, k, m).Success? <==> AllSplitFrom(ranks, k)
    decreases |ranks.keys| - k
  {
    if k < |ranks.keys| {
      var t := ranks.keys[k];
      if |t| == 1 {
        RecoverSucceeds(ranks, k + 1, m);
        assert RecoverFrom(ranks, k, m) == RecoverFrom(ranks, k + 1, m);
      } else if GoodSplit(ranks.items, t) {
        var m' := Put(m, SplitPair(ranks.items, t), ranks.items[t]);
        RecoverSucceeds(ranks, k + 1, m');
        assert RecoverFrom(ranks, k, m) == RecoverFrom(ranks, k + 1, m');
      } else {
        assert RecoverFrom(ranks, k, m).Failure?;
        assert !AllSplitFrom(ranks, k) by {
          assert k <= k < |ranks.keys| && |ranks.keys[k]| != 1 && !GoodSplit(ranks.items, ranks.keys[k]);
        }
      }
    }
  }

  /** A run that reaches the end keeps the loop invariant. */
  lemma {:induction false} RecoverKeeps(ranks: Ranks, k: nat, m: RankMerges)
    requires Valid(ranks) && k <= |ranks.keys| && Valid(m) && RecoveredUpTo(ranks, k, m)
    requires RecoverFrom(ranks, k, m).Success?
    ensures RecoveredUpTo(ranks, |ranks.keys|, RecoverFrom(ranks, k, m).value)
    decreases |ranks.keys| - k
  {
    if k < |ranks.keys| {
      var t := ranks.keys[k];
      if |t| == 1 {
        assert RecoverFrom(ranks, k, m) == RecoverFrom(ranks, k + 1, m);
        RecoverSkip(ranks, k, m);
        RecoverKeeps(ranks, k + 1, m);
      } else {
        assert GoodSplit(ranks.items, t);
        var m' := Put(m, SplitPair(ranks.items, t), ranks.items[t]);
        assert RecoverFrom(ranks, k, m) == RecoverFrom(ranks, k + 1, m');
        RecoverStep(ranks, k, m);
        RecoverKeeps(ranks, k + 1, m');
      }
    }
  }

  /** The tokens the source requires to split: all but the single bytes. */
  ghost predicate AllSplit(r: RankTable)
  {
    forall t :: t in r && |t| != 1 ==> GoodSplit(r, t)
  }

  /** Every recovered entry `(p0, p1) -> rank` comes from a token of that rank
      whose halves have ranks `p0` and `p1`. */
  ghost predicate Sound(r: RankTable, m: RankMerges)
  {
    forall p :: p in m.items ==>
      exists t :: (t in r && |t| != 1 && r[t] == m.items[p] && GoodSplit(r, t) && SplitPair(r, t) == p)
  }

  /** Every multi-byte token has the pair of its halves recorded. */
  ghost predicate Complete(r: RankTable, m: RankMerges)
  {
    forall t :: t in r ==> Covered(r, t, m)
  }

  lemma AllSplitFromStart(ranks: Ranks)
    requires Valid(ranks)
    ensures AllSplit(ranks.items) <==> AllSplitFrom(ranks, 0)
  {
    forall t | t in ranks.items ensures exists j :: 0 <= j < |ranks.keys| && ranks.keys[j] == t {
      assert t in ranks.keys;
    }
  }

  lemma RecoveredSound(ranks: Ranks, m: RankMerges)
    requires Valid(ranks) && RecoveredUpTo(ranks, |ranks.keys|, m)
    ensures Sound(ranks.items, m)
  {
    forall p | p in m.items
      ensures exists t :: (t in ranks.items && |t| != 1 && ranks.items[t] == m.items[p]
        && GoodSplit(ranks.items, t) && SplitPair(ranks.items, t) == p)
    {
      var j :| 0 <= j < |ranks.keys| && Records(ranks, j, p, m.items[p]);
      assert ranks.keys[j] in ranks.items;
    }
  }

  lemma RecoveredComplete(ranks: Ranks, m: RankMerges)
    requires Valid(ranks) && RecoveredUpTo(ranks, |ranks.keys|, m)
    ensures Complete(ranks.items, m)
  {
    forall t | t in ranks.items ensures Covered(ranks.items, t, m) {
      assert t in ranks.keys;
      var j :| 0 <= j < |ranks.keys| && ranks.keys[j] == t;
      assert Covered(ranks.items, ranks.keys[j], m);
    }
  }

  /** recover_merges (GPT4_Tokenizer.py:30-40) succeeds exactly when every
      token whose length is not 1 splits, under its own rank, into two parts
      that are both in the table; then the recovered table is sound and
      complete with respect to those splits. */
  lemma Recovered(ranks: Ranks)
    requires Valid(ranks)
    ensures RecoverFrom(ranks, 0, Empty()).Success? <==> AllSplit(ranks.items)
    ensures RecoverFrom(ranks, 0, Empty()).Success? ==>
      && Valid(RecoverFrom(ranks, 0, Empty()).value)
      && Sound(ranks.items, RecoverFrom(ranks, 0, Empty()).value)
      && Complete(ranks.items, RecoverFrom(ranks, 0, Empty()).value)
  {
    RecoverSucceeds(ranks, 0, Empty());
    AllSplitFromStart(ranks);
    if RecoverFrom(ranks, 0, Empty()).Success? {
      RecoverKeeps(ranks, 0, Empty());
      var m := RecoverFrom(ranks, 0, Empty()).value;
      RecoveredSound(ranks, m);
      RecoveredComplete(ranks, m);
    }
  }
}
