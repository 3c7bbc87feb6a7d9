/** `encode` of BPE.py: replay the learned merges on the bytes of a text,
    always applying the present pair that was learned first. */
module Encoding {
  import opened Wrappers
  import opened Dicts
  import opened PairStats
  import opened MergeStep
  import opened Vocab
  import opened Training

  /** `merges.get(p, float("inf"))`, with `None` standing for infinity. */
  function Rank(m: map<Pair, Id>, p: Pair): Option<Id>
  {
    if p in m then Some(m[p]) else None
  }

  /** `a < b` where `None` is infinity. */
  predicate Below(a: Option<Id>, b: Option<Id>)
  {
    a.Some? && (b.None? || a.value < b.value)
  }

  /** `min(stats, key=lambda p: merges.get(p, float("inf")))`: Python's `min`
      keeps the first key that no later key undercuts, so the result is the
      earliest of the keys with the lowest id. Returns its position. */
  function ArgMinRank(keys: seq<Pair>, m: map<Pair, Id>): (k: nat)
    requires keys != []
    ensures k < |keys|
    ensures forall i :: 0 <= i < |keys| ==> !Below(Rank(m, keys[i]), Rank(m, keys[k]))
    ensures forall i :: 0 <= i < k ==> Below(Rank(m, keys[k]), Rank(m, keys[i]))
    decreases |keys|
  {
    var n := |keys|;
    if n == 1 then 0
    else
      var b := ArgMinRank(keys[..n - 1], m);
      if Below(Rank(m, keys[n - 1]), Rank(m, keys[b])) then n - 1 else b
  }

  /** The pair one round of `encode` looks at. */
  function LowestMerge(tokens: seq<Id>, m: map<Pair, Id>): Pair
    requires |tokens| >= 2
  {
    StatsKeys(tokens);
    StatsOf(tokens).keys[ArgMinRank(StatsOf(tokens).keys, m)]
  }

  /** The tokens `encode` returns for `tokens` as they stand. */
  function EncodeFrom(m: map<Pair, Id>, tokens: seq<Id>): seq<Id>
    decreases |tokens|
  {
    if |tokens| < 2 then tokens
    else
      var pair := LowestMerge(tokens, m);
      if pair !in m then tokens
      else
        StatsKeys(tokens);
        MergeLength(tokens, pair, m[pair]);
        EncodeFrom(m, Merged(tokens, pair, m[pair]))
  }

  /** encode (BPE.py:60-70) on the UTF-8 bytes of the text. */
  method Encode(merges: Merges, text: seq<Byte>) returns (tokens: seq<Id>)
    ensures tokens == EncodeFrom(merges.items, text)
  {
    tokens := text;
    while |tokens| >= 2
      invariant EncodeFrom(merges.items, tokens) == EncodeFrom(merges.items, text)
      decreases |tokens|
    {
      var stats := GetStats(tokens);
      StatsKeys(tokens);
      var pair := stats.keys[ArgMinRank(stats.keys, merges.items)];
      if pair !in merges.items {
        break;
      }
      var idx := merges.items[pair];
      MergeLength(tokens, pair, idx);
      tokens := Merge(tokens, pair, idx);
    }
  }

  /** Each round applies the merge with the smallest id among the pairs
      present, and it stops only when no present pair has been learned. */
  lemma LowestMergeSelection(tokens: seq<Id>, m: map<Pair, Id>)
    requires |tokens| >= 2
    ensures Adjacent(tokens, LowestMerge(tokens, m))
    ensures LowestMerge(tokens, m) in m <==> exists q :: Adjacent(tokens, q) && q in m
    ensures LowestMerge(tokens, m) in m ==>
      forall q :: Adjacent(tokens, q) && q in m ==> m[LowestMerge(tokens, m)] <= m[q]
  {
    StatsKeys(tokens);
    StatsCounts(tokens);
    var keys := StatsOf(tokens).keys;
    var k := ArgMinRank(keys, m);
    var p := keys[k];
    forall q | Adjacent(tokens, q) && q in m ensures p in m && m[p] <= m[q] {
      var j :| 0 <= j < |keys| && keys[j] == q;
      assert !Below(Rank(m, keys[j]), Rank(m, keys[k]));
    }
  }

  /** `encode` never lengthens its input, and what it returns contains no
      adjacent pair that has been learned. */
  lemma {:induction false} EncodeFinal(m: map<Pair, Id>, tokens: seq<Id>)
    ensures |EncodeFrom(m, tokens)| <= |tokens|
    ensures forall q :: Adjacent(EncodeFrom(m, tokens), q) ==> q !in m
    decreases |tokens|
  {
    if |tokens| >= 2 {
      LowestMergeSelection(tokens, m);
      var pair := LowestMerge(tokens, m);
      if pair in m {
        MergeLength(tokens, pair, m[pair]);
        EncodeFinal(m, Merged(tokens, pair, m[pair]));
      }
    }
  }

  lemma {:induction false} EncodeKeepsBytes(v: Vocab, merges: Merges, tokens: seq<Id>)
    requires Consistent(v, merges)
    requires forall x :: x in tokens ==> x in v
    ensures forall x :: x in EncodeFrom(merges.items, tokens) ==> x in v
    ensures Expand(v, EncodeFrom(merges.items, tokens)) == Expand(v, tokens)
    decreases |tokens|
  {
    var m := merges.items;
    if |tokens| >= 2 {
      var pair := LowestMerge(tokens, m);
      if pair in m {
        StatsKeys(tokens);
        MergeLength(tokens, pair, m[pair]);
        MergePreservesBytes(v, tokens, pair, m[pair]);
        EncodeKeepsBytes(v, merges, Merged(tokens, pair, m[pair]));
      }
    }
  }

  /** decode after encode gives back the bytes, for any merges whose vocab
      keeps the vocab invariant. */
  lemma EncodeRoundTrip(v: Vocab, merges: Merges, text: seq<Byte>)
    requires Consistent(v, merges)
    ensures Decode(v, EncodeFrom(merges.items, text)) == Success(text)
  {
    EncodeKeepsBytes(v, merges, text);
    ExpandBytes(v, text);
  }

  /** `decode(encode(text)) == text` with the merges and vocab that training
      on any corpus learns (BPE.py:78-79). */
  lemma TrainedRoundTrip(corpus: seq<Byte>, n: nat, text: seq<Byte>)
    requires TrainFrom(corpus, Empty(), 0, n).Success?
    ensures var m := TrainFrom(corpus, Empty(), 0, n).value.merges;
      && Valid(m)
      && VocabFrom(m, 0, ByteVocab()).Success?
      && Decode(VocabFrom(m, 0, ByteVocab()).value, EncodeFrom(m.items, text)) == Success(text)
  {
    var m := TrainFrom(corpus, Empty(), 0, n).value.merges;
    TrainedIds(corpus, n);
    VocabInvariant(m);
    EncodeRoundTrip(VocabFrom(m, 0, ByteVocab()).value, m, text);
  }
}
