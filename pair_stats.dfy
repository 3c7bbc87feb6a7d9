/** `get_stats` of BPE.py: counting how often each pair of adjacent ids
    occurs, and Python's `max(stats, key=stats.get)` over the result. */
module PairStats {
  import opened Dicts

  type Pair = (Id, Id)

  /** Pair counts, in the order in which each pair was first seen. */
  type Stats = Dict<Pair, nat>

  /** `zip(ids, ids[1:])`: the adjacent pairs, position by position. */
  function Pairs(ids: seq<Id>): (ps: seq<Pair>)
    ensures |ps| == if |ids| == 0 then 0 else |ids| - 1
    ensures forall i :: 0 <= i < |ps| ==> ps[i] == (ids[i], ids[i + 1])
  {
    if |ids| < 2 then [] else seq(|ids| - 1, i requires 0 <= i < |ids| - 1 => (ids[i], ids[i + 1]))
  }

  /** `p` occurs somewhere in `ids` as two adjacent ids. */
  predicate Adjacent(ids: seq<Id>, p: Pair)
  {
    exists i :: 0 <= i < |ids| - 1 && (ids[i], ids[i + 1]) == p
  }

  /** Number of positions `i` with `(ids[i], ids[i + 1]) == p`. */
  function Count(ids: seq<Id>, p: Pair): nat
  {
    multiset(Pairs(ids))[p]
  }

  /** The dictionary the loop of `get_stats` has built after counting `ps`. */
  function Tally(ps: seq<Pair>): (st: Stats)
    ensures Valid(st)
    ensures forall p :: p in st.keys <==> p in ps
  {
    if ps == [] then Empty()
    else
      var st := Tally(ps[..|ps| - 1]);
      var p := ps[|ps| - 1];
      Put(st, p, Get(st, p, 0) + 1)
  }

  function StatsOf(ids: seq<Id>): Stats
  {
    Tally(Pairs(ids))
  }

  /** get_stats (BPE.py:11-15). */
  method GetStats(ids: seq<Id>) returns (counts: Stats)
    ensures counts == StatsOf(ids)
  {
    var ps := Pairs(ids);
    counts := Empty();
    for i := 0 to |ps|
      invariant counts == Tally(ps[..i])
    {
      var pair := ps[i];
      assert ps[..i + 1][..i] == ps[..i];
      counts := Put(counts, pair, Get(counts, pair, 0) + 1);
    }
    assert ps[..|ps|] == ps;
  }

  /** Position of the first occurrence of `x` in `s`. */
  function IndexOf<T(==)>(s: seq<T>, x: T): (r: nat)
    requires x in s
    ensures r < |s| && s[r] == x
    ensures forall j :: 0 <= j < r ==> s[j] != x
  {
    if s[0] == x then 0 else 1 + IndexOf(s[1..], x)
  }

  /** Position of the first occurrence of the pair `p` in `ids`. */
  function FirstPos(ids: seq<Id>, p: Pair): (r: nat)
    requires Adjacent(ids, p)
    ensures r < |ids| - 1 && (ids[r], ids[r + 1]) == p
    ensures forall j :: 0 <= j < r ==> (ids[j], ids[j + 1]) != p
  {
    AdjacentIffPair(ids, p);
    IndexOf(Pairs(ids), p)
  }

  /** Sum of the counts of `keys`, `sum(stats.values())` when `keys` are all the keys. */
  function SumOf(keys: seq<Pair>, counts: map<Pair, nat>): nat
    requires forall k :: k in keys ==> k in counts
  {
    if keys == [] then 0 else SumOf(keys[..|keys| - 1], counts) + counts[keys[|keys| - 1]]
  }

  /** `sum(stats.values())`. */
  function Total(st: Stats): nat
    requires Valid(st)
  {
    SumOf(st.keys, st.items)
  }

  lemma {:induction false} SumOfFrame(keys: seq<Pair>, c: map<Pair, nat>, d: map<Pair, nat>)
    requires forall k :: k in keys ==> k in c && k in d && c[k] == d[k]
    ensures SumOf(keys, c) == SumOf(keys, d)
  {
    if keys != [] {
      SumOfFrame(keys[..|keys| - 1], c, d);
    }
  }

  lemma {:induction false} SumOfBump(keys: seq<Pair>, c: map<Pair, nat>, x: Pair)
    requires Distinct(keys) && x in keys
    requires forall k :: k in keys ==> k in c
    ensures SumOf(keys, c[x := c[x] + 1]) == SumOf(keys, c) + 1
  {
    var init, last := keys[..|keys| - 1], keys[|keys| - 1];
    if last == x {
      assert forall j :: 0 <= j < |init| ==> init[j] == keys[j] && keys[j] != x;
      SumOfFrame(init, c, c[x := c[x] + 1]);
    } else {
      assert x in init;
      SumOfBump(init, c, x);
    }
  }

  /** Counting keeps one key per distinct pair, holding its number of occurrences. */
  lemma {:induction false} TallyCounts(ps: seq<Pair>)
    ensures forall p :: p in Tally(ps).items <==> p in ps
    ensures forall p :: p in Tally(ps).items ==> Tally(ps).items[p] == multiset(ps)[p]
  {
    if ps != [] {
      var init, x := ps[..|ps| - 1], ps[|ps| - 1];
      assert ps == init + [x];
      TallyCounts(init);
    }
  }

  /** The first occurrence of a pair seen before the last position does not move. */
  lemma IndexOfInit(ps: seq<Pair>, p: Pair)
    requires |ps| > 0 && p in ps[..|ps| - 1]
    ensures IndexOf(ps, p) == IndexOf(ps[..|ps| - 1], p)
  {
    var init := ps[..|ps| - 1];
    var a, b := IndexOf(ps, p), IndexOf(init, p);
    assert ps[b] == init[b];
    assert a < |init| ==> ps[a] == init[a];
  }

  /** `keys` are listed in order of their first occurrence in `ps`. */
  ghost predicate InOrder(ps: seq<Pair>, keys: seq<Pair>)
    requires forall k :: k in keys ==> k in ps
  {
    forall i, j :: 0 <= i < j < |keys| ==> IndexOf(ps, keys[i]) < IndexOf(ps, keys[j])
  }

  /** A pair first seen at the last position is found there. */
  lemma IndexOfLast(ps: seq<Pair>)
    requires |ps| > 0 && ps[|ps| - 1] !in ps[..|ps| - 1]
    ensures IndexOf(ps, ps[|ps| - 1]) == |ps| - 1
  {
    forall j | 0 <= j < |ps| - 1 ensures ps[j] != ps[|ps| - 1] {
      assert ps[j] == ps[..|ps| - 1][j];
    }
  }

  /** Counting one more pair keeps the order of the keys seen before it. */
  lemma OrderKept(ps: seq<Pair>, keys: seq<Pair>)
    requires |ps| > 0 && forall k :: k in keys ==> k in ps[..|ps| - 1]
    requires InOrder(ps[..|ps| - 1], keys)
    ensures forall k :: k in keys ==> k in ps
    ensures InOrder(ps, keys)
  {
    var init := ps[..|ps| - 1];
    forall k | k in keys ensures k in ps && IndexOf(ps, k) == IndexOf(init, k) {
      IndexOfInit(ps, k);
    }
  }

  /** A pair first seen at the last position goes after every earlier key. */
  lemma OrderAppended(ps: seq<Pair>, keys: seq<Pair>)
    requires |ps| > 0 && forall k :: k in keys ==> k in ps[..|ps| - 1]
    requires ps[|ps| - 1] !in ps[..|ps| - 1]
    requires InOrder(ps[..|ps| - 1], keys)
    ensures forall k :: k in keys + [ps[|ps| - 1]] ==> k in ps
    ensures InOrder(ps, keys + [ps[|ps| - 1]])
  {
    var init := ps[..|ps| - 1];
    var keys' := keys + [ps[|ps| - 1]];
    OrderKept(ps, keys);
    IndexOfLast(ps);
    forall k | k in keys ensures IndexOf(ps, k) < |ps| - 1 {
      IndexOfInit(ps, k);
    }
    forall i, j | 0 <= i < j < |keys'| ensures IndexOf(ps, keys'[i]) < IndexOf(ps, keys'[j]) {
      if j < |keys| {
        assert keys'[i] == keys[i] && keys'[j] == keys[j];
      } else {
        assert keys'[i] == keys[i] && keys'[i] in keys;
      }
    }
  }

  /** Keys are listed in order of first occurrence. */
  lemma {:induction false} TallyOrder(ps: seq<Pair>)
    ensures InOrder(ps, Tally(ps).keys)
  {
    if ps != [] {
      var init, x := ps[..|ps| - 1], ps[|ps| - 1];
      var st := Tally(init);
      TallyOrder(init);
      if x in st.items {
        assert Tally(ps).keys == st.keys;
        OrderKept(ps, st.keys);
      } else {
        assert Tally(ps).keys == st.keys + [x];
        OrderAppended(ps, st.keys);
      }
    }
  }

  /** Counting one more pair adds one to the sum of the counts. */
  lemma SumOfCountOne(st: Stats, x: Pair)
    requires Valid(st)
    ensures Total(Put(st, x, Get(st, x, 0) + 1)) == Total(st) + 1
  {
    var r := Put(st, x, Get(st, x, 0) + 1);
    if x in st.items {
      SumOfBump(st.keys, st.items, x);
    } else {
      SumOfFrame(st.keys, st.items, r.items);
      assert r.keys[..|r.keys| - 1] == st.keys;
    }
  }

  /** The counts add up to the number of pairs counted. */
  lemma {:induction false} TallySum(ps: seq<Pair>)
    ensures Total(Tally(ps)) == |ps|
  {
    if ps != [] {
      var init, x := ps[..|ps| - 1], ps[|ps| - 1];
      var st := Tally(init);
      assert Tally(ps) == Put(st, x, Get(st, x, 0) + 1);
      SumOfCountOne(st, x);
      TallySum(init);
    }
  }

  lemma AdjacentIffPair(ids: seq<Id>, p: Pair)
    ensures p in Pairs(ids) <==> Adjacent(ids, p)
  {
    var ps := Pairs(ids);
    if p in ps {
      var i :| 0 <= i < |ps| && ps[i] == p;
      assert (ids[i], ids[i + 1]) == p;
    }
    if Adjacent(ids, p) {
      var i :| 0 <= i < |ids| - 1 && (ids[i], ids[i + 1]) == p;
      assert ps[i] == p;
    }
  }

  /** get_stats (BPE.py:11-15): the keys are exactly the adjacent pairs, each
      with its number of occurrences; for fewer than two ids the dict is empty. */
  lemma StatsCounts(ids: seq<Id>)
    ensures Valid(StatsOf(ids))
    ensures forall p :: p in StatsOf(ids).items <==> Adjacent(ids, p)
    ensures forall p :: p in StatsOf(ids).items ==> StatsOf(ids).items[p] == Count(ids, p)
    ensures |ids| <= 1 ==> StatsOf(ids).keys == []
  {
    TallyCounts(Pairs(ids));
    forall p ensures p in Pairs(ids) <==> Adjacent(ids, p) {
      AdjacentIffPair(ids, p);
    }
  }

  /** get_stats inserts each pair when it first occurs, so the keys are in
      order of first occurrence in `ids`. */
  lemma StatsOrder(ids: seq<Id>)
    ensures forall p :: p in StatsOf(ids).keys ==> Adjacent(ids, p)
    ensures forall i, j :: 0 <= i < j < |StatsOf(ids).keys| ==>
      FirstPos(ids, StatsOf(ids).keys[i]) < FirstPos(ids, StatsOf(ids).keys[j])
  {
    var ps := Pairs(ids);
    TallyOrder(ps);
    forall p | p in ps ensures Adjacent(ids, p) && FirstPos(ids, p) == IndexOf(ps, p) {
      AdjacentIffPair(ids, p);
      var a, b := FirstPos(ids, p), IndexOf(ps, p);
      assert ps[a] == (ids[a], ids[a + 1]);
      assert ps[b] == (ids[b], ids[b + 1]);
    }
  }

  /** Two or more ids give at least one key, and every key occurs. */
  lemma StatsKeys(ids: seq<Id>)
    ensures |ids| >= 2 ==> StatsOf(ids).keys != []
    ensures forall p :: p in StatsOf(ids).keys ==> Adjacent(ids, p)
  {
    StatsCounts(ids);
    if |ids| >= 2 {
      assert Adjacent(ids, (ids[0], ids[1]));
    }
  }

  /** The counts of get_stats sum to `len(ids) - 1` for non-empty `ids`. */
  lemma StatsSum(ids: seq<Id>)
    requires |ids| >= 1
    ensures Total(StatsOf(ids)) == |ids| - 1
  {
    TallySum(Pairs(ids));
  }

  /** `max(stats, key=stats.get)`: Python's `max` keeps the first key whose
      count no later key exceeds, so the result is the earliest of the keys
      with the largest count. Returns its position among the keys. */
  function ArgMax(st: Stats): (k: nat)
    requires st.keys != []
    requires forall p :: p in st.keys ==> p in st.items
    ensures k < |st.keys|
    ensures forall i :: 0 <= i < |st.keys| ==> st.items[st.keys[i]] <= st.items[st.keys[k]]
    ensures forall i :: 0 <= i < k ==> st.items[st.keys[i]] < st.items[st.keys[k]]
    decreases |st.keys|
  {
    var n := |st.keys|;
    if n == 1 then 0
    else
      var b := ArgMax(Dict(st.keys[..n - 1], st.items));
      if st.items[st.keys[n - 1]] > st.items[st.keys[b]] then n - 1 else b
  }
}
