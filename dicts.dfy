/** A Python `dict`: a finite map that also remembers the order in which its
    keys were first inserted (iteration order). Assigning to a key that is
    already present changes its value and keeps its position. */
module Dicts {

  /** Bytes and token ids. A byte is a token id below 256. */
  type Byte = b: nat | b < 256
  type Id = nat

  datatype Dict<K, V> = Dict(keys: seq<K>, items: map<K, V>)

  predicate Distinct<T(==)>(s: seq<T>)
  {
    forall i, j :: 0 <= i < j < |s| ==> s[i] != s[j]
  }

  /** The keys are listed exactly once each, in insertion order. */
  ghost predicate Valid<K(!new), V>(d: Dict<K, V>)
  {
    && Distinct(d.keys)
    && (forall k :: k in d.items <==> k in d.keys)
  }

  function Empty<K(!new), V>(): (d: Dict<K, V>)
    ensures Valid(d) && d.keys == [] && d.items == map[]
  {
    Dict([], map[])
  }

  /** `d[k] = v` */
  function Put<K(!new), V>(d: Dict<K, V>, k: K, v: V): (r: Dict<K, V>)
    requires Valid(d)
    ensures Valid(r)
    ensures r.items == d.items[k := v]
    ensures k in d.items ==> r.keys == d.keys
    ensures k !in d.items ==> r.keys == d.keys + [k]
  {
    if k in d.items then Dict(d.keys, d.items[k := v]) else Dict(d.keys + [k], d.items[k := v])
  }

  /** `d.get(k, default)` */
  function Get<K, V>(d: Dict<K, V>, k: K, default: V): V
  {
    if k in d.items then d.items[k] else default
  }

  /** The `(key, value)` pairs of `d.items()`, in iteration order. */
  function Items<K, V>(d: Dict<K, V>): (r: seq<(K, V)>)
    requires forall k :: k in d.keys ==> k in d.items
    ensures |r| == |d.keys|
    ensures forall i :: 0 <= i < |r| ==> r[i] == (d.keys[i], d.items[d.keys[i]])
    decreases |d.keys|
  {
    if d.keys == [] then []
    else Items(Dict(d.keys[..|d.keys| - 1], d.items)) + [(d.keys[|d.keys| - 1], d.items[d.keys[|d.keys| - 1]])]
  }

  /** `{v: k for k, v in items}`: the inverse map, built in iteration order,
      so that a later key overwrites an earlier one with the same value. */
  function Invert<K, V(!new)>(items: seq<(K, V)>): (r: map<V, K>)
    ensures forall v :: v in r <==> exists i :: 0 <= i < |items| && items[i].1 == v
  {
    if items == [] then map[]
    else
      var last := items[|items| - 1];
      var r := Invert(items[..|items| - 1]);
      assert forall i :: 0 <= i < |items| - 1 ==> items[..|items| - 1][i] == items[i];
      r[last.1 := last.0]
  }

  /** When no two entries share a value, inverting undoes the mapping. */
  lemma {:induction false} InvertInjective<K, V(!new)>(items: seq<(K, V)>, i: nat)
    requires i < |items|
    requires forall a, b :: 0 <= a < b < |items| ==> items[a].1 != items[b].1
    ensures items[i].1 in Invert(items) && Invert(items)[items[i].1] == items[i].0
  {
    if i < |items| - 1 {
      var init := items[..|items| - 1];
      InvertInjective(init, i);
    }
  }

  /** No two keys share a value. */
  ghost predicate Injective<K, V>(d: Dict<K, V>)
  {
    forall a, b :: a in d.items && b in d.items && a != b ==> d.items[a] != d.items[b]
  }

  /** Inverting the items of an injective dict maps each value back to its
      key. */
  lemma InvertItems<K(!new), V(!new)>(d: Dict<K, V>, k: K)
    requires Valid(d) && Injective(d) && k in d.items
    ensures d.items[k] in Invert(Items(d)) && Invert(Items(d))[d.items[k]] == k
  {
    var items := Items(d);
    assert k in d.keys;
    var i :| 0 <= i < |d.keys| && d.keys[i] == k;
    forall x, y | 0 <= x < y < |items| ensures items[x].1 != items[y].1 {
      assert d.keys[x] != d.keys[y];
    }
    InvertInjective(items, i);
  }
}
