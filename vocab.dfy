/** The vocab build of BPE.py (the same loop builds `self.vocab` in
    GPT4Tokenizer.__init__) and `decode`: every id stands for a byte string;
    decoding joins them. */
module Vocab {
  import opened Wrappers
  import opened Dicts
  import opened PairStats
  import opened MergeStep

  type Vocab = map<Id, seq<Byte>>

  /** Learned merges, `merges[(p0, p1)] = idx`, in the order they were recorded. */
  type Merges = Dict<Pair, Id>

  /** `vocab[p0]` or `vocab[p1]` raised `KeyError`. */
  datatype VocabError = MissingId(id: Id)

  /** Decoding met an id the vocab does not know (`KeyError`). */
  datatype DecodeError = UnknownId(id: Id)

  /** The first `n` entries of `{idx: bytes([idx]) for idx in range(256)}`. */
  function ByteVocabUpTo(n: nat): (v: Vocab)
    requires n <= 256
    ensures forall i: Id :: i in v <==> i < n
    ensures forall i: Id :: i < n ==> v[i] == [i as Byte]
  {
    if n == 0 then map[] else ByteVocabUpTo(n - 1)[n - 1 := [(n - 1) as Byte]]
  }

  /** `{idx: bytes([idx]) for idx in range(256)}` */
  function ByteVocab(): Vocab
  {
    ByteVocabUpTo(256)
  }

  /** The vocab after the loop has processed merges `k..` starting from `v`. */
  function VocabFrom(m: Merges, k: nat, v: Vocab): Result<Vocab, VocabError>
    requires Valid(m) && k <= |m.keys|
    decreases |m.keys| - k
  {
    if k == |m.keys| then Success(v)
    else
      var p := m.keys[k];
      if p.0 !in v then Failure(MissingId(p.0))
      else if p.1 !in v then Failure(MissingId(p.1))
      else VocabFrom(m, k + 1, v[m.items[p] := v[p.0] + v[p.1]])
  }

  /** The vocab build (BPE.py:51-53, GPT4_Tokenizer.py:53-55). */
  method BuildVocab(merges: Merges) returns (r: Result<Vocab, VocabError>)
    requires Valid(merges)
    ensures r == VocabFrom(merges, 0, ByteVocab())
  {
    var vocab := ByteVocab();
    var items := Items(merges);
    for k := 0 to |items|
      invariant VocabFrom(merges, k, vocab) == VocabFrom(merges, 0, ByteVocab())
    {
      var (pair, idx) := items[k];
      if pair.0 !in vocab {
        return Failure(MissingId(pair.0));
      }
      if pair.1 !in vocab {
        return Failure(MissingId(pair.1));
      }
      vocab := vocab[idx := vocab[pair.0] + vocab[pair.1]];
    }
    return Success(vocab);
  }

  /** `x` is a byte or the id of one of the first `k` merges. */
  ghost predicate DefinedBefore(m: Merges, x: Id, k: nat)
    requires Valid(m) && k <= |m.keys|
  {
    x < 256 || exists j :: 0 <= j < k && m.items[m.keys[j]] == x
  }

  /** Each merge only uses ids that exist when it is processed. */
  ghost predicate Ordered(m: Merges)
    requires Valid(m)
  {
    forall k :: 0 <= k < |m.keys| ==>
      DefinedBefore(m, m.keys[k].0, k) && DefinedBefore(m, m.keys[k].1, k)
  }

  /** The merges create new ids: none below 256, no two alike. */
  ghost predicate FreshIds(m: Merges)
    requires Valid(m)
  {
    && (forall k :: 0 <= k < |m.keys| ==> m.items[m.keys[k]] >= 256)
    && (forall j, k :: 0 <= j < k < |m.keys| ==> m.items[m.keys[j]] != m.items[m.keys[k]])
  }

  /** Every byte id stands for that byte. */
  ghost predicate BytesKept(v: Vocab)
  {
    forall i: Id :: i < 256 ==> i in v && v[i] == [i as Byte]
  }

  /** The id of merge `p` stands for the concatenation of its two halves. */
  ghost predicate PairBuilt(v: Vocab, m: Merges, p: Pair)
    requires p in m.items
  {
    p.0 in v && p.1 in v && m.items[p] in v && v[m.items[p]] == v[p.0] + v[p.1]
  }

  /** The vocab invariant: each byte id stands for that byte, each merged id
      for the concatenation of its two halves. */
  ghost predicate Consistent(v: Vocab, m: Merges)
  {
    && BytesKept(v)
    && (forall p :: p in m.items ==> PairBuilt(v, m, p))
  }

  /** Entry `x` of a vocab built from the first `k` merges: a byte or one of
      their ids, standing for one byte or, when merged, for two or more. */
  ghost predicate Entry(m: Merges, k: nat, v: Vocab, x: Id)
    requires Valid(m) && k <= |m.keys| && x in v
  {
    DefinedBefore(m, x, k) && |v[x]| >= 1 && (x >= 256 ==> |v[x]| >= 2)
  }

  ghost predicate EntriesOk(m: Merges, k: nat, v: Vocab)
    requires Valid(m) && k <= |m.keys|
  {
    forall x :: x in v ==> Entry(m, k, v, x)
  }

  ghost predicate PairsOk(m: Merges, k: nat, v: Vocab)
    requires Valid(m) && k <= |m.keys|
  {
    forall j :: 0 <= j < k ==> PairBuilt(v, m, m.keys[j])
  }

  /** The loop invariant of the vocab build after `k` merges. */
  ghost predicate BuiltUpTo(m: Merges, k: nat, v: Vocab)
    requires Valid(m) && k <= |m.keys|
  {
    BytesKept(v) && EntriesOk(m, k, v) && PairsOk(m, k, v)
  }

  lemma BuildStep(m: Merges, k: nat, v: Vocab)
    requires Valid(m) && FreshIds(m) && k < |m.keys| && BuiltUpTo(m, k, v)
    requires m.keys[k].0 in v && m.keys[k].1 in v
    ensures BuiltUpTo(m, k + 1, v[m.items[m.keys[k]] := v[m.keys[k].0] + v[m.keys[k].1]])
  {
    var v' := v[m.items[m.keys[k]] := v[m.keys[k].0] + v[m.keys[k].1]];
    StepIdIsNew(m, k, v);
    StepEntries(m, k, v);
    StepPairs(m, k, v);
    assert BytesKept(v');
  }

  lemma StepEntries(m: Merges, k: nat, v: Vocab)
    requires Valid(m) && k < |m.keys| && EntriesOk(m, k, v)
    requires m.keys[k].0 in v && m.keys[k].1 in v
    ensures EntriesOk(m, k + 1, v[m.items[m.keys[k]] := v[m.keys[k].0] + v[m.keys[k].1]])
  {
    var idx := m.items[m.keys[k]];
    var v' := v[idx := v[m.keys[k].0] + v[m.keys[k].1]];
    forall x | x in v' ensures Entry(m, k + 1, v', x) {
      assert EntriesOk(m, k, v);
      if x == idx {
        assert Entry(m, k, v, m.keys[k].0) && Entry(m, k, v, m.keys[k].1);
        assert x < 256 || (0 <= k < k + 1 && m.items[m.keys[k]] == x);
      } else {
        assert Entry(m, k, v, x);
        DefinedLater(m, x, k);
      }
    }
  }

  lemma PairBuiltGrows(v: Vocab, m: Merges, p: Pair, idx: Id, bytes: seq<Byte>)
    requires p in m.items && PairBuilt(v, m, p) && idx !in v
    ensures PairBuilt(v[idx := bytes], m, p)
  {
  }

  lemma StepPairs(m: Merges, k: nat, v: Vocab)
    requires Valid(m) && k < |m.keys| && PairsOk(m, k, v)
    requires m.keys[k].0 in v && m.keys[k].1 in v && m.items[m.keys[k]] !in v
    ensures PairsOk(m, k + 1, v[m.items[m.keys[k]] := v[m.keys[k].0] + v[m.keys[k].1]])
  {
    var idx := m.items[m.keys[k]];
    var bytes := v[m.keys[k].0] + v[m.keys[k].1];
    forall j | 0 <= j < k + 1 ensures PairBuilt(v[idx := bytes], m, m.keys[j]) {
      if j < k {
        PairBuiltGrows(v, m, m.keys[j], idx, bytes);
      } else {
        assert m.keys[k].0 != idx && m.keys[k].1 != idx;
      }
    }
  }

  /** The id of merge `k` is not yet in a vocab built from the merges before it. */
  lemma StepIdIsNew(m: Merges, k: nat, v: Vocab)
    requires Valid(m) && FreshIds(m) && k < |m.keys| && EntriesOk(m, k, v)
    ensures m.items[m.keys[k]] !in v
  {
    var idx := m.items[m.keys[k]];
    forall x | x in v ensures x != idx {
      assert EntriesOk(m, k, v);
      assert Entry(m, k, v, x);
      if x >= 256 {
        var j :| 0 <= j < k && m.items[m.keys[j]] == x;
      }
    }
  }

  lemma DefinedLater(m: Merges, x: Id, k: nat)
    requires Valid(m) && k < |m.keys| && DefinedBefore(m, x, k)
    ensures DefinedBefore(m, x, k + 1)
  {
    if x >= 256 {
      var j :| 0 <= j < k && m.items[m.keys[j]] == x;
      assert 0 <= j < k + 1;
    }
  }

  lemma DefinedIsPresent(m: Merges, k: nat, v: Vocab, x: Id)
    requires Valid(m) && k <= |m.keys| && BuiltUpTo(m, k, v) && DefinedBefore(m, x, k)
    ensures x in v
  {
    if x >= 256 {
      var j :| 0 <= j < k && m.items[m.keys[j]] == x;
      assert PairsOk(m, k, v);
      assert PairBuilt(v, m, m.keys[j]);
    }
  }

  lemma {:induction false} BuildFromOrdered(m: Merges, k: nat, v: Vocab)
    requires Valid(m) && FreshIds(m) && Ordered(m)
    requires k <= |m.keys| && BuiltUpTo(m, k, v)
    ensures VocabFrom(m, k, v).Success?
    decreases |m.keys| - k
  {
    if k < |m.keys| {
      var p := m.keys[k];
      DefinedIsPresent(m, k, v, p.0);
      DefinedIsPresent(m, k, v, p.1);
      BuildStep(m, k, v);
      BuildFromOrdered(m, k + 1, v[m.items[p] := v[p.0] + v[p.1]]);
    }
  }

  lemma {:induction false} BuildFrom(m: Merges, k: nat, v: Vocab)
    requires Valid(m) && FreshIds(m)
    requires k <= |m.keys| && BuiltUpTo(m, k, v)
    requires VocabFrom(m, k, v).Success?
    ensures BuiltUpTo(m, |m.keys|, VocabFrom(m, k, v).value)
    decreases |m.keys| - k
  {
    if k < |m.keys| {
      var p := m.keys[k];
      BuildStep(m, k, v);
      BuildFrom(m, k + 1, v[m.items[p] := v[p.0] + v[p.1]]);
    }
  }

  /** The vocab build succeeds when each merge's halves exist by the time it
      is processed, and then, when merged ids are fresh, the vocab invariant
      holds: bytes stand for themselves, every merged id for the concatenation
      of its halves (so for at least two bytes), and the vocab holds nothing
      else. */
  lemma VocabInvariant(m: Merges)
    requires Valid(m) && FreshIds(m)
    requires Ordered(m) || VocabFrom(m, 0, ByteVocab()).Success?
    ensures VocabFrom(m, 0, ByteVocab()).Success?
    ensures Consistent(VocabFrom(m, 0, ByteVocab()).value, m)
    ensures forall x :: x in VocabFrom(m, 0, ByteVocab()).value ==>
      x < 256 || exists j :: 0 <= j < |m.keys| && m.items[m.keys[j]] == x
    ensures forall x :: x in VocabFrom(m, 0, ByteVocab()).value && x >= 256 ==>
      |VocabFrom(m, 0, ByteVocab()).value[x]| >= 2
  {
    if Ordered(m) {
      BuildFromOrdered(m, 0, ByteVocab());
    }
    BuildFrom(m, 0, ByteVocab());
    var v := VocabFrom(m, 0, ByteVocab()).value;
    BuiltConsistent(m, v);
  }

  lemma BuiltContents(m: Merges, v: Vocab)
    requires Valid(m) && BuiltUpTo(m, |m.keys|, v)
    ensures forall x :: x in v ==> x < 256 || exists j :: 0 <= j < |m.keys| && m.items[m.keys[j]] == x
    ensures forall x :: x in v && x >= 256 ==> |v[x]| >= 2
  {
    assert EntriesOk(m, |m.keys|, v);
    forall x | x in v ensures x < 256 || exists j :: 0 <= j < |m.keys| && m.items[m.keys[j]] == x {
      assert Entry(m, |m.keys|, v, x);
    }
    forall x | x in v && x >= 256 ensures |v[x]| >= 2 {
      assert Entry(m, |m.keys|, v, x);
    }
  }

  /** A vocab built over all merges keeps the vocab invariant, and holds
      only bytes and merged ids, the latter standing for two bytes or more. */
  lemma BuiltConsistent(m: Merges, v: Vocab)
    requires Valid(m) && BuiltUpTo(m, |m.keys|, v)
    ensures Consistent(v, m)
    ensures forall x :: x in v ==> x < 256 || exists j :: 0 <= j < |m.keys| && m.items[m.keys[j]] == x
    ensures forall x :: x in v && x >= 256 ==> |v[x]| >= 2
  {
    BuiltContents(m, v);
    assert PairsOk(m, |m.keys|, v);
    forall p | p in m.items ensures PairBuilt(v, m, p) {
      var j :| 0 <= j < |m.keys| && m.keys[j] == p;
    }
  }

  /** `b"".join(vocab[idx] for idx in ids)` */
  function Expand(v: Vocab, ids: seq<Id>): seq<Byte>
    requires forall x :: x in ids ==> x in v
  {
    if ids == [] then [] else v[ids[0]] + Expand(v, ids[1..])
  }

  /** Position of the first id the vocab does not know. */
  function FirstUnknown(v: Vocab, ids: seq<Id>): (k: nat)
    requires exists x :: x in ids && x !in v
    ensures k < |ids| && ids[k] !in v
    ensures forall j :: 0 <= j < k ==> ids[j] in v
  {
    if ids[0] !in v then 0 else 1 + FirstUnknown(v, ids[1..])
  }

  /** decode (BPE.py:55-58) at the byte level: the join of the ids' byte
      strings, or `KeyError` for the first unknown id. */
  function Decode(v: Vocab, ids: seq<Id>): (r: Result<seq<Byte>, DecodeError>)
    ensures r.Success? <==> forall x :: x in ids ==> x in v
    ensures r.Failure? ==> r.error.id in ids && r.error.id !in v
  {
    if forall x :: x in ids ==> x in v then Success(Expand(v, ids))
    else Failure(UnknownId(ids[FirstUnknown(v, ids)]))
  }

  /** Merging a pair into an id that stands for the pair's concatenation
      changes the ids but not the bytes they stand for. */
  lemma {:induction false} MergePreservesBytes(v: Vocab, ids: seq<Id>, p: Pair, idx: Id)
    requires forall x :: x in ids ==> x in v
    requires p.0 in v && p.1 in v && idx in v && v[idx] == v[p.0] + v[p.1]
    ensures forall x :: x in Merged(ids, p, idx) ==> x in v
    ensures Expand(v, Merged(ids, p, idx)) == Expand(v, ids)
    decreases |ids|
  {
    MergedElements(ids, p, idx);
    if ids == [] {
    } else if |ids| >= 2 && (ids[0], ids[1]) == p {
      MergePreservesBytes(v, ids[2..], p, idx);
      assert ids[1..][1..] == ids[2..];
    } else {
      MergePreservesBytes(v, ids[1..], p, idx);
    }
  }
}
