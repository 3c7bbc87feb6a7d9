/** The tokenizer glue of GPT4_Tokenizer.py that does not go through
    tiktoken: the tables `GPT4Tokenizer.__init__` builds from a flat rank
    table, the allowed-special-token policy, and byte-level `decode`. */
module Gpt4 {
  import opened Wrappers
  import opened Dicts
  import opened PairStats
  import opened BpeVocab = Vocab
  import opened Encoding
  import opened RankBpe
  import opened MergeRecovery

  /** GPT4_SPECIAL_TOKENS, in its literal order. */
  const SpecialTokens: Dict<string, Id> := Dict(
    ["<|endoftext|>", "<|fim_prefix|>", "<|fim_middle|>", "<|fim_suffix|>", "<|endofprompt|>"],
    map["<|endoftext|>" := 100257, "<|fim_prefix|>" := 100258, "<|fim_middle|>" := 100259,
        "<|fim_suffix|>" := 100260, "<|endofprompt|>" := 100276])

  /** The fields of a constructed GPT4Tokenizer that this model keeps; none
      of them changes after `__init__`. */
  datatype Tokenizer = Tokenizer(
    specialTokens: Dict<string, Id>,
    inverseSpecialTokens: map<Id, string>,
    merges: RankMerges,
    vocab: BpeVocab.Vocab,
    byteShuffle: Dict<Byte, nat>,
    inverseByteShuffle: map<nat, Byte>)

  datatype InitError =
    | RecoverFailed(recover: RecoverError)  // recover_merges raised
    | VocabFailed(missing: VocabError)      // `self.vocab[p0]` raised KeyError
    | MissingByte(b: Byte)                  // `mergeable_ranks[bytes([i])]` raised KeyError

  /** `bytes([b])` */
  function Single(b: Byte): Bytes
  {
    [b]
  }

  /** The byte shuffle after bytes `0..i`: `{i: mergeable_ranks[bytes([i])]}`. */
  function ShuffleFrom(r: RankTable, i: nat, acc: Dict<Byte, nat>): (res: Result<Dict<Byte, nat>, InitError>)
    requires i <= 256 && Valid(acc)
    ensures res.Success? ==> Valid(res.value)
    decreases 256 - i
  {
    if i == 256 then Success(acc)
    else if Single(i) !in r then Failure(MissingByte(i))
    else ShuffleFrom(r, i + 1, Put(acc, i, r[Single(i)]))
  }

  /** `self.byte_shuffle` */
  function ByteShuffle(r: RankTable): (res: Result<Dict<Byte, nat>, InitError>)
    ensures res.Success? ==> Valid(res.value)
  {
    ShuffleFrom(r, 0, Empty())
  }

  /** The shuffle holds bytes `0..i`, in order, each with its own rank. */
  ghost predicate ShuffledUpTo(r: RankTable, i: nat, acc: Dict<Byte, nat>)
  {
    && |acc.keys| == i
    && (forall j :: 0 <= j < i ==> acc.keys[j] == j)
    && (forall b: Byte :: b in acc.items <==> b < i)
    && (forall b: Byte :: b in acc.items ==> Single(b) in r && acc.items[b] == r[Single(b)])
  }

  lemma {:induction false} ShuffleFromFacts(r: RankTable, i: nat, acc: Dict<Byte, nat>)
    requires i <= 256 && Valid(acc) && ShuffledUpTo(r, i, acc)
    ensures ShuffleFrom(r, i, acc).Success? <==> forall b: Byte :: i <= b ==> Single(b) in r
    ensures ShuffleFrom(r, i, acc).Success? ==> ShuffledUpTo(r, 256, ShuffleFrom(r, i, acc).value)
    ensures ShuffleFrom(r, i, acc).Failure? ==>
      && ShuffleFrom(r, i, acc).error.MissingByte?
      && var b := ShuffleFrom(r, i, acc).error.b;
         && i <= b && Single(b) !in r
         && forall c: Byte :: i <= c < b ==> Single(c) in r
    decreases 256 - i
  {
    if i == 256 {
    } else if Single(i) !in r {
      assert ShuffleFrom(r, i, acc) == Failure(MissingByte(i));
    } else {
      var acc' := Put(acc, i, r[Single(i)]);
      ShuffleStep(r, i, acc);
      assert ShuffleFrom(r, i, acc) == ShuffleFrom(r, i + 1, acc');
      ShuffleFromFacts(r, i + 1, acc');
    }
  }

  lemma ShuffleStep(r: RankTable, i: nat, acc: Dict<Byte, nat>)
    requires i < 256 && Valid(acc) && ShuffledUpTo(r, i, acc) && Single(i) in r
    ensures ShuffledUpTo(r, i + 1, Put(acc, i, r[Single(i)]))
  {
  }

  /** `self.byte_shuffle` exists exactly when every single byte has a rank;
      then it lists the bytes 0..255 in order, each mapped to its rank, and
      otherwise the KeyError names the lowest byte without one. */
  lemma ByteShuffleFacts(r: RankTable)
    ensures ByteShuffle(r).Success? <==> forall b: Byte :: Single(b) in r
    ensures ByteShuffle(r).Success? ==>
      var s := ByteShuffle(r).value;
      && |s.keys| == 256 && (forall j :: 0 <= j < 256 ==> s.keys[j] == j)
      && (forall b: Byte :: b in s.items && s.items[b] == r[Single(b)])
    ensures ByteShuffle(r).Failure? ==>
      && ByteShuffle(r).error.MissingByte?
      && var b := ByteShuffle(r).error.b;
         Single(b) !in r && forall c: Byte :: c < b ==> Single(c) in r
  {
    ShuffleFromFacts(r, 0, Empty());
  }

  /** The fields `__init__` leaves, or the exception it raises
      (GPT4_Tokenizer.py:47-58). */
  function InitSpec(mergeableRanks: Ranks): Result<Tokenizer, InitError>
    requires Valid(mergeableRanks)
  {
    match RecoverFrom(mergeableRanks, 0, Empty())
    case Failure(e) => Failure(RecoverFailed(e))
    case Success(merges) =>
      match VocabFrom(merges, 0, ByteVocab())
      case Failure(e) => Failure(VocabFailed(e))
      case Success(vocab) =>
        match ByteShuffle(mergeableRanks.items)
        case Failure(e) => Failure(e)
        case Success(shuffle) =>
          Success(Tokenizer(SpecialTokens, Invert(Items(SpecialTokens)), merges, vocab,
                            shuffle, Invert(Items(shuffle))))
  }

  /** GPT4Tokenizer.__init__ from a given `mergeable_ranks` table
      (GPT4_Tokenizer.py:47-58). */
  method Init(mergeableRanks: Ranks) returns (r: Result<Tokenizer, InitError>)
    requires Valid(mergeableRanks)
    ensures r == InitSpec(mergeableRanks)
  {
    var specialTokens := SpecialTokens;
    var inverseSpecialTokens := Invert(Items(specialTokens));
    var recovered := RecoverMerges(mergeableRanks);
    if recovered.Failure? {
      return Failure(RecoverFailed(recovered.error));
    }
    var merges := recovered.value;
    var built := BuildVocab(merges);
    if built.Failure? {
      return Failure(VocabFailed(built.error));
    }
    var shuffle := ByteShuffle(mergeableRanks.items);
    if shuffle.Failure? {
      return Failure(shuffle.error);
    }
    r := Success(Tokenizer(specialTokens, inverseSpecialTokens, merges, built.value,
                           shuffle.value, Invert(Items(shuffle.value))));
  }

  /** GPT4_SPECIAL_TOKENS lists each literal once, with a distinct id. */
  lemma SpecialTokensValid()
    ensures Valid(SpecialTokens) && Injective(SpecialTokens)
  {
    SpecialKeysDistinct();
    SpecialIdsDistinct();
  }

  lemma SpecialKeysDistinct()
    ensures Distinct(SpecialTokens.keys)
  {
    var k := SpecialTokens.keys;
    assert |k[0]| == 13 && |k[1]| == 14 && |k[2]| == 14 && |k[3]| == 14 && |k[4]| == 15;
    assert k[1][6] == 'p' && k[2][6] == 'm' && k[3][6] == 's';
  }

  lemma SpecialIdsDistinct()
    requires Distinct(SpecialTokens.keys)
    ensures Injective(SpecialTokens)
  {
    var k := SpecialTokens.keys;
    forall a | a in SpecialTokens.items
      ensures (a == k[0] && SpecialTokens.items[a] == 100257) || (a == k[1] && SpecialTokens.items[a] == 100258) ||
        (a == k[2] && SpecialTokens.items[a] == 100259) || (a == k[3] && SpecialTokens.items[a] == 100260) ||
        (a == k[4] && SpecialTokens.items[a] == 100276)
    {
    }
  }

  /** Construction succeeds exactly when recovery, the vocab build and the
      byte shuffle do (GPT4_Tokenizer.py:51-57). */
  lemma InitSucceeds(mergeableRanks: Ranks)
    requires Valid(mergeableRanks)
    ensures InitSpec(mergeableRanks).Success? <==>
      && RecoverFrom(mergeableRanks, 0, Empty()).Success?
      && VocabFrom(RecoverFrom(mergeableRanks, 0, Empty()).value, 0, ByteVocab()).Success?
      && forall b: Byte :: Single(b) in mergeableRanks.items
  {
    ByteShuffleFacts(mergeableRanks.items);
  }

  /** A constructed tokenizer holds the recovered merges, sound and complete
      for the rank table, and the special-token tables, each special id
      mapping back to its literal (GPT4_Tokenizer.py:47-51). */
  lemma InitTables(mergeableRanks: Ranks)
    requires Valid(mergeableRanks) && InitSpec(mergeableRanks).Success?
    ensures var t := InitSpec(mergeableRanks).value;
      && t.merges == RecoverFrom(mergeableRanks, 0, Empty()).value
      && Sound(mergeableRanks.items, t.merges) && Complete(mergeableRanks.items, t.merges)
      && t.specialTokens == SpecialTokens
      && (forall name :: name in t.specialTokens.items ==>
            t.specialTokens.items[name] in t.inverseSpecialTokens
            && t.inverseSpecialTokens[t.specialTokens.items[name]] == name)
  {
    Recovered(mergeableRanks);
    SpecialTokensValid();
    forall name | name in SpecialTokens.items
      ensures SpecialTokens.items[name] in Invert(Items(SpecialTokens))
        && Invert(Items(SpecialTokens))[SpecialTokens.items[name]] == name
    {
      InvertItems(SpecialTokens, name);
    }
  }

  /** The parts a successful construction is made of. */
  lemma InitParts(mergeableRanks: Ranks)
    requires Valid(mergeableRanks) && InitSpec(mergeableRanks).Success?
    ensures RecoverFrom(mergeableRanks, 0, Empty()).Success?
    ensures VocabFrom(RecoverFrom(mergeableRanks, 0, Empty()).value, 0, ByteVocab()).Success?
    ensures ByteShuffle(mergeableRanks.items).Success?
    ensures InitSpec(mergeableRanks).value.merges == RecoverFrom(mergeableRanks, 0, Empty()).value
    ensures InitSpec(mergeableRanks).value.vocab ==
      VocabFrom(RecoverFrom(mergeableRanks, 0, Empty()).value, 0, ByteVocab()).value
    ensures InitSpec(mergeableRanks).value.byteShuffle == ByteShuffle(mergeableRanks.items).value
    ensures InitSpec(mergeableRanks).value.inverseByteShuffle ==
      Invert(Items(ByteShuffle(mergeableRanks.items).value))
  {
  }

  /** The vocab of a constructed tokenizer keeps the vocab invariant when
      the recovered merged ids are fresh (GPT4_Tokenizer.py:53-55). */
  lemma InitVocab(mergeableRanks: Ranks)
    requires Valid(mergeableRanks) && InitSpec(mergeableRanks).Success?
    requires FreshIds(InitSpec(mergeableRanks).value.merges)
    ensures Consistent(InitSpec(mergeableRanks).value.vocab, InitSpec(mergeableRanks).value.merges)
  {
    InitParts(mergeableRanks);
    VocabInvariant(InitSpec(mergeableRanks).value.merges);
  }

  /** The byte shuffle of a constructed tokenizer maps every byte to the rank
      of its single-byte token, and when no two bytes share a rank the
      inverse shuffle undoes it (GPT4_Tokenizer.py:57-58). */
  lemma InitShuffle(mergeableRanks: Ranks)
    requires Valid(mergeableRanks) && InitSpec(mergeableRanks).Success?
    ensures forall b: Byte :: Single(b) in mergeableRanks.items
    ensures var t := InitSpec(mergeableRanks).value;
      && (forall b: Byte :: b in t.byteShuffle.items && t.byteShuffle.items[b] == mergeableRanks.items[Single(b)])
      && (Injective(t.byteShuffle) ==> forall b: Byte ::
            t.byteShuffle.items[b] in t.inverseByteShuffle && t.inverseByteShuffle[t.byteShuffle.items[b]] == b)
  {
    var t := InitSpec(mergeableRanks).value;
    ByteShuffleFacts(mergeableRanks.items);
    InitParts(mergeableRanks);
    if Injective(t.byteShuffle) {
      forall b: Byte ensures t.byteShuffle.items[b] in t.inverseByteShuffle
        && t.inverseByteShuffle[t.byteShuffle.items[b]] == b
      {
        InvertItems(t.byteShuffle, b);
      }
    }
  }

  // ---------------------------------------------------------------------
  // _get_special_tokens

  /** The values `allowed_special` can take: a string, a set of literals, or
      anything else. */
  datatype AllowedSpecial =
    | Keyword(word: string)
    | Among(names: set<string>)
    | OtherValue

  /** `ValueError(f"allowed_special={allowed_special} not understood")` */
  datatype SpecialError = NotUnderstood(allowed: AllowedSpecial)

  /** The keys of `keys` that lie in `s`, in order. */
  function KeysIn(keys: seq<string>, s: set<string>): (r: seq<string>)
    ensures forall k :: k in r <==> k in keys && k in s
    ensures Distinct(keys) ==> Distinct(r)
  {
    if keys == [] then []
    else
      var rest := KeysIn(keys[1..], s);
      assert Distinct(keys) ==> keys[0] !in keys[1..] && Distinct(keys[1..]);
      if keys[0] in s then [keys[0]] + rest else rest
  }

  /** `{k: v for k, v in d.items() if k in s}` */
  function Restrict(d: Dict<string, Id>, s: set<string>): (r: Dict<string, Id>)
    requires Valid(d)
    ensures Valid(r)
    ensures forall k :: k in r.items <==> k in d.items && k in s
    ensures forall k :: k in r.items ==> r.items[k] == d.items[k]
  {
    Dict(KeysIn(d.keys, s), map k | k in d.items && k in s :: d.items[k])
  }

  /** _get_special_tokens (GPT4_Tokenizer.py:97-107): the special tokens the
      caller allows, always a sub-table of `self.special_tokens`. */
  function GetSpecialTokens(t: Tokenizer, allowed: AllowedSpecial): (r: Result<Dict<string, Id>, SpecialError>)
    requires Valid(t.specialTokens)
    ensures allowed == Keyword("all") ==> r == Success(t.specialTokens)
    ensures allowed == Keyword("none") || allowed == Keyword("none_raise") ==>
      r.Success? && r.value.items == map[]
    ensures allowed.Among? ==> (r.Success? &&
      forall k :: k in r.value.items <==> k in t.specialTokens.items && k in allowed.names)
    ensures r.Failure? <==>
      allowed.OtherValue? || (allowed.Keyword? && allowed.word !in {"all", "none", "none_raise"})
    ensures r.Success? ==> Valid(r.value) && forall k :: k in r.value.items ==>
      k in t.specialTokens.items && r.value.items[k] == t.specialTokens.items[k]
  {
    match allowed
    case Keyword(w) =>
      if w == "all" then Success(t.specialTokens)
      else if w == "none" then Success(Empty())
      else if w == "none_raise" then Success(Empty())
      else Failure(NotUnderstood(allowed))
    case Among(s) => Success(Restrict(t.specialTokens, s))
    case OtherValue => Failure(NotUnderstood(allowed))
  }

  // ---------------------------------------------------------------------
  // byte-level decode

  /** UTF-8 encoding of one character (section 3 of RFC 3629). */
  function Utf8Char(c: char): (bs: seq<Byte>)
    ensures 1 <= |bs| <= 4
    ensures (c as int < 0x80) <==> |bs| == 1
    ensures |bs| == 1 ==> bs[0] == c as int
    ensures forall i :: 1 <= i < |bs| ==> 0x80 <= bs[i] < 0xC0
  {
    var n := c as int;
    if n < 0x80 then [n]
    else if n < 0x800 then [0xC0 + n / 0x40, 0x80 + n % 0x40]
    else if n < 0x10000 then [0xE0 + n / 0x1000, 0x80 + n / 0x40 % 0x40, 0x80 + n % 0x40]
    else [0xF0 + n / 0x40000, 0x80 + n / 0x1000 % 0x40, 0x80 + n / 0x40 % 0x40, 0x80 + n % 0x40]
  }

  /** `s.encode("utf-8")` */
  function Utf8(s: string): seq<Byte>
  {
    if s == [] then [] else Utf8Char(s[0]) + Utf8(s[1..])
  }

  /** An ASCII string encodes to its own character codes. */
  lemma {:induction false} Utf8Ascii(s: string)
    requires forall i :: 0 <= i < |s| ==> s[i] as int < 0x80
    ensures |Utf8(s)| == |s|
    ensures forall i :: 0 <= i < |s| ==> Utf8(s)[i] == s[i] as int
  {
    if s != [] {
      Utf8Ascii(s[1..]);
      assert Utf8(s) == [s[0] as int] + Utf8(s[1..]);
    }
  }

  /** The five special literals are plain ASCII. */
  lemma SpecialTokensAscii(name: string)
    requires name in SpecialTokens.items
    ensures forall i :: 0 <= i < |name| ==> name[i] as int < 0x80
  {
  }

  /** In a constructed tokenizer, a special id outside the vocab decodes to the
      character codes of its literal, before the inverse byte shuffle. */
  lemma RenderSpecialLiteral(mergeableRanks: Ranks, name: string)
    requires Valid(mergeableRanks) && InitSpec(mergeableRanks).Success?
    requires name in SpecialTokens.items
    requires SpecialTokens.items[name] !in InitSpec(mergeableRanks).value.vocab
    ensures var t := InitSpec(mergeableRanks).value;
      && Render(t, [SpecialTokens.items[name]]).Success?
      && |Render(t, [SpecialTokens.items[name]]).value| == |name|
      && forall i :: 0 <= i < |name| ==> Render(t, [SpecialTokens.items[name]]).value[i] == name[i] as int
  {
    var t := InitSpec(mergeableRanks).value;
    InitTables(mergeableRanks);
    RenderSpecial(t, SpecialTokens.items[name]);
    SpecialTokensAscii(name);
    Utf8Ascii(name);
  }

  datatype Gpt4DecodeError =
    | UnknownToken(id: Id)  // neither in `self.vocab` nor a special id
    | UnknownByte(b: Byte)  // not a value of the byte shuffle

  /** The bytes one id stands for: its vocab entry, else the UTF-8 bytes of
      its special literal. */
  function Piece(t: Tokenizer, id: Id): Option<seq<Byte>>
  {
    if id in t.vocab then Some(t.vocab[id])
    else if id in t.inverseSpecialTokens then Some(Utf8(t.inverseSpecialTokens[id]))
    else None
  }

  /** Whether `decode` can render `id` at all. */
  predicate Known(t: Tokenizer, id: Id)
  {
    id in t.vocab || id in t.inverseSpecialTokens
  }

  /** `b"".join(...)` of GPT4_Tokenizer.py:93: the pieces of the ids in
      order, or a KeyError for the first id that has none. */
  function Render(t: Tokenizer, ids: seq<Id>): (r: Result<seq<Byte>, Gpt4DecodeError>)
    ensures r.Success? <==> forall x :: x in ids ==> Known(t, x)
    ensures r.Failure? ==> r.error.UnknownToken? && r.error.id in ids && !Known(t, r.error.id)
  {
    if ids == [] then Success([])
    else
      match Piece(t, ids[0])
      case None => assert ids[0] in ids; Failure(UnknownToken(ids[0]))
      case Some(piece) =>
        match Render(t, ids[1..])
        case Failure(e) => Failure(e)
        case Success(rest) => Success(piece + rest)
  }

  /** `bytes(self.inverse_byte_shuffle[b] for b in text_bytes)` */
  function Unshuffle(t: Tokenizer, bytes: seq<Byte>): (r: Result<seq<Byte>, Gpt4DecodeError>)
    ensures r.Success? <==> forall b :: b in bytes ==> b in t.inverseByteShuffle
    ensures r.Success? ==> (|r.value| == |bytes| &&
      forall i :: 0 <= i < |bytes| ==> r.value[i] == t.inverseByteShuffle[bytes[i]])
    ensures r.Failure? ==> r.error.UnknownByte? && r.error.b in bytes && r.error.b !in t.inverseByteShuffle
  {
    if bytes == [] then Success([])
    else if bytes[0] !in t.inverseByteShuffle then Failure(UnknownByte(bytes[0]))
    else
      match Unshuffle(t, bytes[1..])
      case Failure(e) => Failure(e)
      case Success(rest) => Success([t.inverseByteShuffle[bytes[0]]] + rest)
  }

  /** decode (GPT4_Tokenizer.py:92-95) up to the final UTF-8 decoding: the
      pieces of the ids, each byte mapped back through the inverse shuffle. */
  function Decode(t: Tokenizer, ids: seq<Id>): (r: Result<seq<Byte>, Gpt4DecodeError>)
    ensures r.Success? <==>
      && (forall x :: x in ids ==> Known(t, x))
      && (forall b :: b in Render(t, ids).value ==> b in t.inverseByteShuffle)
    ensures r.Success? ==> (Render(t, ids).Success? &&
      |r.value| == |Render(t, ids).value| &&
      forall i :: 0 <= i < |r.value| ==> r.value[i] == t.inverseByteShuffle[Render(t, ids).value[i]])
    ensures r.Failure? ==>
      || (r.error.UnknownToken? && r.error.id in ids && !Known(t, r.error.id))
      || (r.error.UnknownByte? && Render(t, ids).Success? && r.error.b in Render(t, ids).value
          && r.error.b !in t.inverseByteShuffle)
  {
    match Render(t, ids)
    case Failure(e) => Failure(e)
    case Success(bytes) => Unshuffle(t, bytes)
  }

  /** Ids of the vocab render as the plain vocab join of BPE.py's decode. */
  lemma {:induction false} RenderVocab(t: Tokenizer, ids: seq<Id>)
    requires forall x :: x in ids ==> x in t.vocab
    ensures Render(t, ids) == Success(Expand(t.vocab, ids))
  {
    if ids != [] {
      RenderVocab(t, ids[1..]);
    }
  }

  /** A special id outside the vocab renders as the UTF-8 bytes of its
      literal. */
  lemma RenderSpecial(t: Tokenizer, id: Id)
    requires id !in t.vocab && id in t.inverseSpecialTokens
    ensures Render(t, [id]) == Success(Utf8(t.inverseSpecialTokens[id]))
  {
    assert [id][1..] == [];
    assert Utf8(t.inverseSpecialTokens[id]) + [] == Utf8(t.inverseSpecialTokens[id]);
  }

  /** `bytes(self.byte_shuffle[b] for b in text_bytes)` of _encode_chunk
      (GPT4_Tokenizer.py:89): a byte without a shuffle entry raises KeyError,
      a rank of 256 or more is not a byte and raises ValueError. */
  datatype ShuffleError = NoShuffle(b: Byte) | NotAByte(rank: nat)

  function ShuffleChunk(t: Tokenizer, raw: seq<Byte>): (r: Result<seq<Byte>, ShuffleError>)
    ensures r.Success? <==> forall b :: b in raw ==> b in t.byteShuffle.items && t.byteShuffle.items[b] < 256
    ensures r.Success? ==> (|r.value| == |raw| &&
      forall i :: 0 <= i < |raw| ==> r.value[i] == t.byteShuffle.items[raw[i]])
    ensures r.Failure? && r.error.NoShuffle? ==> r.error.b in raw && r.error.b !in t.byteShuffle.items
    ensures r.Failure? && r.error.NotAByte? ==>
      exists b :: b in raw && b in t.byteShuffle.items && t.byteShuffle.items[b] == r.error.rank >= 256
  {
    if raw == [] then Success([])
    else if raw[0] !in t.byteShuffle.items then Failure(NoShuffle(raw[0]))
    else
      var v := t.byteShuffle.items[raw[0]];
      if v >= 256 then Failure(NotAByte(v))
      else
        match ShuffleChunk(t, raw[1..])
        case Failure(e) => Failure(e)
        case Success(rest) => Success([v as Byte] + rest)
  }

  /** Shuffle a chunk's bytes as _encode_chunk does (GPT4_Tokenizer.py:89),
      replay the recovered merges on them locally, and decode
      (GPT4_Tokenizer.py:92-95): the chunk comes back, whenever the merged ids
      are fresh and no two single bytes share a rank. The source itself does
      not take this path: it hands the shuffled bytes to tiktoken as text. */
  lemma ChunkRoundTrip(mergeableRanks: Ranks, raw: seq<Byte>)
    requires Valid(mergeableRanks) && InitSpec(mergeableRanks).Success?
    requires var t := InitSpec(mergeableRanks).value;
      FreshIds(t.merges) && Injective(t.byteShuffle)
    requires ShuffleChunk(InitSpec(mergeableRanks).value, raw).Success?
    ensures var t := InitSpec(mergeableRanks).value;
      Decode(t, EncodeFrom(t.merges.items, ShuffleChunk(t, raw).value)) == Success(raw)
  {
    var t := InitSpec(mergeableRanks).value;
    InitVocab(mergeableRanks);
    InitShuffle(mergeableRanks);
    var shuffled := ShuffleChunk(t, raw).value;
    var ids := EncodeFrom(t.merges.items, shuffled);
    EncodeRoundTrip(t.vocab, t.merges, shuffled);
    assert BpeVocab.Decode(t.vocab, ids) == Success(shuffled);
    RenderVocab(t, ids);
    var back := Unshuffle(t, shuffled);
    assert back.Success?;
    assert back.value == raw;
  }
}
