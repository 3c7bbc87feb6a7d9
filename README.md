# Byte-pair encoding tokenizer, modelled in Dafny

This project models the core of a small byte-pair encoding (BPE) tokenizer
repository and proves properties of it. The repository has two parts.

- `GPT_Tokenizer/BPE.py` trains a BPE tokenizer on UTF-8 bytes:
  - `get_stats` counts adjacent pairs;
  - `merge` replaces every non-overlapping occurrence of a pair by a new id;
  - the training loop records the most frequent pair as id `256 + i` in round `i`;
  - the vocab maps every id to the bytes it stands for;
  - `encode` replays the merges, earliest-learned first;
  - `decode` joins vocab entries.
- `GPT_Tokenizer/GPT4_Tokenizer.py` rebuilds pairwise merges from the flat
  `mergeable_ranks` table of a byte-string tokenizer:
  - `bpe` merges inside a token by rank, optionally below a rank limit;
  - `recover_merges` splits every multi-byte token in two under its own rank;
  - `GPT4Tokenizer.__init__` builds the vocab, the byte shuffle and its inverse;
  - `_get_special_tokens` chooses the allowed special tokens;
  - `decode` renders ids and undoes the byte shuffle.

Modules, one per part of the program:

| file | module | models |
|---|---|---|
| `wrappers.dfy` | `Wrappers` | `Option` and `Result` |
| `dicts.dfy` | `Dicts` | insertion-ordered Python dicts (`keys` in insertion order, `items` as a map) |
| `pair_stats.dfy` | `PairStats` | `get_stats`, and `max(stats, key=stats.get)` |
| `merge_step.dfy` | `MergeStep` | `merge` |
| `training.dfy` | `Training` | the training loop |
| `vocab.dfy` | `Vocab` | the vocab build and `decode` of BPE.py (the same build loop is in `GPT4Tokenizer.__init__`) |
| `encoding.dfy` | `Encoding` | `encode` of BPE.py |
| `rank_bpe.dfy` | `RankBpe` | `bpe` |
| `merge_recovery.dfy` | `MergeRecovery` | `recover_merges` |
| `gpt4.dfy` | `Gpt4` | `GPT4Tokenizer.__init__`, `_get_special_tokens`, `decode` and the byte shuffle of `_encode_chunk` |

Each loop of the source is a `method` whose `ensures` ties its result to a
recursive function. The properties are proved as lemmas about those
functions. Python exceptions become `Failure` values of a `Result`:
- `KeyError` from a missing dict key;
- `ValueError` from `max` of an empty dict;
- the `assert` in `recover_merges`.

`GPT4Tokenizer` is never changed after `__init__`. It is therefore a datatype
built by `Gpt4.Init`. The tiktoken table `mergeable_ranks` is a parameter of
`Gpt4.Init`.

## Model

| member | source | states |
|---|---|---|
| Dicts.Put | GPT_Tokenizer/BPE.py:14 | assigning a key gives the updated map, keeps the dict well formed, and keeps an existing key in its insertion position |
| Dicts.InvertItems | GPT_Tokenizer/GPT4_Tokenizer.py:48 | `{v: k for k, v in d.items()}` of an injective dict maps each value back to its key |
| PairStats.GetStats | GPT_Tokenizer/BPE.py:11-15 | the loop builds the counts dict that counting the pairs of `zip(ids, ids[1:])` one by one gives |
| PairStats.Pairs | GPT_Tokenizer/BPE.py:13 | `zip(ids, ids[1:])` has one pair per position `i < len(ids) - 1`, namely `(ids[i], ids[i+1])` |
| PairStats.StatsCounts | GPT_Tokenizer/BPE.py:11-15 | the keys are exactly the adjacent pairs; each value is that pair's number of occurrences; fewer than two ids give an empty dict |
| PairStats.StatsOrder | GPT_Tokenizer/BPE.py:11-15 | the keys are listed in order of each pair's first occurrence in `ids` |
| PairStats.StatsSum | GPT_Tokenizer/BPE.py:11-15 | the counts sum to `len(ids) - 1` for non-empty `ids` |
| PairStats.StatsKeys | GPT_Tokenizer/BPE.py:11-15 | two or more ids give at least one key, and every key occurs in `ids` |
| PairStats.TallyCounts | GPT_Tokenizer/BPE.py:12-14 | counting a list of pairs keeps one key per distinct pair, holding its multiplicity |
| PairStats.TallyOrder | GPT_Tokenizer/BPE.py:12-14 | the keys of the counted pairs are in order of first occurrence |
| PairStats.TallySum | GPT_Tokenizer/BPE.py:12-14 | the counts add up to the number of pairs counted |
| PairStats.ArgMax | GPT_Tokenizer/BPE.py:40 | `max(stats, key=stats.get)`: the chosen key's count is at least every count, and strictly greater than the count of every earlier key |
| PairStats.FirstPos | GPT_Tokenizer/BPE.py:13 | the position of an occurring pair's first occurrence: the pair is there, and at no earlier position |
| MergeStep.Merge | GPT_Tokenizer/BPE.py:19-29 | the scan returns `Merged(ids, pair, idx)`, the left-to-right replacement of non-overlapping occurrences |
| MergeStep.MergeLength | GPT_Tokenizer/BPE.py:19-29 | the output is shorter by the number of replacements; there is a replacement iff the pair occurs; without one the input comes back unchanged |
| MergeStep.MergedElements | GPT_Tokenizer/BPE.py:19-29 | every output id is the new id or an input id |
| MergeStep.MergedAdjacency | GPT_Tokenizer/BPE.py:19-29 | two adjacent output ids were adjacent in the input unless one of them is the new id |
| MergeStep.MergeRemovesPair | GPT_Tokenizer/BPE.py:18-29 | when the new id is neither half of the pair, the pair no longer occurs in the output |
| Training.Train | GPT_Tokenizer/BPE.py:33-44 | the loop gives the merges and working ids of `TrainFrom`, or the round in which `max` met an empty stats dict |
| Training.MostFrequentIsMax | GPT_Tokenizer/BPE.py:39-40 | the chosen pair occurs, no pair occurs more often, and among pairs with the same count it occurs first |
| Training.MostFrequentHasMaxCount | GPT_Tokenizer/BPE.py:39-40 | the chosen pair occurs and has the largest count |
| Training.MostFrequentIsFirst | GPT_Tokenizer/BPE.py:39-40 | among pairs with the largest count, the chosen one occurs first |
| Training.TrainStep | GPT_Tokenizer/BPE.py:39-44 | one round records a pair that occurs and was not yet recorded, and keeps the training invariant |
| Training.TrainFromFacts | GPT_Tokenizer/BPE.py:38-44 | the invariant holds after the last round, and each round shortens the working ids by at least one |
| Training.TrainFromExtends | GPT_Tokenizer/BPE.py:38-44 | later rounds never change an entry already recorded |
| Training.TrainedIds | GPT_Tokenizer/BPE.py:38-44 | after `n` rounds there are `n` merges; the `i`-th has id `256 + i`; both halves are bytes or earlier merges; the ids are fresh; the working ids are at least `n` shorter than the corpus |
| Training.TrainFromConserves | GPT_Tokenizer/BPE.py:38-44 | the rounds keep every working id in the vocab and keep the bytes the ids expand to |
| Training.TrainedDecode | GPT_Tokenizer/BPE.py:38-56 | the vocab built from the learned merges decodes the final working ids back to the corpus bytes |
| Vocab.ByteVocabUpTo | GPT_Tokenizer/BPE.py:51 | `{idx: bytes([idx]) for idx in range(n)}` holds exactly the ids below `n`, each mapped to its own byte |
| Vocab.BuildVocab | GPT_Tokenizer/BPE.py:51-53 | the loop gives the vocab of `VocabFrom`, or the first missing id |
| Vocab.VocabInvariant | GPT_Tokenizer/BPE.py:51-53 | for merges with fresh ids, listed in order or built without error: the build succeeds; bytes map to themselves; every merge id maps to the join of its halves; every id is a byte or a merge id; merge ids stand for at least two bytes |
| Vocab.BuildFromOrdered | GPT_Tokenizer/BPE.py:52-53 | when every merge uses only bytes and earlier merges, no `vocab[p0]` or `vocab[p1]` lookup fails |
| Vocab.BuiltConsistent | GPT_Tokenizer/BPE.py:51-53 | a completed build maps bytes to themselves and each merge id to the join of its halves |
| Vocab.Decode | GPT_Tokenizer/BPE.py:55-57 | decoding succeeds iff every id is in the vocab; otherwise the error names an id missing from the vocab |
| Vocab.FirstUnknown | GPT_Tokenizer/BPE.py:56 | the `KeyError` is raised at the first unknown id |
| Vocab.MergePreservesBytes | GPT_Tokenizer/BPE.py:43 | when the new id stands for its pair's bytes, `merge` keeps every id in the vocab and keeps the expanded bytes |
| Encoding.ArgMinRank | GPT_Tokenizer/BPE.py:65 | `min(stats, key=merges.get(p, inf))`: no key has a lower rank, and every earlier key has a strictly higher one |
| Encoding.Encode | GPT_Tokenizer/BPE.py:60-70 | the loop returns `EncodeFrom(merges, bytes)` |
| Encoding.LowestMergeSelection | GPT_Tokenizer/BPE.py:63-67 | the pair looked at occurs; it is learned iff some occurring pair is learned; when it is, its id is the smallest among the learned occurring pairs |
| Encoding.EncodeFinal | GPT_Tokenizer/BPE.py:60-70 | encode never lengthens its input, and no adjacent pair of its output is learned |
| Encoding.EncodeKeepsBytes | GPT_Tokenizer/BPE.py:60-70 | with a consistent vocab, encode keeps every id in the vocab and keeps the expanded bytes |
| Encoding.EncodeRoundTrip | GPT_Tokenizer/BPE.py:78 | `decode(encode(text))` gives `text` back for any merges with a consistent vocab |
| Encoding.TrainedRoundTrip | GPT_Tokenizer/BPE.py:78 | `decode(encode(text)) == text` for the merges and vocab that training on any corpus learns |
| RankBpe.Singletons | GPT_Tokenizer/GPT4_Tokenizer.py:15 | `[bytes([b]) for b in token]` has one single-byte part per byte |
| RankBpe.Scan | GPT_Tokenizer/GPT4_Tokenizer.py:17-23 | the inner loop finds no rank iff no concatenation looked at is ranked; otherwise the leftmost position with the lowest rank |
| RankBpe.MergeAt | GPT_Tokenizer/GPT4_Tokenizer.py:27 | joining two neighbouring parts removes one part and keeps the bytes |
| RankBpe.Bpe | GPT_Tokenizer/GPT4_Tokenizer.py:14-28 | the loop returns `BpeFrom(ranks, singletons(token), max_rank)` |
| RankBpe.BpeJoin | GPT_Tokenizer/GPT4_Tokenizer.py:14-28 | the parts join back to the input, are never more than the input parts, and are non-empty for a non-empty input |
| RankBpe.BpeWellSplit | GPT_Tokenizer/GPT4_Tokenizer.py:14-28 | every multi-byte part is in the table and ranked below `max_rank` |
| RankBpe.BpeStops | GPT_Tokenizer/GPT4_Tokenizer.py:24-25 | bpe stops only when every ranked neighbouring concatenation is at or above `max_rank` |
| RankBpe.BpeOfToken | GPT_Tokenizer/GPT4_Tokenizer.py:14-28 | for a token: the parts join to the token, are well split, number between 1 and `len(token)` for a non-empty token, and none can be merged further |
| MergeRecovery.RecoverMerges | GPT_Tokenizer/GPT4_Tokenizer.py:30-40 | the loop gives the merges of `RecoverFrom`, or the token whose split failed |
| MergeRecovery.SplitMeaning | GPT_Tokenizer/GPT4_Tokenizer.py:35-36 | the two halves of a token are non-empty and join to it, and each multi-byte half is ranked below the token |
| MergeRecovery.RecoverSucceeds | GPT_Tokenizer/GPT4_Tokenizer.py:32-39 | the loop from token `k` succeeds iff every remaining token of length other than 1 splits into two ranked halves |
| MergeRecovery.RecoverKeeps | GPT_Tokenizer/GPT4_Tokenizer.py:32-39 | after the loop, every entry comes from a processed token and every multi-byte token has its entry |
| MergeRecovery.Recovered | GPT_Tokenizer/GPT4_Tokenizer.py:30-40 | `recover_merges` succeeds iff every token of length other than 1 splits into two ranked halves; then each entry `(rank(a), rank(b)) -> rank` comes from a token of that rank with halves `a`, `b`, and every such token is recorded |
| Gpt4.SpecialTokensValid | GPT_Tokenizer/GPT4_Tokenizer.py:6-12 | the five special literals are distinct and have distinct ids |
| Gpt4.ByteShuffleFacts | GPT_Tokenizer/GPT4_Tokenizer.py:57 | the byte shuffle exists iff every single byte has a rank; then it lists bytes 0..255 in order, each with its rank; otherwise the error names the lowest byte without one |
| Gpt4.ShuffleFromFacts | GPT_Tokenizer/GPT4_Tokenizer.py:57 | the comprehension from byte `i` on succeeds iff bytes `i..255` all have ranks, and then fills in every byte |
| Gpt4.Init | GPT_Tokenizer/GPT4_Tokenizer.py:43-58 | construction gives the tables of `InitSpec`, or the first error raised |
| Gpt4.InitSucceeds | GPT_Tokenizer/GPT4_Tokenizer.py:51-57 | construction succeeds iff merge recovery, the vocab build and the byte shuffle all do |
| Gpt4.InitTables | GPT_Tokenizer/GPT4_Tokenizer.py:47-51 | the tokenizer holds the recovered merges, sound and complete for the table, the special tokens, and an inverse mapping each special id back to its literal |
| Gpt4.InitVocab | GPT_Tokenizer/GPT4_Tokenizer.py:53-55 | when the recovered ids are fresh, the vocab maps bytes to themselves and each merge rank to the join of its halves |
| Gpt4.InitShuffle | GPT_Tokenizer/GPT4_Tokenizer.py:57-58 | every byte is shuffled to the rank of its single-byte token; when no two bytes share a rank the inverse shuffle undoes it |
| Gpt4.KeysIn | GPT_Tokenizer/GPT4_Tokenizer.py:105 | the filtered keys are exactly those in the allowed set, without repeats |
| Gpt4.Restrict | GPT_Tokenizer/GPT4_Tokenizer.py:105 | the filtered dict holds exactly the allowed keys, each with its original id |
| Gpt4.GetSpecialTokens | GPT_Tokenizer/GPT4_Tokenizer.py:97-107 | `"all"` gives every special token; `"none"` and `"none_raise"` give none; a set gives exactly the listed special tokens; any other value raises; a result is always a sub-dict of the special tokens |
| Gpt4.Utf8Char | GPT_Tokenizer/GPT4_Tokenizer.py:93 | a character encodes to 1 to 4 bytes, one byte iff it is ASCII, then its own code; continuation bytes lie in `0x80..0xBF` |
| Gpt4.Utf8Ascii | GPT_Tokenizer/GPT4_Tokenizer.py:93 | an ASCII literal such as a special token encodes to its own character codes |
| Gpt4.Render | GPT_Tokenizer/GPT4_Tokenizer.py:93 | rendering succeeds iff every id is in the vocab or a special id; otherwise the error names such an id |
| Gpt4.RenderVocab | GPT_Tokenizer/GPT4_Tokenizer.py:93 | ids of the vocab render as the plain vocab join |
| Gpt4.RenderSpecial | GPT_Tokenizer/GPT4_Tokenizer.py:93 | a special id outside the vocab renders as the UTF-8 bytes of its literal |
| Gpt4.Unshuffle | GPT_Tokenizer/GPT4_Tokenizer.py:94 | unshuffling succeeds iff every byte has an inverse; then each byte is replaced by its inverse; otherwise the error names such a byte |
| Gpt4.ShuffleChunk | GPT_Tokenizer/GPT4_Tokenizer.py:89 | shuffling succeeds iff every byte has a shuffle value below 256; then each byte is replaced by it; the error names a missing byte or a value that is not a byte |
| Gpt4.Decode | GPT_Tokenizer/GPT4_Tokenizer.py:92-95 | decoding succeeds iff every id is in the vocab or a special id and every rendered byte has an inverse; then each rendered byte, special-literal bytes included, is replaced by its inverse; otherwise the error names the unknown id or byte |
| Gpt4.SpecialTokensAscii | GPT_Tokenizer/GPT4_Tokenizer.py:6-12 | every special literal is plain ASCII |
| Gpt4.RenderSpecialLiteral | GPT_Tokenizer/GPT4_Tokenizer.py:93 | in a constructed tokenizer, a special id outside the vocab renders to the character codes of its literal |
| Gpt4.ChunkRoundTrip | GPT_Tokenizer/GPT4_Tokenizer.py:89 | shuffle a chunk as line 89 does, replay the recovered merges locally (not tiktoken), and decode (lines 92-95): the chunk comes back when the recovered ids are fresh and no two bytes share a rank |

## Left out

- The sample texts, the `print` calls and the regex demonstration of BPE.py (lines 1-9, 42, 46-48, 72-84) are not modelled. Training takes the corpus bytes and the number of merges as parameters; `vocal_size = 276` only fixes that number at 20.
- The training loop does not stop early when fewer than two ids remain: the next round's `max` of an empty dict raises `ValueError`. `Training.TrainFrom` returns `Failure(NoPairs(round))` for that round.
- UTF-8 decoding with `errors="replace"` (BPE.py:57, GPT4_Tokenizer.py:95) is not modelled. Both decoders return the bytes before that step. Replacement-character handling would need a full UTF-8 decoder.
- `str.encode("utf-8")` of the input text (BPE.py:62, GPT4_Tokenizer.py:83) is not modelled. `Encoding.Encode` takes the bytes. Only the special literals are encoded, by `Gpt4.Utf8`.
- Everything that calls tiktoken is not modelled:
  - `tiktoken.get_encoding` (GPT4_Tokenizer.py:44); `mergeable_ranks` is a parameter of `Gpt4.Init`;
  - the `"all"` path of `encode` (lines 61-62);
  - `self.enc.encode_ordinary` in `_encode_chunk` (line 90);
  - `token_to_id`, `id_to_token` and `get_vocab` (lines 109-116).
  The tiktoken library is not part of this model.
- The source's own chunk path does not round-trip through `decode`, and the model does not capture that path. `_encode_chunk` (GPT4_Tokenizer.py:89-90) shuffles the bytes, decodes them as UTF-8 text with `errors="replace"`, and hands that text to tiktoken, which encodes the text's own bytes. `decode` (lines 92-95) maps those ids back to the bytes tiktoken encoded. It therefore returns the shuffled text's bytes, not the chunk. For example, in cl100k_base `b"a"` has rank 64, which is `"@"`.
- Gpt4.ChunkRoundTrip: replays the recovered merges locally on the shuffled bytes instead of calling tiktoken on text. It states the round trip for that replay only, not for the source's `_encode_chunk`.
- The regex pre-splitting of `encode` and `encode_ordinary` (GPT4_Tokenizer.py:64-86) is not modelled. The `regex` module's Unicode classes are outside this model.
- `render_token` (GPT4_Tokenizer.py:118-119) and the usage example (lines 121-165) are not modelled. They need Unicode general categories and print.
- Gpt4.GetSpecialTokens: the dict built from a set keeps the special tokens' order (`Gpt4.KeysIn`), but its contract states only which keys and ids it holds, not their order.
- Gpt4.ChunkRoundTrip and Gpt4.InitVocab: require that the recovered ranks are fresh ids (`FreshIds`), as for a table built by training. Gpt4.ChunkRoundTrip and Gpt4.InitShuffle also require that no two bytes share a rank (`Injective`). The source relies on both for cl100k_base without checking them.
- Vocab.VocabInvariant: for merges not in learning order, it promises success of the build only when the build succeeded. BPE.py's own training always gives ordered merges (`Training.TrainedIds`).
- Integers are unbounded, as Python's are. Ids and ranks are `nat`, and bytes are `nat` below 256.
