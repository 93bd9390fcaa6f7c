# simsearch: a verified model of the in-memory fuzzy index

`simsearch` is a small fuzzy-search library. A `SimSearch<Id>` engine holds
identifiers together with the tokens of their text. A query is tokenized the
same way. Every indexed token that is similar enough to a query token
(Jaro-Winkler similarity strictly above a threshold) adds its score to the
entries that hold it, and the identifiers come back best total first.

This project models `src/lib.rs`: the tokenizer, the engine's bookkeeping
(`insert`, `insert_tokens`, `delete`), the search (`search`, `search_tokens`)
and the `SearchOptions` builder. It proves what these promise.

Modules, following the parts of `src/lib.rs`:

- `Wrappers`: `Option`, the model of Rust's `Option`.
- `Text`: the order Rust's `String` sorts by (`Less`), sort-and-dedup (`Canon`), and substring search (`Find`, `IsInfix`).
- `Options`: `SearchOptions`, its defaults and its four setters, as a datatype with struct-update members.
- `Tokenizer`: the pieces of `tokenize` as functions, and `Tokens`, the tokenizer as one specification function:
  - case folding;
  - `split_whitespace`;
  - `split_terminator`, including its behaviour for an empty pattern;
  - dropping empty strings.
- `Index`: the engine's three structures as a value `State`.
  - The fields are `ids` (an append-only slot table with `None` tombstones), `forward` (slot to its tokens) and `reverse` (token to its slots).
  - `Consistent` is the invariant linking them.
  - `Delete` and `InsertTokens` are what the two mutators do to a `State`.
  - `TokenScore`, `Scores`, `Total` and `Matches` say what a search computes.
  - The lemmas state what the index promises.
- `Ranking`: the `sort_by` step on `(slot, total)` pairs, and the `drain().collect()` that feeds it.
- `Engine`: the class `SimSearch`, with the fields `ids`, `forwardMap` and `reverseMap`.
  - `delete` and `insert_tokens` update the fields in place, with loops over the tokens.
  - Each mutator is proved to leave `Model()` equal to the `Index` function of the old model.
  - Each mutator keeps `Valid()`, which is `Consistent(Model())`.
  - `search_tokens` runs the source's nested loops over the vocabulary and the buckets. Its result is proved to be exactly the identifiers of the matching slots, each once, ordered by non-increasing total.

The similarity function (`strsim::jaro_winkler`) is the parameter `sim` of
`Search` and `SearchTokens`; it is left uninterpreted, so everything proved
about search holds for any similarity function. Scores and the threshold are
exact reals.

Two details of the scoring:

- A vocabulary token can beat the threshold against several query tokens. It then keeps its score against the last such query token in sorted order, because `HashMap::insert` overwrites (src/lib.rs:183-189). That score is neither the maximum nor the sum. `Index.TokenScoreSpec` states this rule.
- The threshold is not validated, and `Options.SearchOptions.Threshold` accepts any real.

## Model

| member | source | states |
|---|---|---|
| Options.Default | src/lib.rs:286-293 | the defaults: case-insensitive, split on whitespace, no stop words, threshold 0.8 |
| Options.SearchOptions.CaseSensitive | src/lib.rs:298-303 | sets the case flag and leaves the other three options unchanged |
| Options.SearchOptions.StopWhitespace | src/lib.rs:311-316 | sets the whitespace flag and leaves the other three options unchanged |
| Options.SearchOptions.StopWords | src/lib.rs:338-340 | sets the stop-word list and leaves the other three options unchanged |
| Options.SearchOptions.Threshold | src/lib.rs:349-351 | sets the threshold and leaves the other three options unchanged |
| Options.SettersCommute | src/lib.rs:298-351 | setters of different options give the same configuration in either order |
| Options.SetterLastWins | src/lib.rs:298-351 | setting the same option twice keeps the second value |
| Text.Less | src/lib.rs:119 | the order `Ord for String` uses to `sort` the tokens, also at src/lib.rs:178: lexicographic by code point, a proper prefix first; a definition whose meaning `Text.LessIrreflexive`, `Text.LessTransitive` and `Text.LessTotal` state |
| Text.LessIrreflexive | src/lib.rs:119 | no string sorts before itself |
| Text.LessTransitive | src/lib.rs:119 | the string order used by `sort` is transitive |
| Text.LessTotal | src/lib.rs:119 | any two different strings are ordered one way or the other |
| Text.InsertSorted | src/lib.rs:119-120 | inserting into a strictly sorted sequence keeps it strictly sorted and adds exactly the new string |
| Text.Canon | src/lib.rs:119-120 | `sort` then `dedup` gives a strictly sorted sequence with exactly the input's strings |
| Text.SortedUnique | src/lib.rs:119-120 | two strictly sorted sequences with the same strings are equal, so the sorted, deduplicated result is unique |
| Text.Find | src/lib.rs:256 | the leftmost occurrence of the pattern, or None exactly when it occurs nowhere |
| Tokenizer.Fold | src/lib.rs:236-240 | `to_lowercase` unless case sensitive; a definition with no contract of its own, used by `Tokenizer.TokensAreInfixes` and `Tokenizer.TokensOfCleanFragment` |
| Tokenizer.Lower | src/lib.rs:236-240 | lower-cases each ASCII capital letter and keeps every other character; a definition, see "Left out" |
| Tokenizer.FoldAll | src/lib.rs:233-241 | the `map(...).collect()` that folds every fragment, one result per fragment in order; a definition used by `Tokenizer.Tokens` and `Tokenizer.TokensAreInfixes` |
| Tokenizer.IsWhitespace | src/lib.rs:246 | `char::is_whitespace`, the Unicode White_Space characters that `split_whitespace` splits on; a definition, see "Left out" |
| Tokenizer.SplitWhitespace | src/lib.rs:246 | `split_whitespace`; a definition whose meaning `Tokenizer.SplitWhitespacePieces` and `Tokenizer.SplitWhitespaceConcat` state |
| Tokenizer.WordLength | src/lib.rs:246 | the length of the maximal run of non-whitespace characters that starts the string: every character in it is non-whitespace and the next one is whitespace |
| Tokenizer.SplitTerminator | src/lib.rs:256 | `split_terminator`: the pieces of `split` without a trailing empty one; a definition whose meaning `Tokenizer.SplitTerminatorPieces` and `Tokenizer.SplitOnJoin` state |
| Tokenizer.SplitAllWhitespace | src/lib.rs:243-248 | `flat_map(split_whitespace)`: the pieces of each fragment in fragment order; a definition whose meaning `Tokenizer.SplitAllWhitespaceSound` states |
| Tokenizer.SplitAllTerminator | src/lib.rs:254-258 | the `flat_map(split_terminator)` pass of one stop word, the pieces of each token in order; a definition whose meaning `Tokenizer.SplitAllTerminatorSound` and `Tokenizer.StopSplitSnoc` state |
| Tokenizer.StopSplit | src/lib.rs:253-259 | the `split_terminator` pass of each stop word in order; a definition whose meaning `Tokenizer.StopSplitSnoc` and `Tokenizer.StopSplitSound` state |
| Tokenizer.Tokens | src/lib.rs:232-264 | `tokenize`: the reference definition that `Engine.SimSearch.Tokenize` is proved equal to, and the subject of the `Tokens*` lemmas |
| Tokenizer.SplitOn | src/lib.rs:256 | `split` always yields at least one piece |
| Tokenizer.NonEmptyOnly | src/lib.rs:261 | `retain` keeps exactly the non-empty strings |
| Tokenizer.SplitWhitespacePieces | src/lib.rs:246 | every piece of `split_whitespace` is non-empty, holds no whitespace and is a substring of its input |
| Tokenizer.SplitOnPieces | src/lib.rs:256 | every piece of `split` is a substring of its input and contains no non-empty pattern |
| Tokenizer.SplitTerminatorPieces | src/lib.rs:256 | the same for `split_terminator` |
| Tokenizer.SplitAllWhitespaceSound | src/lib.rs:243-251 | after the whitespace pass every piece is non-empty, free of whitespace and a substring of some input fragment |
| Tokenizer.SplitAllTerminatorSound | src/lib.rs:254-258 | one stop-word pass yields substrings of the pieces, none holding that stop word |
| Tokenizer.StopSplitSnoc | src/lib.rs:253-259 | each further stop word adds one `split_terminator` pass over the pieces so far |
| Tokenizer.StopSplitFromInput | src/lib.rs:253-259 | after all stop-word passes every piece is a substring of an input piece |
| Tokenizer.StopSplitAvoids | src/lib.rs:253-259 | after all stop-word passes no piece holds a non-empty stop word |
| Tokenizer.StopSplitSound | src/lib.rs:253-259 | after all stop-word passes every piece is a substring of an input piece and holds none of the non-empty stop words |
| Tokenizer.SplitOnJoin | src/lib.rs:256 | joining the pieces of `split` with the pattern gives back the input, for every pattern, the empty one included |
| Tokenizer.SplitWhitespaceConcat | src/lib.rs:246 | the pieces of `split_whitespace`, concatenated, are exactly the input's non-whitespace characters in order |
| Tokenizer.SplitTerminatorAbsent | src/lib.rs:256 | a pattern that does not occur leaves a non-empty string as its only piece |
| Tokenizer.StopSplitAbsent | src/lib.rs:253-259 | stop words that do not occur leave a single non-empty piece alone |
| Tokenizer.SplitWhitespaceWord | src/lib.rs:246 | a non-empty string without whitespace is its own single piece |
| Tokenizer.TokensOfCleanFragment | src/lib.rs:232-264 | a fragment whose folded form is non-empty, holds no whitespace when whitespace splits and contains no stop word comes out as exactly one token, that folded form |
| Tokenizer.TokensNonEmpty | src/lib.rs:261 | no token is empty |
| Tokenizer.TokensAreInfixes | src/lib.rs:232-264 | each token is a contiguous substring of the case-folded form of one of the fragments |
| Tokenizer.TokensHaveNoWhitespace | src/lib.rs:243-251 | with `stop_whitespace` set, no token contains whitespace |
| Tokenizer.TokensAvoidStopWords | src/lib.rs:253-259 | no token contains a non-empty configured stop word |
| Index.Consistent | src/lib.rs:209-211 | the invariant the code relies on when it unwraps: a slot is live exactly when it has a forward entry, it is in a token's bucket exactly when it is live with that token, entries are sorted, buckets and live ids are distinct; a definition kept by `Index.Run` and `Engine.SimSearch.Valid` |
| Index.EmptyConsistent | src/lib.rs:54-61 | the empty engine satisfies the consistency invariant |
| Index.FindSlot | src/lib.rs:219 | `position`: the first slot holding `Some(id)`, or None exactly when no slot holds it |
| Index.FindSlotUnique | src/lib.rs:219 | with unique ids, any slot holding `id` is the one `position` finds |
| Index.Without | src/lib.rs:225 | `retain` with the test `*i != slot` keeps exactly the other slots, keeps them distinct, and changes nothing when the slot is absent |
| Index.OnlySlot | src/lib.rs:219 | with unique ids, no slot but the found one holds `id` |
| Index.RemoveSlotTombstones | src/lib.rs:220-229 | filtering the slot out of the buckets of its own tokens removes it from every bucket, since no other bucket holds it |
| Index.TombstoneSound | src/lib.rs:220-229 | after tombstoning, every slot left in a bucket is live and holds that bucket's token |
| Index.TombstoneSoundAt | src/lib.rs:220-229 | the same for one bucket and one slot |
| Index.TombstoneComplete | src/lib.rs:220-229 | after tombstoning, every token of a live slot still has a bucket holding that slot |
| Index.TombstoneUnique | src/lib.rs:228 | writing `None` into a slot keeps its live ids distinct |
| Index.RemoveSlot | src/lib.rs:221-226 | the buckets after the loop of `delete`: the slot filtered out of the buckets of the given tokens, others kept; a definition reached by `Engine.SimSearch.FilterBuckets` |
| Index.TombstoneConsistent | src/lib.rs:220-229 | tombstoning a slot and filtering it from every bucket keeps the invariant |
| Index.Delete | src/lib.rs:218-230 | delete keeps the invariant and the bucket keys, leaves `id` live nowhere, and changes nothing when `id` is not live |
| Index.DeleteEffect | src/lib.rs:218-230 | after deleting a live id its slot is `None`, gone from the forward map and from every bucket, and all other slots and buckets are untouched |
| Index.DeleteIdempotent | src/lib.rs:218-230 | deleting twice is deleting once |
| Index.AddSlot | src/lib.rs:122-127 | the buckets after the loop of `insert_tokens`: the slot pushed onto the bucket of each given token, creating it when missing; a definition reached by `Engine.SimSearch.ExtendBuckets` |
| Index.Place | src/lib.rs:115-129 | what `insert_tokens` does after its `delete`: push `Some(id)`, extend the buckets, record the forward entry; a definition whose meaning `Index.PlaceConsistent` and `Index.InsertTokens` state |
| Index.PlaceForward | src/lib.rs:115-129 | appending a slot with sorted tokens keeps forward entries exactly on live slots, each token of a live slot in a bucket, and every entry sorted |
| Index.PlaceBucketAt | src/lib.rs:122-127 | proof step for the loops, unfolding the definitions: after appending, each bucket of one of the new tokens is its old bucket (or empty) plus the new slot, and every other bucket is unchanged |
| Index.PlaceBuckets | src/lib.rs:122-127 | pushing the new slot keeps every bucket free of repeats |
| Index.PlaceSound | src/lib.rs:115-129 | after appending, every slot in a bucket is live and holds that bucket's token |
| Index.PlaceUnique | src/lib.rs:115-116 | pushing `Some(id)` for an id that is live nowhere keeps the live ids distinct |
| Index.PlaceConsistent | src/lib.rs:115-129 | appending a fresh slot for an absent id with sorted, distinct tokens keeps the invariant |
| Index.InsertTokens | src/lib.rs:112-130 | insert keeps the invariant; `ids` is the deleted state's plus one slot, at the old length, holding `Some(id)`; its forward entry is the sorted, deduplicated tokens; no bucket key disappears |
| Index.InsertEffect | src/lib.rs:113-129 | after the delete, insert only pushes `Some(id)`, adds the forward entry of the new slot, and appends the new slot to the buckets of the new tokens, creating missing ones; every other forward entry and every other bucket stays as the delete left it |
| Index.InsertKeepsOthers | src/lib.rs:113-129 | every live slot holding another identifier keeps its forward entry through an insert |
| Index.DeleteKeepsOther | src/lib.rs:218-230 | a delete keeps the forward entry of every live slot holding another identifier |
| Index.ReinsertReplaces | src/lib.rs:113-116 | after an insert, the only slot holding `id` is the new one, with the new tokens |
| Index.Apply | src/lib.rs:112-130 | one insert or delete keeps the invariant and never shrinks the bucket keys or the slot table |
| Index.Run | src/lib.rs:112-130 | any sequence of inserts and deletes keeps the invariant and never shrinks the bucket keys or the slot table |
| Index.RunFromEmpty | src/lib.rs:113 | after any sequence of operations on a new engine, each id is live in at most one slot, and a slot has tokens exactly when it is live |
| Index.TokenScore | src/lib.rs:183-189 | the score a vocabulary token ends with after the loop over the query tokens; a definition whose meaning `Index.TokenScoreSpec` states |
| Index.Scores | src/lib.rs:181-190 | the map `token_scores`; a definition reached by `Engine.SimSearch.ScoreTokens` and characterized by `Index.HitsCharacterized` |
| Index.TokenScoreSpec | src/lib.rs:183-190 | a token has a score exactly when some query token beats the threshold against it, and the score is the one against the last such query token |
| Index.TokenScoreStep | src/lib.rs:183-189 | one more query token either overwrites the score with its own, when it beats the threshold, or leaves it as it was |
| Index.PartialScoresStart | src/lib.rs:183-184 | proof step for the loops, unfolding the definitions: before the inner loop over the vocabulary the map holds the scores of the query tokens so far |
| Index.PartialScoresStep | src/lib.rs:184-189 | one step of the inner loop inserts the token's score when it beats the threshold and otherwise changes nothing |
| Index.PartialScoresEnd | src/lib.rs:183-190 | proof step for the loops, unfolding the definitions: after the inner loop the map holds the scores of one more query token |
| Index.SumScoresAdd | src/lib.rs:194-198 | adding one more token to a set of scored tokens adds its score to their sum |
| Index.SumScoresPick | src/lib.rs:194-198 | a slot's total does not depend on the order in which `drain` yields the tokens |
| Index.HitsAdd | src/lib.rs:194-198 | proof step for the loops, unfolding the definitions: draining one more token adds exactly its bucket to the slots with a total |
| Index.ContribAdd | src/lib.rs:194-198 | draining one more token adds its score to the total of exactly the slots in its bucket |
| Index.NoHitNoContribution | src/lib.rs:194-198 | proof step for the loops, unfolding the definitions: a slot in none of the drained buckets has no contributing token |
| Index.AddAll | src/lib.rs:195-197 | the totals after the loop over one bucket; a definition reached by `Engine.AddToSlots` |
| Index.AddAllStart | src/lib.rs:195-197 | proof step for the loops, unfolding the definitions: before the loop over a bucket the totals are unchanged |
| Index.AddAllStep | src/lib.rs:195-197 | one step over a bucket of distinct slots adds the score to that slot's total, starting from zero |
| Index.Totals | src/lib.rs:192-198 | the map `result_scores` after the tokens drained so far; a definition reached by `Engine.SimSearch.AccumulateTotals` |
| Index.Total | src/lib.rs:194-198 | a slot's total: one score per qualifying token whose bucket holds the slot; a definition characterized by `Index.ContributorsAreOwnTokens` and `Index.SumScoresPick` |
| Index.TotalsAdd | src/lib.rs:194-198 | adding one drained token's score to each slot of its bucket gives the totals over all tokens drained so far |
| Index.TotalsMeaning | src/lib.rs:192-198 | proof step for the loops, unfolding the definitions: once every token is drained the totals have exactly the slots in the scored tokens' buckets, each with its full sum |
| Index.Query | src/lib.rs:177-179 | the query tokens: tokenized, sorted and deduplicated; a definition whose meaning `Text.Canon` states |
| Index.HitsAreLive | src/lib.rs:203-211 | every slot in a bucket is live, so the `expect` never fails |
| Index.HitsCharacterized | src/lib.rs:183-198 | a slot gets a total exactly when it is live and holds a token similar enough to some query token |
| Index.ContributorsAreOwnTokens | src/lib.rs:194-198 | a live slot's total adds up the scores of its own qualifying tokens, one each |
| Index.ThresholdMonotone | src/lib.rs:186 | raising the threshold never adds a slot to the result |
| Index.FoundCharacterized | src/lib.rs:176-215 | an id is returned exactly when it is live in a slot holding a token similar enough to some query token |
| Index.InsertThenSearchFinds | src/lib.rs:112-130 | searching with the fragments just inserted finds the id when one of their tokens is similar enough to itself |
| Index.DeletedNeverFound | src/lib.rs:218-230 | after `delete(id)` no search returns `id` |
| Ranking.InsertDesc | src/lib.rs:201 | inserting a pair adds exactly that pair: the result is a permutation of the input plus the pair |
| Ranking.InsertDescSorted | src/lib.rs:201 | inserting into a descending sequence keeps it descending |
| Ranking.InsertDescNoDup | src/lib.rs:201 | inserting a new pair into a sequence without repeats leaves none |
| Ranking.SortDesc | src/lib.rs:201 | `sort_by` returns a permutation of its input |
| Ranking.SortDescSorted | src/lib.rs:201 | the result of `sort_by` on descending totals is descending |
| Ranking.SortDescNoDup | src/lib.rs:201 | sorting input without repeats gives output without repeats |
| Ranking.SortDescMembers | src/lib.rs:201 | the sort keeps exactly the pairs of its input |
| Ranking.SortDescOfSorted | src/lib.rs:201 | the sort leaves pairs already in order as they are |
| Ranking.Collect | src/lib.rs:200 | `drain().collect()` yields one pair per slot of the map, each with that slot's total |
| Ranking.SortKeepsSlots | src/lib.rs:200-201 | sorting the collected pairs keeps one pair per slot, each with its own total |
| Engine.SimSearch.constructor | src/lib.rs:40-42 | `new()`: default options, no entries, invariant holds |
| Engine.SimSearch.NewWith | src/lib.rs:54-61 | `new_with(o)`: options `o`, no entries, invariant holds |
| Engine.SimSearch.Tokenize | src/lib.rs:232-264 | the loop over the stop words computes exactly `Tokenizer.Tokens` |
| Engine.SimSearch.Delete | src/lib.rs:218-230 | the fields end as `Index.Delete` of the old fields, and the invariant is kept |
| Engine.SimSearch.FilterBuckets | src/lib.rs:221-226 | filters the slot out of exactly the buckets of the given tokens and touches nothing else |
| Engine.SimSearch.InsertTokens | src/lib.rs:112-130 | the fields end as `Index.InsertTokens` of the old fields, and the invariant is kept |
| Engine.SimSearch.ExtendBuckets | src/lib.rs:122-127 | appends the slot to exactly the buckets of the given tokens, creating missing ones, and touches nothing else |
| Engine.SimSearch.Insert | src/lib.rs:88-90 | `insert` is `insert_tokens` with one fragment |
| Engine.SimSearch.ScoreTokens | src/lib.rs:181-190 | the nested loops leave exactly `Index.Scores` of the vocabulary and the query |
| Engine.SimSearch.AccumulateTotals | src/lib.rs:192-198 | the slots with a total are exactly those in the buckets of the scored tokens, each with the sum of those tokens' scores |
| Engine.AddToSlots | src/lib.rs:195-197 | the loop over a bucket adds the score to the total of exactly its slots, creating missing totals at zero |
| Engine.SimSearch.IdsAt | src/lib.rs:203-211 | maps each live slot to the id it holds, in order, without failing |
| Engine.IdsOfRanked | src/lib.rs:203-211 | distinct slots map to distinct ids, because the live ids are unique |
| Engine.FoundIffListed | src/lib.rs:203-213 | an id is in the result exactly when it is held by a matching slot |
| Engine.SimSearch.SearchTokens | src/lib.rs:176-215 | returns the ids of exactly the matching slots, each once, live, with distinct ids, ordered by non-increasing total |
| Engine.SimSearch.Search | src/lib.rs:152-154 | `search` is `search_tokens` with one fragment |

## Left out

- Tokenizer.Lower: `to_lowercase` is modelled for ASCII letters only. Full Unicode case mapping, including mappings that change a string's length, is not modelled.
- Tokenizer.IsWhitespace: `split_whitespace` is modelled with the Unicode White_Space character list. That list is written out, not derived from a Unicode database.
- `strsim::jaro_winkler` is an uninterpreted parameter `sim`. The concrete outcomes of the documentation examples, such as `search("thngs apa") == [1]`, depend on its values and are not stated.
- `f64` arithmetic is modelled with exact reals. Rounding, and the order dependence of floating-point sums, are not modelled. The NaN case that makes `partial_cmp(...).unwrap()` panic cannot arise with reals.
- `HashMap` iteration order (`keys()`, `drain()`) is left open. The loops pick any remaining element, so every proof holds for every order.
- Ranking.SortDesc: Rust's stable `sort_by` is modelled by a stable insertion sort. As a function on sequences it does not capture sorting the vector in place. Ties keep the collection order, which is itself unspecified.
- Tokenizer.NonEmptyOnly and Index.Without model the in-place `retain` calls as functions returning the filtered sequence.
- `Vec::with_capacity(1)` and other capacity hints have no observable effect and are not modelled.
- The `'static` lifetime of `stop_words` has no counterpart. The stop words are a plain sequence of strings.
- Index.FindSlot: the caller's `PartialEq` on `Id` (src/lib.rs:27, src/lib.rs:219) is modelled as Dafny's structural equality. The uniqueness and delete properties (`Index.RunFromEmpty`, `Index.DeleteEffect`, `Index.DeletedNeverFound`, the distinct results of `Engine.SimSearch.SearchTokens`) hold only for `Id` types whose `==` is an equivalence under which only identical values are equal. A non-reflexive `PartialEq` such as that of `f64` with NaN can leave two live slots for one id. A `PartialEq` that equates distinct values makes a second `insert` delete the first entry, which the model does not do.
- `Id: Clone` is not modelled. An identifier is a value and is returned as is.
- examples/books.rs is an interactive autocompletion prompt over book titles read from a JSON file. It is not part of this model.
- benches/lib.rs holds benchmarks that time inserting and searching book titles read from a JSON file. It is not part of this model.
- tests/lib.rs is a randomized (quickcheck) test: it fills an engine with book titles from a JSON file and searches with arbitrary token lists, checking only that `search` does not panic. The file reading and random generation are not modelled. The no-panic property it checks is covered by Index.HitsAreLive and by Engine.SimSearch.SearchTokens, which maps every ranked slot to its id without failing, for every query.
