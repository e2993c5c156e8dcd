# two_percent core, modelled in Dafny

This project models the core of the `two_percent` fuzzy finder, a fork of skim. It covers:

- the multi-criteria **rank model**: `RankBuilder`, the four-slot rank, and the rank-only
  ordering of `MatchedItem`;
- the **item pool**: a growable store of ingested items with a `taken` watermark and a list of
  reserved header lines;
- the **AND/OR match-engine combinators**;
- one **matching pass**: it takes the unmatched items from the pool, applies the engine, and
  publishes matched items with their ranks into the buffer of a control handle;
- the **default item**: which text is matched, which text is output, and which spans a display
  highlights;
- the **line splitting** of ingestion and its stop-on-disconnect rule.

Threads, locks and weak references are removed. The model is sequential throughout:

- A matching pass runs to the end inside `Matcher.Run`. A concurrent `kill` becomes an explicit
  `StopPoint` that says when the worker first sees the stop flag.
- The item pool and the control handle are classes whose fields the methods update in place.
- Primitive engines, ANSI parsing and field extraction are outside code. They appear as
  function-valued fields of the `AndOr.Env` and `ItemHelper.Collab` datatypes.

Modules, one per file:

| file | module | models |
|---|---|---|
| common.dfy | Common | `Rank`, `MatchRange`, `MatchResult`, `Option`, `Ordering`, bytes |
| vecs.dfy | Vecs | `Vec::dedup`, `slice::sort` on indices, `join` |
| item.dfy | Item | src/item.rs |
| andor.dfy | AndOr | src/engine/andor.rs |
| matcher.dfy | Matcher | src/matcher.rs |
| helper_item.dfy | ItemHelper | src/helper/item.rs |
| ingest.dfy | Ingest | src/helper/ingest.rs |

In several places the code does something a reader might not expect. The model follows the
code in each of them:

- **Item pool.** While the header quota is open, `append` keeps only the first
  `min(quota, batch)` items of a batch and drops the rest, in the pool as well as in the
  header. Take a pool that reserves 2 lines: appending `[a, b, c]` and then `[d]` leaves
  `[a, b, d]` and length 3 (`Item.ReservedHeaderExample`). One might expect the pool to hold
  `[a, b, c, d]`.
- **Rank builder.** `RankBuilder::new` keeps both `Score` and `NegScore` when both are given.
  It removes only neighbouring duplicates (`Item.NormalizationIsShallow`). One might expect
  exactly one score criterion and no repeated criterion.
- **Disabled query.** With the query disabled or empty, the engine is still called, and items
  it rejects are dropped (`Matcher.DisabledStillFilters`). One might expect every item to be
  published with the zero rank.
- **Stopping a pass.** A stop seen during the sweep publishes the results for the items visited
  so far. A stop seen before the first item publishes an empty list and discards the previous
  results. Only a stop seen before publishing keeps them (`Matcher.PassCounters`). One might
  expect a cancelled pass never to publish a partial list.
- **Snapshot used up by a stopped pass.** With both pools alive, a pass takes the untaken
  items before it checks the stop flag (src/matcher.rs:135, 209). A pass stopped before
  publishing therefore uses up its snapshot without publishing it, and only a `reset` brings
  those items back (`Matcher.Run`). One might expect the items to stay untaken.
- **Line trimming.** The `"\r\n"` trim branch of ingestion never fires on a split piece, since
  every piece is free of `'\n'` (`Ingest.TrimLineSpec`, `Ingest.TrimLineCrLfBranch`).
- **Default item without transform or ANSI.** The decision table in the comment at
  src/helper/item.rs:43-51 gives the original line as both text and output here. The code
  always runs the ANSI parser in this case (src/helper/item.rs:63-65), so both the matched
  text and the output are the ANSI-stripped line (`ItemHelper.NewItemSpec`,
  `ItemHelper.OutputOfNewItem`).
- **Default item output with transform and ANSI.** The same table gives the ANSI text as the
  output here. The code outputs the original line verbatim unless the transformed text has
  attributes, and only then the ANSI-stripped line (src/helper/item.rs:92-99,
  `ItemHelper.OutputOfNewItem`).

## Model

| member | source | states |
|---|---|---|
| Item.DefaultRankBuilderIsNormalized | src/item.rs:19-25 | The default criteria [Score, Begin, End] are already in the form `new` produces. |
| Item.NewRankBuilder | src/item.rs:28-35 | The builder's list is `Score` put in front when no score criterion is present, then `Vec::dedup`. |
| Item.NormalizedCriteriaProperties | src/item.rs:28-35 | The result is the input, with Score put in front when the input had neither score criterion, minus exactly the criteria equal to their left neighbour. The kept criteria stay in input order. So Score or NegScore is present, Score leads when the input had neither, there are no equal neighbours, the length is at most input + 1, and the elements are the input's plus possibly Score. |
| Item.NormalizationIsShallow | src/item.rs:29-33 | [Score, NegScore] and [Score, Begin, Score] come out unchanged: both score criteria survive, and duplicates that are not neighbours survive. |
| Item.BuildRank | src/item.rs:38-60 | Slot i holds criterion i's signed value for i < min(4, number of criteria). Every other slot is 0. |
| Item.BuildRankExample | src/item.rs:38-60 | [Score, Length] with score 5 and length 10 gives [-5, 10, 0, 0]. |
| Item.CompareKeysFirstDifference | src/item.rs:98-102 | Rank comparison answers Less exactly when the ranks agree up to some slot and the first rank is smaller there. |
| Item.MatchedItemOrderIsRankOrder | src/item.rs:84-102 | Equality and order of matched items depend on the rank alone, not on the item or the index. Equality agrees with Equal from `cmp`. The order is lexicographic. |
| Item.MatchedItemCmpTotalOrder | src/item.rs:98-102 | The order on matched items is antisymmetric and transitive. |
| Item.ItemPoolGuard.Deref | src/item.rs:216-222 | The view is the guarded list from `start` on. |
| Item.ItemPool.constructor | src/item.rs:135-148 | A new pool is empty, has nothing taken, and has the given header quota. |
| Item.ItemPool.Len | src/item.rs:150-152 | Returns the length, which equals the pool's size. |
| Item.ItemPool.NumNotTaken | src/item.rs:154-156 | Returns length − taken, the number of items not yet handed out. |
| Item.ItemPool.NumTaken | src/item.rs:158-160 | Returns the taken watermark. |
| Item.ItemPool.Clear | src/item.rs:162-169 | Empties the pool and the header, and zeroes `taken` and the length. Keeps the pool invariant. |
| Item.ItemPool.Reset | src/item.rs:171-175 | Sets `taken` to 0 and changes nothing else. |
| Item.ItemPool.Append | src/item.rs:178-197 | With the header quota open, exactly the first min(quota, batch) items go to both the pool and the header, and the rest are dropped. Otherwise the whole batch goes to the pool. Returns the new length. The header stays within its quota. |
| Item.ItemPool.Take | src/item.rs:199-203 | Hands out the pool from the old watermark on, and moves the watermark to the end. A second take therefore hands out nothing. |
| Item.ItemPool.Reserved | src/item.rs:205-208 | Hands out the whole header list. |
| Item.ReservedHeaderExample | src/item.rs:178-208 | With a quota of 2, appending [a, b, c] then [d] gives header [a, b], first take [a, b, d], second take [] and length 3. |
| Item.ParseCriteriaSpec | src/item.rs:237-249 | A text parses to criterion c exactly when its lower-cased form is c's keyword. A text that parses to something parses to the criterion whose keyword its lower-cased form is, so any other text parses to None. |
| Item.ParseCriteriaRoundTrip | src/item.rs:237-249 | Parsing ignores case, and every keyword parses back to its own criterion. |
| Vecs.DedupVec | src/item.rs:33 | The left-to-right `Vec::dedup` loop computes the `Dedup` specification. |
| Vecs.DedupProperties | src/item.rs:33 | `dedup` never lengthens, keeps exactly the same elements, and leaves no equal neighbours. |
| Vecs.DedupSelectsRunHeads | src/item.rs:33 | `dedup` keeps an element exactly when it is the first or differs from its left neighbour in the input. The kept elements stay in input order. |
| Vecs.SortNatProperties | src/engine/andor.rs:80 | Sorting gives an ascending permutation of its input. |
| Vecs.DedupOfSorted | src/engine/andor.rs:80-81 | Deduplicating an ascending list leaves it strictly ascending. |
| Vecs.JoinAppend | src/engine/andor.rs:37-41 | Joining two non-empty lists puts exactly one separator between their joins. |
| AndOr.MatchItem | src/engine/andor.rs:26-30 | Evaluating any engine (primitive, Or or And) gives the answer of its specification `Match`. |
| AndOr.OrFirstSuccess | src/engine/andor.rs:26-30 | Or answers what the first matching sub-engine, in list order, answers. It answers None exactly when every sub-engine answers None, which includes the case of no sub-engines. |
| AndOr.AndMatchItem | src/engine/andor.rs:89-104 | The And loop gives `Match`'s answer. It stops at the first failing sub-engine and evaluates none after it. It has evaluated all of them when it succeeds. |
| AndOr.AllMatchSpec | src/engine/andor.rs:92-96 | The collected results exist exactly when every remaining sub-engine matched, and they are those engines' results in order. |
| AndOr.AndFailure | src/engine/andor.rs:93-99 | And answers None exactly when it has no sub-engines or one of them answers None. |
| AndOr.AndShortCircuit | src/engine/andor.rs:93-96 | Once sub-engine j fails, the sub-engines after it cannot change the answer. |
| AndOr.AndResults | src/engine/andor.rs:92-102 | A successful And answer is the merge of all its sub-engines' answers, in order. |
| AndOr.AndSuccess | src/engine/andor.rs:66-102 | On success every sub-engine matched and the first rank is kept. The range is in Chars form, strictly ascending, and holds exactly the union of the sub-results' indices. |
| AndOr.MergeMatchedItems | src/engine/andor.rs:66-86 | The merge loop gives `Merge`: the first rank and the sorted, deduplicated indices it gathered. |
| AndOr.CollectedElements | src/engine/andor.rs:68-79 | The gathered indices are exactly those of the sub-results, with byte ranges converted through the item's text. |
| AndOr.MergeProperties | src/engine/andor.rs:66-86 | The merge keeps the first rank and is in Chars form. It is strictly ascending and holds exactly the union of all sub-results' indices. |
| AndOr.FmtShape | src/engine/andor.rs:106-118 | A combinator displays as "(And: " or "(Or: ", then its sub-engines' displays joined with ", ", then ")". |
| AndOr.EnginesAppendInOrder | src/engine/andor.rs:52-60 | Two `engines(..)` calls append in order, and the display lists the first batch, then the second. |
| Matcher.Sweep | src/matcher.rs:163-212 | Visits items in order until the stop is seen and counts each visit. Publishes the pipeline's output over the visited prefix. Counts matches only in normal mode. |
| Matcher.Run | src/matcher.rs:108-231 | A pass leaves the seed when a pool is gone or the stop comes before publishing. Otherwise it publishes the pipeline over the items not yet taken. When both pools are alive it takes the untaken items and moves the watermark to the end, even if the stop then comes before publishing. Otherwise the watermark stays. It hands back a stopped control whose thread is not yet joined. |
| Matcher.PipelineIndices | src/matcher.rs:150-207 | Published indices are strictly increasing and lie in [numTaken, numTaken + visited). Each entry's item is the snapshot item at its index. |
| Matcher.PublishedIffMatched | src/matcher.rs:174-188 | A visited item is published exactly when the engine matches it, in shortcut mode as well. |
| Matcher.EntryContents | src/matcher.rs:189-206 | In shortcut mode entries have rank [0,0,0,0] and no range. Otherwise they have exactly the engine's rank and `Some` of its range. |
| Matcher.PipelinePrefix | src/matcher.rs:163-173 | Stopping earlier publishes a prefix of what stopping later publishes. |
| Matcher.PassCounters | src/matcher.rs:163-214 | `processed` ≤ the snapshot size, and equals it with no stop. `matched` is 0 in shortcut mode and otherwise the number published. A stop before publishing keeps the seed. A stop before item 0 publishes []. |
| Matcher.DisabledStillFilters | src/matcher.rs:174-197 | Example: on the items [10, 11, 12], where the engine rejects 11, a disabled query still drops the items the engine rejects, and gives the rest rank [0,0,0,0], no range and their pool index. The general rule is `Matcher.PublishedIffMatched` together with `Matcher.EntryContents`. |
| Matcher.MatcherControl.constructor | src/matcher.rs:224-230 | The handle holds the pass's buffer and counters, with the thread handle not yet joined. |
| Matcher.MatcherControl.GetNumProcessed | src/matcher.rs:48-50 | Returns the processed counter. |
| Matcher.MatcherControl.GetNumMatched | src/matcher.rs:52-54 | Returns the matched counter. |
| Matcher.MatcherControl.Kill | src/matcher.rs:56-65 | Sets `stopped` and joins the thread at most once. A later kill joins nothing. |
| Matcher.MatcherControl.Take | src/matcher.rs:67-70 | Returns the buffer and leaves it empty. |
| Matcher.MatcherControl.Stopped | src/matcher.rs:72-74 | Returns the stop flag. |
| Matcher.TakeTwice | src/matcher.rs:67-70 | Two consecutive takes give the buffer, then []. |
| Matcher.KillTwice | src/matcher.rs:56-65 | Killing twice leaves the flag set and the thread joined exactly once. |
| ItemHelper.NewItemSpec | src/helper/item.rs:34-83 | The original line is kept exactly when transform fields are given. The matched text is the transformed line, ANSI-stripped only with ANSI enabled, or else the ANSI-stripped line. Matching ranges exist exactly when matching fields are given, and are computed on the matched text. |
| ItemHelper.OutputOfNewItem | src/helper/item.rs:88-101 | Output is one of three things. With no transform fields it is the matched text. With a transform and no ANSI it is the line verbatim. With both, it is the line verbatim unless the transformed text has attributes, and then the ANSI-stripped line. |
| ItemHelper.CharIndicesFragments | src/helper/item.rs:110-113 | Gives one fragment (i, i+1) per index, in order, highlighting exactly the listed positions. |
| ItemHelper.RangeFragments | src/helper/item.rs:114-120 | CharRange(s, e) gives the one fragment (s, e). A ByteRange(s, e) inside the text also gives the one fragment (s, e), so a byte range stays in bytes. No matches give no fragments. |
| Ingest.Split | src/helper/ingest.rs:57 | Splitting always yields at least one piece. |
| Ingest.SplitCount | src/helper/ingest.rs:57 | There is one piece more than separators, so a trailing separator yields a trailing empty line. |
| Ingest.SplitNoSeparator | src/helper/ingest.rs:57 | No piece contains '\n' or the line-ending character. |
| Ingest.SplitRejoin | src/helper/ingest.rs:57 | Rejoining the pieces with the separators between them gives back the chunk. |
| Ingest.TrimEndCharSpec | src/helper/ingest.rs:60-61 | Trimming a character leaves a prefix that does not end in it, and removes only copies of it. |
| Ingest.TrimLineSpec | src/helper/ingest.rs:58-64 | On a piece without '\n', the trim leaves a prefix with no trailing '\r'. It removes only '\r's and keeps interior ones. |
| Ingest.TrimLineCrLfBranch | src/helper/ingest.rs:58-59 | On a line that does contain "\r\n" the first branch fires, and a '\r' can remain ("a\r\r\n" gives "a\r"). |
| Ingest.LinesProperties | src/helper/ingest.rs:57-65 | A chunk yields separators + 1 lines. No line holds a separator or ends in '\r'. Each line is its piece minus trailing '\r's. |
| Ingest.Send | src/helper/ingest.rs:93-96 | `send` says stop exactly when the receiver is gone. A full channel only loses that item. |
| Ingest.StopIndex | src/helper/ingest.rs:67-71 | Locates the first disconnected send: every earlier one connected. |
| Ingest.SendLines | src/helper/ingest.rs:67-71 | The loop stops exactly when some send finds the receiver gone. The receiver gets the accepted items before that point. |
| Ingest.AllSentDeliversAll | src/helper/ingest.rs:75-96 | With every send accepted, each line arrives once and in order. In raw mode each arrives as the line itself. |
| Ingest.DeliveredCount | src/helper/ingest.rs:93-96 | The receiver gets exactly the items of the accepted lines, in order, and never more items than lines sent. |

## Left out

- Threads, `SpinLock`, atomics and their orderings, `ThreadPool::install`, and `JoinHandle`. A pass runs to completion inside `Matcher.Run`. A concurrent `kill` is the `StopPoint` parameter.
- Weak and `Arc` ownership. A failed `Weak::upgrade` of the thread pool or the item pool is a boolean input. The buffer's own weak reference is taken to upgrade, because the control handle holds it.
- The address-keyed `group_map` (src/matcher.rs:144-161, 179-186). The model assumes that the lookup at src/matcher.rs:181-182 finds the key inserted at src/matcher.rs:158, and that the cached result there is never filled. So it calls the engine once per visited item. Both keys are addresses of closure-local bindings, so as written a lookup could miss, and a miss would drop the item without calling the engine.
- `MatcherControl::into_items` busy-waits on the flag and is not modelled. So are the `Drop` impls, the heartbeat send, `malloc_trim` and the logging.
- `Matcher::builder`, `case` and `build`, and the combinators' `build` (an identity). The engine factory is outside code: `Run` receives the engine it built for the query.
- Primitive engines, `MatchResult::range_char_indices`, `ANSIParser`, `AnsiString::override_attrs`, `parse_transform_fields`, `parse_matching_fields` and the delimiter regex are outside code. They appear as function-valued fields. `display` is modelled up to the fragments it hands to `override_attrs`.
- The ingestion I/O loop (`fill_buf`, `consume`, `read_until`) and its UTF-8 decoding. The model starts from a decoded chunk. The `try_send` answers are an input sequence.
- `ItemPool::lines_to_reserve` is folded into the constructor argument.
- Item.BuildRank: does not model the `i32` arithmetic. Keys are unbounded integers, so `-score` does not overflow at `i32::MIN`, and the `usize as i32` casts do not truncate.
- Matcher.PipelineIndices: `item_idx` is an unbounded natural, not truncated to `u32` by `(num_taken + index) as u32`.
- ItemHelper.CharIndicesFragments: does not model the `idx as u32` and `idx as u32 + 1` casts (src/helper/item.rs:112). Indices are unbounded naturals, so they neither truncate nor overflow.
- ItemHelper.RangeFragments: does not model the `u32` casts, or the panic when a byte range does not fall on a character boundary. Out-of-bounds ranges are excluded by a precondition.
- Item.ParseCriteriaSpec: lower-casing is modelled for the ASCII letters only. `str::to_lowercase` also folds other Unicode letters, and none of those can produce one of the ASCII keywords.
- `Vec::dedup`, `slice::sort` and `join` are functions in `Vecs`. Only `Vec::dedup` also has a loop (`Vecs.DedupVec`). The sort is specified by its result, not by the standard library's algorithm.
