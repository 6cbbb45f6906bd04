# LLM list-maker ranking: the item aggregation core in Dafny

The program asks several language models the same question ("the top 3 books that have
contributed most to human progress"), several times each. It then ranks the answers. This
project models the part of `main.py` that turns a batch of replies into that ranking:

- **Extractor** (`extract_list_items`, module `Extractor`). It takes the body of the first
  `<response>…</response>` pair, or the whole reply, and splits it into lines. Each line is
  stripped, and its run of list markers (digits, `-`, `.`, `*`, `)`, bullets, whitespace)
  is removed. It drops empty lines, lines whose lowercase form starts with "here", "these",
  "the" or "following", and lines that match the disclaimer regex. What is left is a list of
  item strings, in line order.
- **Similarity judge** (`are_items_similar`, module `Similarity`). Two items are similar
  when their lowercase forms are equal, when one contains the other, or when
  `SequenceMatcher(...).ratio()` reaches `SIMILARITY_THRESHOLD = 0.85`.
- **Canonicalizer** (`find_or_add_canonical_item`, module `Canonicalizer`). The
  `canonical_items` dict is a class, `CanonicalItems`, whose `FindOrAdd` updates it in place.
  It is proved against the function `Assign` on the value `CanonState`: the keys in insertion
  order plus each key's set of variations. The first key with a similar variation wins and
  gains the item. Otherwise the item becomes a new key.
- **Aggregator** (`analyze_item_mentions`, module `Aggregator`). It counts each canonical
  item at most once per reply, overall (`item_counts`) and per model (`item_by_model`). It
  then sorts the counts by (count, number of distinct models), highest first. Python's
  `sorted(..., reverse=True)` is stable; module `Ranking` models it as a stable insertion
  sort.
- **Text** holds the `str` and `re` primitives the core relies on: `strip`, `lower`, `in`,
  `find`, `split('\n')` and leading-run removal.
- **Scenarios** states what the model yields for concrete replies and titles.

Loops in the source are methods with loop invariants. Each method is proved equal to a
function, and the properties are lemmas about those functions:

- `ExtractListItems` is proved equal to `ListItems`.
- `FindOrAdd` is proved equal to `Assign`.
- `CountResponse` and `AnalyzeItemMentions` are proved equal to `CountItems`, `Aggregate`
  and `Analyze`.

`SequenceMatcher` is a parameter, `matcher`. It gives the number M of matched characters,
and the ratio test `2·M/(|a|+|b|) ≥ 0.85` is written exactly as `40·M ≥ 17·(|a|+|b|)`.

The model follows the code. It proves three behaviours of the code that a reader may not
expect:

- **Overlapping clusters.** One string can end up in two variation sets
  (`Canonicalizer.VariationSetsMayOverlap`). Suppose the table already has the clusters
  "abc" and "xyz". If "abcxyz" then joins "abc", a later "xyz" matches "abcxyz" and is added
  to the "abc" set as well as its own. The clusters are therefore not pairwise disjoint,
  although the canonical key returned for each call is unique.
- **Titles the extractor drops.** A line "1984" is entirely list-marker characters and
  disappears (`Scenarios.NineteenEightyFourDropped`). A line "The Art of War" starts with
  "the" and is dropped as a preface (`Scenarios.ArtOfWarDropped`). The similarity rules
  still merge "The Art of War" with "Art of War" and keep "Sapiens" apart from "1984" when
  such strings reach them (`Scenarios.ArtOfWarMerges`, `Scenarios.SapiensAnd1984Apart`).
- **Symmetry of similarity.** The judgement is symmetric only when the ratio is, and
  `SequenceMatcher` does not promise that (`Similarity.SimilarSymmetric` requires it of the
  matcher). Reflexivity holds for every string, the empty one included.

## Model

| member | source | states |
|---|---|---|
| Text.LeadingRun | main.py:63 | the length of the longest prefix inside the class: every character before it is in the class, and the next one is not |
| Text.TrailingRun | main.py:63 | the length of the longest suffix inside the class, as for the prefix |
| Text.StripShape | main.py:39 | `strip()` leaves a slice of the input with only whitespace outside it and no whitespace at either end |
| Text.StripNoop | main.py:69 | stripping a string with no whitespace at either end returns it unchanged |
| Text.IndexOf | main.py:38 | the result is the first position at or after `from` where the pattern occurs; None means it occurs nowhere from there |
| Text.SplitLines | main.py:42 | `split('\n')` gives at least one part, no part contains a newline, and joining the parts with newlines gives the input back |
| Text.SplitJoin | main.py:42 | the other direction of the round trip: splitting a join of newline-free lines gives the lines back |
| Text.LowerIdempotent | main.py:78-79 | lowering twice is lowering once |
| Similarity.SimilarReflexive | main.py:82-83 | every item is similar to itself, whatever the matcher says |
| Similarity.SimilarIgnoresCase | main.py:78-79 | the judgement depends only on the lowercase forms |
| Similarity.SimilarByContainment | main.py:86-87 | when one lowercase form contains the other, the items are similar for every matcher |
| Similarity.DissimilarBelowThreshold | main.py:86-91 | without equality or containment, the items are similar exactly when 2·M divided by the total length reaches 0.85 (main.py:26) |
| Similarity.SimilarSymmetric | main.py:75-91 | the judgement is symmetric whenever the matcher is symmetric on the pair |
| Extractor.ResponseContent | main.py:38-39 | without a tagged pair, the content is the whole text; otherwise it is the stripped body between the first `<response>` and the first `</response>` after it |
| Extractor.StartsWithAnyMeans | main.py:67 | the recursive prefix test holds exactly when the string starts with one of the prefixes |
| Extractor.ContainsAnyMeans | main.py:59-68 | the recursive search holds exactly when one of the phrases occurs in the string |
| Extractor.RefusalPhrases | main.py:49 | the expansion of the refusal pattern (five spellings of can't, cannot and don't, times four verbs) has one phrase per pair of choices |
| Extractor.RefusalPhrasesMeans | main.py:49 | a phrase is in the expansion exactly when it is "i " + refusal + " " + act for some choice of each |
| Extractor.ExtractListItems | main.py:34-73 | the method returns exactly `ListItems`: the kept cleaned lines of the tagged body, in order |
| Extractor.StripCleanLine | main.py:63-69 | a cleaned line is empty or starts with no marker and ends with no whitespace, so the second `strip()` changes nothing |
| Extractor.KeptItemsInOrder | main.py:61-69 | items come from strictly increasing line indices, each is its cleaned line and passed the keep test, and every other line failed it; so there are never more items than lines |
| Extractor.KeptItemsWellFormed | main.py:61-69 | every item is non-empty, starts with no marker and no filler word, ends with no whitespace and is not a disclaimer |
| Extractor.ListItemsWellFormed | main.py:34-73 | the same for every item `extract_list_items` returns |
| Extractor.MarkerOnlyLineDropped | main.py:63-66 | a line made only of marker characters cleans to the empty string and adds no item |
| Canonicalizer.FirstMatch | main.py:95-96 | the result is the first key at or after position `from`, in insertion order, with a variation similar to the item; None means no key from there has one |
| Canonicalizer.RecordedItemMatches | main.py:96 | an item already recorded as a variation of a key always matches that key |
| Canonicalizer.AssignToExisting | main.py:95-98 | when some key matches, the keys stay the same, the first matching key is returned, the item joins that key's set, and every other set is unchanged |
| Canonicalizer.AssignToNew | main.py:100-102 | when no key matches, the item was not a key; it is appended as a new key with the set {item} and returned, and every other set is unchanged |
| Canonicalizer.AssignInvariants | main.py:93-102 | keys stay distinct, each key stays in its own set, and the returned key holds the item; the keys are unchanged or gain the item at the end, and no variation is ever removed |
| Canonicalizer.CanonicalItems.constructor | main.py:106 | the table starts empty and well formed |
| Canonicalizer.CanonicalItems.FindOrAdd | main.py:93-102 | the in-place update and the returned key are exactly those of `Assign` on the old table, and the table stays well formed |
| Canonicalizer.VariationSetsMayOverlap | main.py:95-102 | with "abc", "xyz", "abcxyz", "xyz" in that order, "xyz" ends up in the variation sets of two different keys |
| Ranking.SortPermutes | main.py:125-129 | the sorted sequence is a permutation of its input |
| Ranking.SortDescending | main.py:125-129 | every entry ranks at least as high as every entry after it, in the lexicographic tuple order |
| Ranking.SortStable | main.py:125-129 | for each key value, the entries with that key keep their input order |
| Ranking.PermutationDistinct | main.py:125-129 | a permutation of a sequence without repeats has no repeats |
| Aggregator.CountResponse | main.py:114-122 | the inner loop leaves the canonical table and the tallies equal to `CountItems` over the reply's items, starting from an empty `seen_items` |
| Aggregator.AnalyzeItemMentions | main.py:104-131 | the method returns exactly `Analyze`: the sorted entries of `item_counts` and `item_by_model` |
| Aggregator.TotalIncrement | main.py:121 | one more mention from a model raises the sum of the per-model counts by one |
| Aggregator.BumpConsistent | main.py:119-122 | counting a canonical key keeps the tables consistent: the same keys in `item_counts` and `item_by_model`, in creation order, with each count positive and equal to the sum of its per-model counts |
| Aggregator.BumpCounts | main.py:120-121 | counting `c` for `model` adds one to `item_counts[c]` and to `item_by_model[c][model]`, and changes no other count |
| Aggregator.StepCounts | main.py:119-122 | one item raises a count only if its canonical key was not yet seen in this reply |
| Aggregator.CountItemStep | main.py:117-122 | one item keeps the tables consistent and counts its canonical key at most once per reply |
| Aggregator.AssignAllGrows | main.py:115-117 | calling `find_or_add_canonical_item` on a reply's items in turn keeps the table well formed, only appends keys, and removes no variation |
| Aggregator.AssignAllRecords | main.py:115-117 | each item of the reply is among the variations of the key returned for it, and that key is in the final table |
| Aggregator.CountItemsAssigns | main.py:114-122 | the inner loop leaves the table that the calls on the reply's items build, and `seen_items` holds exactly the keys those calls returned |
| Aggregator.CountItemsSteps | main.py:115-122 | over a reply's items the tables stay consistent, `seen_items` holds exactly the returned keys, and each key not seen before is counted once, overall and for the reply's model, with no other key counted |
| Aggregator.ResponseCountsOnce | main.py:110-122 | one reply adds exactly one to the count of every canonical key returned for its items, overall and for the reply's model, however often it names the item; no other count changes |
| Aggregator.RecordsAfterResponse | main.py:110-122 | after one reply from a model, each item it yielded is a variation of a key counted for that model, and every item recorded before stays recorded, for every model |
| Aggregator.AggregateRecordsMentions | main.py:104-122 | after a batch, every item that reply i yields is a variation of some canonical key that `item_by_model` counts for reply i's model |
| Aggregator.AggregateInvariants | main.py:104-122 | after a batch the tables are consistent, no count exceeds the number of replies, and no per-model count exceeds the number of replies from that model |
| Aggregator.AnalyzeRanking | main.py:125-129 | the result is a permutation of the `item_counts` entries, is descending by (count, number of models), and keeps ties in `item_counts` order, which is canonical-item creation order |
| Aggregator.RankedNamesDistinct | main.py:125-131 | any ordering of the entries names each canonical item once |
| Aggregator.RankedEntries | main.py:125-131 | any ordering of the entries lists exactly the keys of `item_by_model`, each with its positive count equal to the sum of its per-model counts |
| Aggregator.AnalyzeResult | main.py:104-131 | the ranking names each canonical item once and exactly the items of `item_by_model`; each count is between 1 and the batch size and is the sum of its per-model counts, and each per-model count is between 1 and the number of replies from that model |
| Scenarios.MobyDick | main.py:61-69 | the reply "3. Moby Dick" yields exactly the item "Moby Dick" |
| Scenarios.NineteenEightyFourDropped | main.py:63-66 | the line "1984" yields no item: every character is a list marker |
| Scenarios.EmptyReply | main.py:34-73 | an empty reply yields no item |
| Scenarios.ArtOfWarDropped | main.py:67 | the line "The Art of War" yields no item: it starts with "the" |
| Scenarios.RefusalDropped | main.py:46-68 | "I'm sorry, as an AI model I cannot help with that." yields no item |
| Scenarios.ShortNotDisclaimer | main.py:46-59 | a line shorter than nine characters, or of nine not starting with "i", never matches the disclaimer regex |
| Scenarios.TaggedReply | main.py:38-69 | "<response>\nFoo\nBar\n</response>\ntrailing junk" yields exactly ["Foo", "Bar"] |
| Scenarios.ArtOfWarMerges | main.py:86-98 | "Art of War" is similar to "The Art of War" for every matcher and joins its cluster |
| Scenarios.SapiensAnd1984Apart | main.py:86-102 | with no matched characters, "Sapiens" and "1984" are not similar and found two clusters |
| Scenarios.EmptyBatch | main.py:104-131 | an empty batch gives an empty ranking and an empty `item_by_model` |
| Scenarios.RepeatedInOneResponse | main.py:114-122 | a reply naming "Foo" and "foo" counts the canonical item "Foo" once, overall and for its model |

## Left out

- The request side of `main.py` (the OpenRouter client, `get_model_response`, gathering the replies concurrently, the model list and the repetition count) is not part of this model. The batch of replies is the input. Writing the report files is not part of this model either.
- `difflib.SequenceMatcher` is not modelled. Its result enters as the `matcher` parameter: the number of matched characters of the two lowercase strings.
- The ratio is compared with 0.85 in exact rational arithmetic. Python compares a double against the double nearest 0.85. The two can differ only for ratios within rounding distance of 0.85.
- `str.lower()` and `re.IGNORECASE` are modelled for ASCII letters only. `\d` is modelled as the ASCII digits, whereas Python's `\d` matches every Unicode decimal digit. Whitespace is Python's full `str.isspace` set.
- The `try`/`except` of `extract_list_items` is modelled as never firing, because nothing in its body raises for a string argument. `ExtractListItems` is therefore total.
- A reply whose message content is `None` (main.py:375) makes `extract_list_items` raise `TypeError` inside its `try`, which returns `[]`. `Aggregator.Response` holds a string, so such a reply is modelled as the empty string, which also yields no item (`Scenarios.EmptyReply`).
- A reply record without a `model` or `response` key raises `KeyError` in Python. `Aggregator.Response` always has both fields, so that error path is not modelled.
- The returned dict is modelled as a sequence of (item, count) pairs in dict order. `AnalyzeResult` proves its keys are distinct. The `defaultdict`s are maps read through `CountOf` and `ModelsOf`.
- `item_counts` and `item_by_model` are local variables of `analyze_item_mentions`, so they are method variables here. Only `canonical_items`, the dict another function mutates, is a class.
- Text.Strip: its own contract states only that the result is no longer than the input. What `strip()` leaves is stated by `Text.StripShape`.
- Similarity.SimilarSymmetric: proved only for a matcher that is symmetric on the pair, since `SequenceMatcher` is not promised to be.
