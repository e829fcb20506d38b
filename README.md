# AgeLingo term deduplicator, modelled in Dafny

AgeLingo keeps its slang dictionary as a JSON document whose `terms` array
holds one record per word: `word`, `generation`, `definition`, `example` and a
`translations` object that maps generation labels to strings.

The script `merge_duplicates.py` cleans that array up:

- it groups the records by lowercased `word` (`find_duplicates`);
- it merges each group of two or more records into one (`merge_duplicates`),
  field by field:
  - the generation with the highest rank;
  - the longest definition;
  - the longest example;
  - the union of the translations, keeping the longer string per generation;
  - everything else from the first record;
- it rebuilds the list: terms that are not duplicates pass through, and one
  merged record replaces each group;
- it sorts the list by lowercased word (`process_terms`).

The companion `verify_terms.py` regroups a collection to report any
remaining duplicates, and tallies the terms per generation, with a missing
generation counted as `"Unknown"`.

The model follows the programs' own shape. Each loop of the scripts is a
Dafny `method` with a loop. The method is proved equal to a specification
function, and lemmas prove about that function what the scripts promise.

| file | module | models |
|---|---|---|
| `basics.dfy` | `Basics` | `Option`, `Result` |
| `text.dfy` | `Text` | ASCII `str.lower`, Python's `<=` on strings |
| `dicts.dfy` | `Dicts` | insertion-ordered `dict` with string keys (`Put` is `d[k] = v`, `Items` is `.items()`) |
| `keyed.dfy` | `Keyed` | what a `defaultdict(list)` / `defaultdict(int)` filled by a loop holds |
| `sorting.dfy` | `Sorting` | `list.sort(key=...)` / `sorted` as a stable sort |
| `terms.dfy` | `Terms` | one term record and its normalized word |
| `grouping.dfy` | `Grouping` | `find_duplicates` |
| `merging.dfy` | `Merging` | `merge_duplicates`, its `max` selections and the translation union |
| `processing.dfy` | `Processing` | the in-memory part of `process_terms` |
| `verification.dfy` | `Verification` | the in-memory part of `verify_terms` |

A Python dictionary iterates in insertion order, so it is modelled as a key
sequence plus a map (`Dicts.Dict`). A new key goes to the end, and
overwriting a key keeps its position. Python's `max(xs, key=f)` returns the
first element with the highest key, and `Merging.ArgMax` picks that index.
The loops of lines 53-60 visit a stream of `(generation, translation)`
pairs. The union is specified over that stream: a generation appears in the
order it is first seen, and its value is the first longest translation
given for it.

## Model

| member | source | states |
|---|---|---|
| Grouping.FindDuplicates | age_lingo/merge_duplicates.py:20-29 | the append loop followed by the filter returns exactly `Duplicates(terms)` |
| Grouping.GroupedSnoc | age_lingo/merge_duplicates.py:23-25 | appending one term under its normalized word extends that word's group; a new word is added at the end of the key order |
| Grouping.RepeatedSubsequence | age_lingo/merge_duplicates.py:28 | the comprehension keeps exactly the keys whose group has more than one term, each once |
| Grouping.RepeatedOrdered | age_lingo/merge_duplicates.py:28 | the comprehension keeps the keys in the order in which their words first occur |
| Grouping.DuplicatesCharacterized | age_lingo/merge_duplicates.py:20-29 | a normalized word is a key exactly when it occurs at least twice; its group is all terms with that word, in input order; keys are in first-occurrence order |
| Grouping.DuplicateGroupsAgree | age_lingo/merge_duplicates.py:28 | every group has at least two terms, each an input term with the group's normalized word |
| Grouping.DuplicateKey | age_lingo/merge_duplicates.py:28 | a key of the duplicates occurs at least twice and holds exactly the terms with that word |
| Grouping.NoDuplicatesIffDistinct | age_lingo/merge_duplicates.py:28 | no duplicates are found exactly when no two terms share a normalized word |
| Terms.NormalizedIsLower | age_lingo/merge_duplicates.py:25 | a normalized word is its own lowercase form |
| Text.LowerIdempotent | age_lingo/merge_duplicates.py:92 | lowercasing twice is lowercasing once |
| Text.StrLeReflexive | age_lingo/merge_duplicates.py:103 | string order is reflexive |
| Text.StrLeTotal | age_lingo/merge_duplicates.py:103 | any two strings are ordered one way or the other |
| Text.StrLeTransitive | age_lingo/merge_duplicates.py:103 | string order is transitive |
| Text.StrLeAntisymmetric | age_lingo/merge_duplicates.py:103 | strings ordered both ways are equal |
| Merging.ArgMax | age_lingo/merge_duplicates.py:43 | the index `max` picks has a key at least every element's key, and every earlier element has a strictly lower key (first maximum wins) |
| Merging.LongestSnoc | age_lingo/merge_duplicates.py:56-60 | a later translation replaces the kept one only when strictly longer |
| Merging.UnionSpecKeys | age_lingo/merge_duplicates.py:56-60 | one more pair adds its generation at the end of the key order if it is new, and otherwise leaves the key order alone |
| Merging.UnionStep | age_lingo/merge_duplicates.py:56-60 | one loop step: a new generation is inserted; a known one is overwritten only by a strictly longer translation |
| Merging.ValuesForPairs | age_lingo/merge_duplicates.py:52-54 | the translations visited for a generation are those the instances supply, in instance order, with none from an instance without `translations` |
| Merging.ValuesForDistinct | age_lingo/merge_duplicates.py:53-54 | iterating one translations dictionary's items gives at most one translation per generation: the one it maps to |
| Merging.SuppliedMembers | age_lingo/merge_duplicates.py:52-54 | every instance's translation for a generation is among those supplied, and each one supplied comes from some instance |
| Merging.UnionOfCharacterized | age_lingo/merge_duplicates.py:51-61 | a generation is in the union exactly when some instance translates it; its value is the longest translation supplied, the earliest on equal length; no instance's translation is longer; every value comes from an instance |
| Merging.AddTranslations | age_lingo/merge_duplicates.py:53-60 | the inner loop extends the union by one instance's translations, in their order |
| Merging.CombineTranslations | age_lingo/merge_duplicates.py:51-61 | the nested loop returns exactly `UnionOf(instances)` |
| Merging.MergedFields | age_lingo/merge_duplicates.py:38-65 | a merged record keeps the first instance's word and other fields. Its translations are the union. Its generation, definition and example are those of the first instance with the highest rank or length. Its rank and lengths are at least every instance's. |
| Merging.MergedFailures | age_lingo/merge_duplicates.py:39-65 | the merge raises on an empty group. It raises on a missing generation exactly when no instance has a ranked generation and the first has none. The same holds for definition and then example (length 0, first missing). In every other case it succeeds. |
| Merging.CollectCharacterized | age_lingo/merge_duplicates.py:35-67 | the loop over groups succeeds exactly when every group merges. It then yields one record per group, in key order. Otherwise it raises the exception of the first group that fails. |
| Merging.CollectKeepsFailure | age_lingo/merge_duplicates.py:35-67 | once a group raises, the later groups change nothing |
| Merging.CollectFailingGroup | age_lingo/merge_duplicates.py:35-67 | when the loop over groups raises, some group's merge raises that same exception |
| Merging.CollectStep | age_lingo/merge_duplicates.py:35-67 | one more group either ends the loop with its exception or appends its merged record |
| Merging.MergeDuplicates | age_lingo/merge_duplicates.py:31-69 | the loop returns or raises exactly `MergeDuplicatesSpec(duplicates)` |
| Sorting.SortByPermutes | age_lingo/merge_duplicates.py:103 | sorting rearranges the list: same multiset, same length |
| Sorting.SortBySorted | age_lingo/merge_duplicates.py:103 | the sorted list is non-decreasing by key |
| Sorting.SortByStable | age_lingo/merge_duplicates.py:103 | sorting keeps the relative order of the elements with equal keys |
| Sorting.SortBySortedIdentity | age_lingo/merge_duplicates.py:103 | an already sorted list is left unchanged |
| Processing.ProcessTerms | age_lingo/merge_duplicates.py:79-103 | returns exactly `Processed(terms)`, or the exception `merge_duplicates` raises |
| Processing.HavingOutside | age_lingo/merge_duplicates.py:95-97 | the pass-through loop keeps every term of a word outside `processed_words`, in order, and no term of a word inside it |
| Processing.KeepUnique | age_lingo/merge_duplicates.py:95-97 | the pass-through loop returns exactly `KeepOutside(terms, processed_words)` |
| Processing.KeepOutsideNothing | age_lingo/merge_duplicates.py:95-97 | with no processed words every term passes through |
| Processing.KeyIsLower | age_lingo/merge_duplicates.py:81 | a key of the grouping is already lowercase |
| Processing.DoneWordsOfDuplicates | age_lingo/merge_duplicates.py:92 | `processed_words` is exactly the set of normalized words occurring at least twice |
| Processing.MergedOnePerKey | age_lingo/merge_duplicates.py:88 | a successful merge gives one record per duplicate key, in key order; each is its group's merge and keeps the key as normalized word |
| Processing.MergedHaving | age_lingo/merge_duplicates.py:88 | the merged records hold no record for a word occurring at most once, and exactly one, its group's merge, for a word occurring at least twice |
| Processing.ProcessedHaving | age_lingo/merge_duplicates.py:91-103 | in the saved list a word occurring at most once keeps its input terms unchanged, and a word occurring at least twice has exactly one record, its group's merge |
| Processing.ProcessedShape | age_lingo/merge_duplicates.py:91-103 | the saved list has as many records as the input has distinct normalized words; no two share a normalized word; it is sorted by normalized word; regrouping it finds no duplicates |
| Processing.FailingGroup | age_lingo/merge_duplicates.py:88 | when processing raises, some duplicate group's merge raises that exception |
| Processing.MergeableGroups | age_lingo/merge_duplicates.py:88 | when processing returns, every duplicate group merges |
| Processing.ProcessedFailure | age_lingo/merge_duplicates.py:88 | processing raises exactly when some word occurring at least twice has a group whose merge raises |
| Processing.ProcessedIdempotent | age_lingo/merge_duplicates.py:79-103 | processing the saved list again returns it unchanged |
| Keyed.FirstKeysMembers | age_lingo/merge_duplicates.py:22-25 | a word is a key of the filled dictionary exactly when some term has it |
| Keyed.FirstKeysOrdered | age_lingo/merge_duplicates.py:22-25 | the keys of the filled dictionary are in first-occurrence order |
| Keyed.KeysDistinctIffSingle | age_lingo/merge_duplicates.py:28 | no two elements share a key exactly when every key occurs at most once |
| Keyed.CountsSum | age_lingo/verify_terms.py:35-38 | counting each element under its key, the counts over all keys add up to the number of elements |
| Keyed.HavingOneEach | age_lingo/merge_duplicates.py:100 | a list with one record per distinct key holds exactly that record under each key |
| Verification.VerifyTerms | age_lingo/verify_terms.py:20-41 | computes exactly `ReportOf(terms)`: total, remaining duplicates with sizes, the all-unique flag, the sorted tally |
| Verification.CountGenerations | age_lingo/verify_terms.py:35-38 | the counting loop returns exactly `Tally(terms)` |
| Verification.TallySnoc | age_lingo/verify_terms.py:37-38 | counting one more term adds one to its label, inserting a new label with count 1 at the end |
| Verification.TallyCharacterized | age_lingo/verify_terms.py:35-38 | the tally lists exactly the labels some term carries, missing counted as `"Unknown"`; each count is the number of terms with that label and at least 1 |
| Verification.TallySum | age_lingo/verify_terms.py:35-38 | the tally's counts add up to the number of terms |
| Verification.SumValuesSortBy | age_lingo/verify_terms.py:41 | sorting a tally listing keeps the sum of its counts |
| Verification.ByGenerationAscending | age_lingo/verify_terms.py:41 | the listed tally is strictly ascending by generation label |
| Verification.ByGenerationEntries | age_lingo/verify_terms.py:41 | the listed tally holds every tallied label, each with the number of terms carrying it |
| Verification.ByGenerationSum | age_lingo/verify_terms.py:35-41 | the listed counts add up to the number of terms |
| Verification.AscendingUnique | age_lingo/verify_terms.py:41 | two strictly ascending arrangements of the same items are equal |
| Verification.ByGenerationUnique | age_lingo/verify_terms.py:41 | any strictly ascending arrangement of the tally items is the one listed, so sorting `(label, count)` pairs gives the order of the labels alone |
| Verification.RemainingCharacterized | age_lingo/verify_terms.py:20-30 | the remaining duplicates are exactly the words occurring at least twice, each once, in first-occurrence order, with its number of occurrences |
| Verification.AllUniqueIffDistinct | age_lingo/verify_terms.py:27-32 | the "all terms are unique" branch is taken exactly when no two terms share a normalized word |

## Error paths

The merge reads a missing field leniently when it compares instances and
strictly when it copies the chosen one. The selections at lines 43, 47 and
64 read a missing `generation`, `definition` or `example` as `''` through
`x.get(field, '')`. The assignments at lines 44, 48 and 65 index the chosen
instance with `['generation']`, `['definition']` and `['example']`, which
raises `KeyError` when that instance lacks the field. Line 39 reads
`instances[0]`, which raises `IndexError` when a group is empty.

The model follows the code: `Merging.Merged` returns `Failure(MissingGeneration)`,
`Failure(MissingDefinition)`, `Failure(MissingExample)` or
`Failure(EmptyGroup)`, in the order the code reaches them. The error
propagates out of `merge_duplicates` and `process_terms`, so nothing is
saved. `Merging.MergedFailures` says exactly when each error is raised.

## Left out

- `load_terms` and `save_terms` are file I/O and JSON. This covers the `assets/data/terms.json` path, `json.load`/`json.dump`, `indent=2` and `data.get('terms', [])`. The model takes the list of terms as a parameter, and `process_terms` returns the list it would save.
- Every `print` call is left out; `Verification.Report` carries the data the report prints.
- `analyze_duplicates.py` is a module-level script that prints records grouped by the exact, case-sensitive `word`. It has no function; it uses the same fill-and-filter pattern, keyed on the exact word rather than the lowercased one, and is not modelled.
- `FlutterMultiDexApplication.kt` is Android start-up code that calls into foreign libraries.
- `str.lower` is modelled for ASCII letters only (`Text.Lower`). Unicode case mapping is not modelled.
- Records with no `word`, a `word` that is not a string, or JSON `null` or non-string field values cannot be represented. Python raises on or mishandles these: a `KeyError`, an `AttributeError`, or `len(None)`. `Term` holds strings and optional strings only.
- Fields other than `word`, `generation`, `definition`, `example` and `translations` are kept as uninterpreted `extras` and copied from the first instance. The order of fields inside one JSON object is not modelled.
- `instances[0].copy()` is a shallow copy, and the merge never mutates the input records. Terms are values in the model, so aliasing does not arise.
- Processing.ProcessTerms: `unique_terms.sort(...)` sorts the Python list in place with the library's Timsort. The model uses `Sorting.SortBy`, a stable insertion sort defined on values. It is proved sorted, a permutation and stable. The in-place update of the list is not modelled.
- Merging.ArgMax: the built-in `max` is modelled as a function. It is the element-selecting expression at lines 43, 47 and 64, not a loop of the program.
- Verification.VerifyTerms: `sorted(generations.items())` compares whole `(label, count)` pairs. The model sorts by label. `Verification.ByGenerationUnique` shows the two orders agree because the labels are distinct.
- Processing.ProcessTerms and Verification.VerifyTerms build their grouping dictionary inline (merge_duplicates.py lines 79-84, verify_terms.py lines 20-25). That code is the same as `find_duplicates`, so both call `Grouping.FindDuplicates`.
