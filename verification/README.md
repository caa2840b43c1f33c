# Verified model of the search core

This project models the Rust core of a Japanese-aware full-text search library (`core/src`) in Dafny and
proves what its parts promise one another: the text normalizer, the edit-distance kernels, the search
strategies, the two-table index with its stamps, the record layer that packs `(record, slot)` into one 64-bit
id, and the highlighter that maps matches in normalized text back onto the host's text.

`dafny verify dfyconfig.toml` checks the whole project.

## How the source is represented

- A string is a Dafny `string`, a sequence of Unicode scalar values. Where the source counts or compares UTF-8
  bytes (the order SQLite compares text in, the offsets of the highlighter) the bytes are spelled out by `Utf8`.
- `docs`, `entries` and the stamps of `meta` are fields of the class `Connection`; `SearchEngine` holds it and its
  own `fieldBits`. A transaction either happens whole or not at all. Every method that writes is proved against a
  function on the abstract state `Store` and, at the same time, to be one `Step` of the run model in `Runs`.
- A row scan without `ORDER BY`, and draining a hash map, pick an arbitrary element at a time, so no result depends
  on an order the source does not fix. An unranked search promises a selection: distinct matching rows, as many as fit.
- SQLite's `LIKE ... ESCAPE`, the comparison `>= AND <`, and FTS5's quoted phrases, `OR` and trigram tokens are small
  definitions of the model (`Like`, `RangeScan`, `Trigrams`). FTS5's per-character case folding is a parameter, and
  nothing is assumed about it.
- NFKC, NFD, NFC and `char::to_lowercase` are function parameters (`UnicodeTables`), and nothing is assumed about them
  unless a lemma says so. The statements on the fixed point of the whole pipeline assume the laws of `UnicodeLaws`:
  normalization forms can be cut before a stable character and keep parts of unchanged text unchanged (Unicode Standard
  Annex #15), lowercasing and diacritic folding respect both, and what the steps handle is stable. Which characters are
  stable is a parameter, meant for combining class 0 with NFKC quick check "Yes" outside U+0300..U+036F.
  `FixedPointExamples.LawsCanBeMet` shows that the laws do not contradict each other.
- Scores are exact: integers for edit distances, rationals (`real`) for trigram similarity.
- Shifts and masks of ids are repeated doubling, flooring division and remainder by powers of two; 64-bit and 32-bit
  bounds, saturation and overflow errors are explicit.
- Raw offsets of the highlighter are character boundaries, normalized offsets are UTF-8 byte counts.

## Reading order

`EditDistance` and `Scoring` (kernels and word scan), `Steps`, `Normalize` and `StepMeanings` (text folding),
`UnicodeLaws`, `Joining`, `KanaSteps`, `FixedPoints`, `DiacriticFolding`, `FoldingExactly` and `FixedPointExamples`
(when normalizing twice is normalizing once), `RangeScan`, `Like`, `Trigrams`, `Substring`, `Strategies` (search
rewrites), `Packing`, `RecordSearch`, `RankedRecords` (record searches), `IndexState`, `Engine`, `Runs`, `RecordLayer`
(the index and its runs), `SearchMeanings` and `CallMeanings` (what searches answer and calls do, in plain terms),
`Highlight` and `HighlightNormalizer`, then `Guarantees` and `BlankQueries`, which combine them. `Wrappers`, `Text`,
`Utf8`, `HitOrder` and `Config` are shared.

## Where the code and its documentation differ

- `core/src/search/mod.rs:99-117`: the comments say only `char::MAX` has no successor. U+D7FF has none either, since
  the next code point is a surrogate, and dropping it widens the range: with U+D7FF as its last character a prefix
  query also finds text that merely sorts above it. `RangeScan.RangeIsPrefixSearch` gives the exact condition.
- `spec/README.md:95-98` calls normalization a fixed point. It is for the six table-free steps
  (`Normalize.FoldedIdempotent`), but not for the whole pipeline, for either preset or otherwise. A step can put a
  character before a combining mark that the next NFKC pass composes with it: lowercasing (J U+030C, default preset),
  expanding an iteration mark (は U+309D U+309A) or dropping a prolonged-sound mark (か ー U+3099). And dropping
  diacritics can put a prolonged-sound or iteration mark directly behind a kana or kanji (か U+0301 ー, か U+0301 U+309D).
  `FixedPointExamples` has a lemma for each input. Without diacritic folding `FixedPoints.FixedPointExactly`, with it
  `FoldingExactly.FixedPointWithDiacriticsExactly` says exactly for which inputs a second pass changes nothing;
  `FixedPoints.UntouchedNeverJoins` and `FoldingExactly.UnmarkedNeverMeets` are simpler conditions that are enough.
- `core/src/normalize/steps.rs:41-43`: a `ー` not preceded by kana is said to be left alone. `ー` counts as kana itself,
  so in a run of them only the first is kept (`Steps.ChoonpuIsLocal`).
- `core/src/engine.rs:508-513` describes a rebuild as re-normalizing every stored document. For records that is not
  the same as storing them under the new options: a field that was empty under the old ones left no row to rebuild
  (`RecordLayer.RebuildMissesDroppedField`; `RecordLayer.RecordRebuildIsReplay` gives the exact condition). Where no
  field is empty under one choice of options only, it is the same for whole runs (`Runs.RebuildIsReplay`).
- `core/src/engine.rs:782-787` promises that whitespace-only queries find nothing. Unless whitespace is collapsed, that
  holds for all-terms, and for the edit distances if the normal form has at least two characters; every other search
  goes on with the whitespace and can find documents (`BlankQueries.BlankQueryFindsNothing`,
  `BlankQueries.WitnessIsFound`).
- `core/src/engine.rs:780-787` and `core/src/search/mod.rs:28-33` promise a count without a limit; for the ranked
  strategies it is capped at `u32::MAX` (`Engine.SearchEngine.MatchCount`).
- `core/src/engine.rs:1306`: the comment takes for granted that prefix lengths never decrease. The model keeps it as a
  hypothesis of the statements that need it and proves it where one more character never takes bytes from what the
  punctuation steps are given (`HighlightNormalizer.GrowingIsMonotone`).
- `README.md:191` describes suffix search as `LIKE '%q'`; the code scans the reversed column, case-sensitively. The two
  agree exactly for queries without an ASCII letter (`Like.LikeIsSuffixExactly`).

## Model

| member | source | states |
|---|---|---|
| `EditDistance.OsaWithin` | core/src/search/editdist.rs:66-102 | With three rotated rows and the row-minimum cut-off: `Some(d)` means `d` is the least cost of any script of insertions, deletions, substitutions and adjacent swaps in which no character is edited twice, and `d <= max`; `None` means every such script costs more than `max` |
| `EditDistance.LevenshteinWithin` | core/src/search/editdist.rs:22-51 | The same with two rolling rows and no swaps |
| `EditDistance.DistanceIsLeastCost` | core/src/search/editdist.rs:22-102 | The last entry of the table is the least cost over all scripts, and no other number is |
| `EditDistance.EntryIsLowerBound` | core/src/search/editdist.rs:34-101 | No allowed script between two prefixes is cheaper than their table entry |
| `EditDistance.BestScript` | core/src/search/editdist.rs:34-101 | For every pair of prefixes a script that costs exactly the table entry |
| `EditDistance.BestMoveAttains` | core/src/search/editdist.rs:34-101 | Which of the moves attains a table entry, and from which neighbour |
| `EditDistance.DistanceToPart` | core/src/search/editdist.rs:22-102 | From a text to any part of it both distances are the number of characters left out |
| `EditDistance.NothingSharedIsFar` | core/src/search/editdist.rs:22-102 | Texts without a common character are at least as far apart as the first is long |
| `EditDistance.NextRowAbove` | core/src/search/editdist.rs:81-99 | When a whole row exceeds `max`, every entry of the next row does, although a swap reads two rows back |
| `EditDistance.RowCutOff` | core/src/search/editdist.rs:44-95 | A row above `max` settles the answer, so leaving early never changes it |
| `EditDistance.OsaRow` | core/src/search/editdist.rs:82-92 | The inner loop fills one row of the table from the two before it and returns the least entry of the row |
| `EditDistance.LevenshteinRow` | core/src/search/editdist.rs:37-43 | The inner loop fills one row of the table from the one before it and returns the least entry of the row |
| `EditDistance.LevenshteinIsShortestChain` | core/src/search/editdist.rs:22-51 | The distance is the length of a shortest chain of strings, neighbours differing by one insertion, deletion or substitution anywhere |
| `EditDistance.DistanceSymmetric` | core/src/search/editdist.rs:22-102 | Both distances are symmetric |
| `EditDistance.LevenshteinTriangle` | core/src/search/editdist.rs:22-51 | The triangle inequality |
| `EditDistance.OsaVersusLevenshtein` | core/src/search/editdist.rs:55-102 | `osa <= levenshtein <= 2 * osa` |
| `EditDistance.DistanceZero` | core/src/search/editdist.rs:22-102 | The distance is 0 exactly between equal strings |
| `EditDistance.EntryBounds` | core/src/search/editdist.rs:22-27 | No distance is below the difference in length, which is why the kernels may reject on it first, nor above the longer length |
| `EditDistance.SwapDistance` | core/src/search/editdist.rs:55-102 | Swapping two different neighbouring characters anywhere in a text is distance 1 with swaps and 2 without |
| `Scoring.WordFuzzySearch` | core/src/search/editdist.rs:112-156 | The hits are the first `limit` of the complete ranking by (distance, id), whatever order the rows are scanned in |
| `Scoring.ClosestWithin` | core/src/search/editdist.rs:127-139 | The word loop with its break at 0 finds the same best distance as looking at every word |
| `Scoring.WordScoreMeaning` | core/src/search/editdist.rs:105-156 | A document scores `d` exactly when `d` is the least distance from the query to one of its words and `d <= 1` or `4 * d <= len`; it is no hit exactly when every word is farther than that |
| `Scoring.DamerauHitsCover` | core/src/search/editdist.rs:105-156 | Over a whole table every Levenshtein hit is a Damerau-Levenshtein hit with a score no larger |
| `SearchMeanings.RankedAnswerMeaning` | core/src/search/mod.rs:24-63 | With the hits said in plain terms (distance to the closest word, share of trigrams), an answer has as many as fit and its k-th hit has exactly `offset + k` better ones by (score, id) |
| `HitOrder.RankAndTruncate` | core/src/search/fuzzy_trigram.rs:63-71 | Sorting and truncating distinct hits yields the first `limit` of the one strictly sorted sequence of their set |
| `HitOrder.RankingUnique` | core/src/search/fuzzy_trigram.rs:60-71 | Only one strictly (score, id)-sorted sequence has a given set of elements, so the output is deterministic |
| `HitOrder.SortIsRanking` | core/src/search/fuzzy_trigram.rs:63-64 | The order hits were pushed in never shows |
| `HitOrder.PagesTile` | core/src/search/mod.rs:44-63 | Pages 0, 1, 2, ... read one after another are the whole sequence in order: nothing twice, nothing lost |
| `SearchMeanings.PagesOfSearchTile` | core/src/engine.rs:758-773 | Answers for pages 0, 1, 2, ... of a ranked search, put together, are its best hits in order: nothing twice, nothing lost |
| `SearchMeanings.PageBounds` | core/src/engine.rs:758-773 | A page starts at `page * per_page`, and overflows exactly past 4294967295: with its start, or for the ranked strategies with its end |
| `Scoring.FuzzyTrigramSearch` | core/src/search/fuzzy_trigram.rs:97-154 | With the FTS5 pre-filter the hits equal the first `limit` of a full Jaccard scan (exact comparison below three characters) |
| `Scoring.TrigramCandidates` | core/src/search/fuzzy_trigram.rs:104-136 | Every row left out of the comparison has no score |
| `Scoring.TrigramScoreMeaning` | core/src/search/fuzzy_trigram.rs:22-61 | With the sets of three-character parts of query and document: a hit exactly if `10 * common >= 3 * all`, with the score times `all` being `all - common`; below three characters only equality, with score 0; nothing for an empty query |
| `Trigrams.PreFilterIsComplete` | core/src/search/fuzzy_trigram.rs:79-93 | Every document at or above the similarity threshold matches the OR query, however FTS5 folds case |
| `Trigrams.BuildFts5Or` | core/src/search/fuzzy_trigram.rs:79-93 | Parsing the built expression gives back exactly the trigram set, in lexicographic order |
| `Trigrams.ParseOfOr` | core/src/search/fuzzy_trigram.rs:85-92 | Parsing a joined OR expression gives back its phrases, even when they hold quotes, spaces or the letters OR |
| `Trigrams.PhraseIsLiteral` | core/src/search/mod.rs:89-93 | A quoted query is read as that one phrase and never as query syntax |
| `Trigrams.CollectTrigrams` | core/src/search/fuzzy_trigram.rs:24-35 | The loop collects exactly the three-character windows |
| `Trigrams.TrigramOccurs` | core/src/search/fuzzy_trigram.rs:24-35 | A three-character string is among the trigrams exactly when it occurs in the text |
| `Trigrams.JaccardThreshold` | core/src/search/fuzzy_trigram.rs:22-61 | The 0.3 threshold in whole numbers: `10 * inter >= 3 * union`, with a non-empty union |
| `Trigrams.JaccardPerfect` | core/src/search/fuzzy_trigram.rs:51-61 | Similarity 1 exactly for equal, non-empty trigram sets |
| `Trigrams.PhraseIsContainment` | core/src/search/substring.rs:34-42 | From three characters on, a trigram phrase matches exactly the documents that contain the text, up to the case folding |
| `Like.EscapeLike` | core/src/search/mod.rs:68-80 | The loop computes the escaped text |
| `Like.EscapedIsLiteral` | core/src/search/mod.rs:66-80 | Escaped text followed by `%` matches exactly the strings that start with the text, up to ASCII case, whatever it contains |
| `Like.LikeIsContainment` | core/src/search/mod.rs:66-80 | `%` + escaped query + `%` matches exactly the strings that contain the query literally, up to ASCII case |
| `Like.AllTermsSearch` | core/src/search/all_terms.rs:22-86 | As many of the documents containing every whitespace-separated term as fit the page, no others, none twice; nothing for a query without terms |
| `Like.AllTermsCount` | core/src/search/all_terms.rs:88-101 | Counts exactly the documents containing every term |
| `Like.AllTermsIgnoresOrder` | core/src/search/all_terms.rs:12-47 | Queries with the same set of terms find the same documents: order and repetition do not matter |
| `Like.WholeQueryHasAllTerms` | core/src/search/all_terms.rs:12-47 | Every document that contains the whole query contains all its terms |
| `Text.WordsAreRuns` | core/src/search/all_terms.rs:22-31 | The words are the longest runs of non-whitespace and nothing else |
| `Substring.SubstringSearch` | core/src/search/substring.rs:17-75 | Both branches select documents containing the query, under the folding in force, as many as fit the page |
| `Substring.SubstringCount` | core/src/search/substring.rs:77-94 | Counts exactly the documents containing the query |
| `Substring.FoldedTextIsLiteral` | core/src/search/substring.rs:17-43 | On text the folding leaves alone both branches are plain containment |
| `RangeScan.RangeIsPrefixSearch` | core/src/search/mod.rs:99-117 | The scan over [query, upper bound) is prefix search exactly when every character dropped from the bound is U+10FFFF; dropping U+D7FF, whose successor is a surrogate, widens it |
| `RangeScan.PrefixesAreInRange` | core/src/search/mod.rs:99-117 | Every string that starts with the query is in the range, for every query |
| `RangeScan.RangeShape` | core/src/search/mod.rs:105-117 | What the range holds in general: the extensions of the unpopped part that are not below the popped tail |
| `RangeScan.RangeUpperBound` | core/src/search/mod.rs:105-117 | The pop-and-increment loop computes the bound |
| `RangeScan.PrefixSearch` | core/src/search/prefix.rs:16-33 | Selects from the range; when the range is exact, from exactly the documents that start with the query |
| `RangeScan.PrefixCount` | core/src/search/prefix.rs:35-38 | Counts exactly the range: never fewer than the documents that start with the query, exactly those when the range is exact |
| `RangeScan.SuffixSearch` | core/src/search/suffix.rs:16-35 | The reversed scan selects, when exact for the reversed query, from exactly the documents that end with the query |
| `RangeScan.SuffixCount` | core/src/search/suffix.rs:37-41 | Counts exactly the range over the reversed column: never fewer than the documents that end with the query, exactly those when it is exact |
| `SearchMeanings.UnrankedAnswerMeaning` | core/src/search/mod.rs:24-33 | Character by character: what prefix, suffix, substring and all-terms find, as many different matches as fit; an answer that is not full has every match even when the range is wider |
| `SearchMeanings.ExactMeaning` | core/src/search/mod.rs:99-117 | A prefix query is exact exactly if each U+D7FF in it is followed by a character with a successor, a suffix query if preceded by one |
| `Text.SuffixIsReversedPrefix` | core/src/search/mod.rs:95-99 | A string ends with the query exactly when its reversal starts with the reversed query |
| `Like.LikeIsSuffixExactly` | README.md:191 | `LIKE` with `%` before the escaped query finds what the exact comparison of suffix search finds, for all texts, exactly when the query has no ASCII letter |
| `Utf8.ByteOrderIsCodePointOrder` | core/src/search/mod.rs:129-164 | The byte order SQLite compares text by is the code-point order (RFC 3629, sections 1 and 3) |
| `Utf8.EncodeCharMeaning` | core/src/search/mod.rs:129-164 | The bytes of a character: one below 0x80, else a lead byte that tells the length and six bits in each byte behind it (RFC 3629, section 3) |
| `Utf8.ByteLenIsEncodedLength` | core/src/engine.rs:1313-1314 | The byte lengths the highlighter adds up are the lengths of the UTF-8 encodings |
| `Utf8.EncodeInjective` | core/src/search/mod.rs:129-164 | Different strings have different encodings |
| `Normalize.FoldedIdempotent` | core/src/normalize/mod.rs:34-58 | For every subset of the six table-free steps in the canonical order, and every string, folding twice is folding once |
| `Normalize.FixedPoint` | core/src/normalize/steps.rs:24-85 | A per-character step changes nothing exactly when every character is settled given what precedes it |
| `Normalize.StepSettles` | core/src/normalize/steps.rs:24-85 | Each step leaves only settled characters behind |
| `Normalize.ChoonpuKeeps` | core/src/normalize/mod.rs:34-42 | Dropping prolonged-sound marks re-enables neither iteration marks nor kana folding |
| `Normalize.UngroupingKeeps` | core/src/normalize/mod.rs:34-54 | Removing grouping commas re-enables no earlier step |
| `Normalize.CollapsingKeeps` | core/src/normalize/mod.rs:34-57 | Collapsing whitespace re-enables no per-character step |
| `Normalize.CollapsingKeepsUngrouped` | core/src/normalize/mod.rs:52-57 | Collapsing whitespace never brings a comma between two digits |
| `Normalize.UngroupingLeavesNone` | core/src/normalize/steps.rs:87-107 | Removing commas creates no new grouping comma |
| `Normalize.NormalizeText` | core/src/normalize/mod.rs:27-59 | The reassigning method computes the composed normalizer |
| `FixedPoints.FixedPointExactly` | core/src/normalize/mod.rs:27-59 | For every choice of steps without diacritic folding, both presets included: normalizing again changes nothing exactly when no run of marks in the NFKC form of the input joins what the kana steps and lowercasing put before it |
| `FixedPoints.JoinsExactly` | core/src/normalize/mod.rs:31-44 | The kana steps and lowercasing leave NFKC text in NFKC exactly under that condition |
| `FixedPoints.UntouchedNeverJoins` | core/src/normalize/mod.rs:31-44 | The condition holds if no mark stands directly behind a character that a step rewrites or drops |
| `FixedPoints.AnchorOfPresets` | core/src/config.rs:29-43 | Without expansion and dropping, as in both presets, what stands before a mark depends on the one character before it |
| `FoldingExactly.FixedPointWithDiacriticsExactly` | core/src/normalize/mod.rs:27-59 | With diacritic folding on: normalizing again changes nothing exactly when no stretch of the NFKC form of the input, from one character the kana steps keep to the next, meets the next stretch: folded, it does not end in something on which an iteration or prolonged-sound mark at the start of the next one acts |
| `FoldingExactly.MeetsExactly` | core/src/normalize/mod.rs:33-47 | The kana steps, lowercasing and diacritic folding leave no mark directly behind a character it acts on exactly under that condition |
| `FoldingExactly.FixedPointByFoldedText` | core/src/normalize/mod.rs:27-59 | The same fixed point in terms of the text after diacritics are folded |
| `FoldingExactly.DroppedMarksExpose` | core/src/normalize/mod.rs:39-47 | Whenever only diacritics that folding drops stand between a kept character and an iteration or prolonged-sound mark that acts on it, a second pass changes the result; an iteration mark behind an iteration mark must have no marks behind it |
| `FoldingExactly.UnmarkedNeverMeets` | core/src/normalize/mod.rs:33-47 | Nothing meets if no iteration or prolonged-sound mark stands behind a Japanese character with marks between them or behind the mark |
| `FixedPointExamples.LowercaseJoins` | core/src/normalize/mod.rs:27-59 | The default preset: J U+030C gives j U+030C, then U+01F0 |
| `FixedPointExamples.ExpansionJoins` | core/src/normalize/mod.rs:27-59 | Expansion alone: は U+309D U+309A gives はは U+309A, then はぱ |
| `FixedPointExamples.DroppingJoins` | core/src/normalize/mod.rs:27-59 | Folding prolonged-sound marks alone: か ー U+3099 gives か U+3099, then が |
| `FixedPointExamples.FoldingExposes` | core/src/normalize/mod.rs:27-59 | With diacritic folding: か U+0301 ー gives かー, then か |
| `FixedPointExamples.FoldingExposesIteration` | core/src/normalize/mod.rs:27-59 | With diacritic folding: か U+0301 U+309D gives かゝ, then かか |
| `FixedPointExamples.AccentBehindDropped` | core/src/normalize/mod.rs:27-59 | But か ー U+0301 gives か and stays か |
| `FixedPointExamples.LawsCanBeMet` | core/src/normalize/mod.rs:27-59 | The laws that these statements assume of the tables can be met together |
| `Joining.PunctuationKeepsFixed` | core/src/normalize/mod.rs:48-57 | The punctuation steps neither join marks to what precedes them nor part them, for any normalization form that can be cut around dashes and whitespace |
| `Normalize.NormalizedIdempotent` | core/src/normalize/mod.rs:27-59 | With nothing assumed of the tables: without the two steps that use them, the normalizer is idempotent on every input whose result NFKC leaves alone |
| `Normalize.BlankQuery` | core/src/engine.rs:780-794 | A query that is only whitespace after NFKC normalizes to nothing if whitespace is collapsed and stays as it is otherwise, under every choice of the other steps |
| `BlankQueries.BlankSearch` | core/src/engine.rs:780-787 | Such a normal form finds nothing in any table exactly for all-terms, and for the edit distances from two characters on |
| `BlankQueries.BlankQueryFindsNothing` | core/src/engine.rs:780-787 | So a whitespace-only query finds nothing in every index exactly if whitespace is collapsed or the strategy is one of those |
| `BlankQueries.WitnessIsFound` | core/src/engine.rs:780-787 | For every other strategy a document that the query finds |
| `Steps.ExpandIterationMarks` | core/src/normalize/steps.rs:62-74 | The loop with its output stack computes the expansion by the last character written |
| `Steps.FoldChoonpu` | core/src/normalize/steps.rs:44-56 | The loop with its flag computes the folding by the last character written |
| `Steps.ChoonpuIsLocal` | core/src/normalize/steps.rs:44-56 | The stateful loop drops exactly the marks whose neighbour in the input is kana or another mark |
| `Steps.StripDigitGrouping` | core/src/normalize/steps.rs:87-107 | The loop removes exactly the commas with an ASCII digit on both sides of the input |
| `Steps.CollapseWhitespace` | core/src/normalize/steps.rs:111-126 | The loop with its pending-space flag computes the collapsed text |
| `Steps.CollapsedIsJoinedWords` | core/src/normalize/steps.rs:109-126 | Collapsing is joining the words with single spaces; the result is empty exactly when there is no word |
| `Steps.CollapseKeepsWords` | core/src/normalize/steps.rs:109-126 | Collapsing changes no word, and doing it again changes nothing |
| `StepMeanings.KanaFoldMeaning` | core/src/normalize/mod.rs:61-76 | U+30A1 to U+30F6 go down by 0x60 and nothing else changes; two texts are folded alike exactly when they differ in the type of their kana only |
| `StepMeanings.KanaTypeIsIgnored` | core/src/normalize/mod.rs:34-58 | With kana folding on, texts that NFKC keeps and that differ only in the type of their kana have the same normal form, whatever the other steps |
| `StepMeanings.ExpandedMeaning` | core/src/normalize/steps.rs:58-75 | In code points, behind what was written before: U+3005 repeats a kanji, U+309D and U+30FD kana, U+309E and U+30FE its voiced form for the forty kana that have one; everything else stays |
| `StepMeanings.HyphensMeaning` | core/src/normalize/steps.rs:77-84 | Nine code points become `-`, and nothing else changes |
| `StepMeanings.ChoonpuMeaning` | core/src/normalize/steps.rs:41-56 | Of the input exactly the U+30FC directly behind kana, itself included, are left out; the rest stays in order |
| `StepMeanings.GroupingMeaning` | core/src/normalize/steps.rs:85-107 | Of the input exactly the commas between two ASCII digits are left out; the rest stays in order |
| `StepMeanings.WhitespaceMeaning` | core/src/normalize/steps.rs:109-126 | With the 25 code points of White_Space: words stay, the last whitespace between two words becomes a space, and no other is left |
| `StepMeanings.CombiningMarksMeaning` | core/src/normalize/steps.rs:12-39 | Of the decomposed text exactly U+0300 to U+036F are left out |
| `StepMeanings.StepsInOrder` | core/src/normalize/mod.rs:34-58 | NFKC first, then the enabled steps in the one order, each on what the one before it wrote |
| `Config.Fingerprint` | core/src/config.rs:84-117 | The conditional pushes and the join spell the preset key or the enabled steps in order |
| `Config.FingerprintSpelling` | core/src/config.rs:31-117 | The options of the presets and their historical names; for any other choice the fingerprint letter by letter |
| `Config.FingerprintInjective` | core/src/config.rs:80-117 | Different options never share a fingerprint, so an index is never taken for one built differently |
| `Config.FlagsInjective` | core/src/config.rs:91-116 | A list of optional keys that clash pairwise can be decoded from its spelling |
| `Packing.UnpackPack` | core/src/engine.rs:344-372 | Record and slot come back out of a packed id, the slot narrowed to eight bits |
| `Packing.PackInRange` | core/src/engine.rs:339-372 | A valid record and slot pack into 0..=i64::MAX, inside the record's range |
| `Packing.MaxRecordFits` | core/src/engine.rs:337-341 | The largest record id is 2^(63 - bits) - 1 and its last slot is i64::MAX: no bit is wasted, none overflows |
| `Packing.ValidRecordExactly` | core/src/engine.rs:337-341 | The record ids accepted are exactly those of the ids from 0 to i64::MAX |
| `Packing.ShiftIsProduct` | core/src/engine.rs:369-372 | Shifting left is multiplying by 2^bits, with no bit lost for a valid record (see `Packing.PackInRange`) |
| `Packing.RangeIsRecord` | core/src/engine.rs:369-388 | An id lies in a record's inclusive range exactly when it unpacks to that record, so a range delete touches no neighbour |
| `Packing.PackOrder` | core/src/engine.rs:344-372 | Packed ids compare as (record, slot) pairs do |
| `Packing.RepackFaithful` | core/src/engine.rs:1180-1201 | Re-packing keeps record and slot, stays within 64 bits and can be undone |
| `Packing.RepackOrder` | core/src/engine.rs:1180-1201 | Re-packing keeps the order of ids |
| `Packing.FitsExactly` | core/src/engine.rs:1180-1201 | An id can be re-encoded exactly when it is non-negative and some id from 0 to i64::MAX has its record and slot in the new encoding; no other id than the re-packed one does |
| `Engine.SearchEngine.Adopt` | core/src/engine.rs:465-475 | Stamps the field bits, then regenerates under the new options or stamps the fingerprint |
| `Engine.SearchEngine.Open` | core/src/engine.rs:420-477 | Resolves field bits, compares fingerprints, stamps, regenerates; every error leaves the stored index as it was |
| `IndexState.OpenedVerdict` | core/src/engine.rs:390-462 | Which opens are refused, with which error and in which order: bits outside 1 to 62, other bits than those of a non-empty index, other options without a rebuild |
| `CallMeanings.ReopenMeaning` | core/src/engine.rs:420-476 | A reachable index that holds something: under its own options and bits a reopening changes nothing; other bits are refused always, other options without a rebuild, and a refusal leaves the index as it was; with a rebuild every row is normalized afresh |
| `CallMeanings.OpenEmptyMeaning` | core/src/engine.rs:420-476 | An empty index takes any options and the bits asked for, from 1 to 62, or eight |
| `CallMeanings.OpenUnstampedMeaning` | core/src/engine.rs:272-325 | A non-empty index without stamps opens as loose with eight bits and as nothing else |
| `Engine.SearchEngine.Index` | core/src/engine.rs:569-586 | Both tables gain the same id with the normal form, its reversal and the raw text; one step of a run |
| `CallMeanings.WriteMeaning` | core/src/engine.rs:569-702 | What inserting, removing and their batches do to the row under any id: the last text given for it, nothing, or what was there before |
| `Engine.SearchEngine.IndexBatch` | core/src/engine.rs:645-666 | Equals folding `index` over the items in order, later duplicates winning |
| `Engine.SearchEngine.Reindex` | core/src/engine.rs:600-624 | Every row with raw text is normalized afresh, the others stay, the new fingerprint is stamped; row order never shows |
| `CallMeanings.ReindexMeaning` | core/src/engine.rs:600-624 | A reachable index is already what regenerating it would give |
| `Engine.SearchEngine.Remove` | core/src/engine.rs:628-634 | The id leaves both tables |
| `Engine.SearchEngine.RemoveBatch` | core/src/engine.rs:677-690 | Equals folding `remove` over the ids |
| `Engine.SearchEngine.RemoveAll` | core/src/engine.rs:694-702 | Both tables are emptied, the stamps stay, the number of rows is returned |
| `Engine.SearchEngine.IndexRecord` | core/src/engine.rs:856-908 | Reports the first fault and writes nothing, or clears the record's range and stores its non-empty fields |
| `CallMeanings.IndexRecordMeaning` | core/src/engine.rs:856-908 | On a reachable index: under each id of the record its slot's field, if text is left of it, or nothing; other records as before; a refused record changes nothing |
| `CallMeanings.RecordFaultMeaning` | core/src/engine.rs:856-882 | A record id beyond 64 bits is reported first, then the first field whose slot is too large or was used before |
| `Engine.SearchEngine.IndexRecordsBatch` | core/src/engine.rs:921-979 | One invalid record leaves the whole index unchanged; otherwise the batch equals folding `index_record` |
| `CallMeanings.RecordsFaultMeaning` | core/src/engine.rs:929-953 | The first record with a fault decides for its batch |
| `Engine.SearchEngine.RemoveRecord` | core/src/engine.rs:982-994 | Removes the record's range, or rejects an id out of range |
| `CallMeanings.RemoveRecordMeaning` | core/src/engine.rs:982-994 | Exactly the ids that unpack to the record are emptied; a record id beyond 64 bits changes nothing |
| `Engine.SearchEngine.ChangeFieldBits` | core/src/engine.rs:1156-1220 | All or nothing: every row under its new id and the new bits stamped, or an error that names an id which does not fit, with nothing changed |
| `CallMeanings.ReencodingMeaning` | core/src/engine.rs:1156-1220 | On a reachable index: for 1 to 62 bits, if every row has an id from 0 to i64::MAX with its record and slot in the new encoding, each row moves there with its text and nothing else is stored; otherwise nothing changes |
| `Engine.SearchEngine.Search` | core/src/engine.rs:744-751 | An empty normal form finds nothing; otherwise the strategy's answer over the engine's tables |
| `Engine.SearchEngine.SearchPage` | core/src/engine.rs:758-773 | The page [page * per_page, (page + 1) * per_page) of that answer, or an overflow error exactly when the page starts past 32 bits or a ranked strategy would have to fetch past them |
| `Engine.SearchEngine.MatchCount` | core/src/engine.rs:787-794 | The number of hits, capped at `u32::MAX` for the ranked strategies |
| `Engine.SearchEngine.SearchRecords` | core/src/engine.rs:1003-1053 | Collapses an over-fetched answer of the strategy to its first `limit` records |
| `SearchMeanings.RawLimitMeaning` | core/src/engine.rs:1013 | The hits fetched: `limit * fields`, with no fields read as one, at most 4294967295 |
| `SearchMeanings.RecordsFoundInFull` | core/src/engine.rs:1003-1053 | If no record stores more fields than told (0 read as 1), and `limit * fields` or the number of hits is at most 4294967295, a ranked record search answers with the front of the ranking of all records |
| `SearchMeanings.AllRecordsMeaning` | core/src/engine.rs:1018-1052 | That ranking: every record with a hit once, under its best score, the k-th with exactly k better ones |
| `SearchMeanings.MatchedSlotsMeaning` | core/src/engine.rs:1035-1048 | The slots of all hits of the record that were fetched, as often as they were, by score and then by slot |
| `Engine.RankedRecordsFound` | core/src/engine.rs:1003-1053 | For a ranked strategy that collapses the best hits of all and, with the field count not understated, gives the first `limit` records of the complete ranking |
| `Engine.SearchEngine.SearchRecordsPage` | core/src/engine.rs:1115-1138 | For every strategy that slice of the records found, or an overflow error exactly when the page end exceeds 32 bits |
| `Engine.SearchEngine.MatchCountRecords` | core/src/engine.rs:1086-1108 | The number of different records among the hits of an answer limited only by `u32::MAX` |
| `Engine.CountsAllRecords` | core/src/engine.rs:1086-1108 | That is the number of all records with a hit, ranked or not, as long as the hits number at most `u32::MAX` |
| `Engine.SearchEngine.HighlightText` | core/src/engine.rs:809-842 | The document's own text with one marker pair per match around the source characters; nothing for an unknown id or an empty query; `norm` for a row without raw text |
| `Engine.SearchEngine.HighlightRecord` | core/src/engine.rs:1059-1080 | The same for a field, rows without raw text included, after rejecting first a record and then a slot that the encoding does not have |
| `IndexState.NoFieldFault` | core/src/engine.rs:863-882 | The scan with its set of seen slots finds no fault exactly when all slots fit and no two are equal |
| `IndexState.RecordsAccepted` | core/src/engine.rs:929-953 | A batch passes the checks exactly when each of its records does |
| `IndexState.SlotIsFree` | core/src/engine.rs:887-905 | Inside a cleared range no insertion meets an existing row |
| `IndexState.MovedIsRepacked` | core/src/engine.rs:1203-1215 | Tables holding the moved rows are the old tables read through the new encoding |
| `Runs.ReachableIndex` | core/src/engine.rs:420-702 | In every reachable index with an engine: `docs` is the `norm` column, `norm_rev` its reversal, the stamps are the engine's, every row with raw text is that text normalized under the stamped options |
| `Runs.StepKeeps` | core/src/engine.rs:420-702 | Every call keeps the index consistent with its stamps |
| `Runs.RunKeeps` | core/src/engine.rs:856-1220 | So does every run, from a fresh file or any consistent stored index |
| `Runs.RunKeepsIds` | core/src/engine.rs:337-372 | In every run every stored id, packed ones included, is a 64-bit number |
| `Runs.RebuildIsReplay` | core/src/engine.rs:420-477 | For any field bits, opening with rebuild under new options gives the tables that replaying the same calls under those options from an empty index gives, document and record calls mixed, if no field is empty under one choice of options only; engine and stamps are the same exactly if the bits are asked for again, the index is not empty or the bits are the default |
| `RecordLayer.RecordPutReplaces` | core/src/engine.rs:856-908 | After `index_record` the record holds exactly its non-empty fields and no stale slot; every other record is untouched |
| `RecordLayer.BatchLastWins` | core/src/engine.rs:921-979 | After an accepted batch the last item for a record decides its fields; records not named are untouched |
| `RecordLayer.FieldRowsMeaning` | core/src/engine.rs:891-905 | A slot is stored exactly when a field is given for it with text left after normalization, with that field's text |
| `RecordLayer.RepackKeepsFields` | core/src/engine.rs:1156-1220 | Changing the field bits keeps the map from (record, slot) to row |
| `RecordLayer.RepackKeepsOrder` | core/src/engine.rs:1156-1220 | The new ids are non-negative 64-bit numbers in the old order |
| `RecordLayer.RepackBackRestores` | core/src/engine.rs:1156-1220 | Changing the bits back is possible and restores the index |
| `RecordLayer.RecordRebuildIsReplay` | core/src/engine.rs:891-895 | A rebuilt record equals the record stored under the new options exactly when no field is empty under one choice of options only |
| `RecordLayer.RebuildMissesDroppedField` | core/src/engine.rs:891-895 | That can fail: a field of one space, dropped when whitespace collapses, is missing after a rebuild without collapsing |
| `RecordSearch.CollapseHits` | core/src/engine.rs:1019-1052 | Grouping in a hash map, draining it in any order and sorting gives the first `limit` records by (best score, record id), each with its slots by (score, slot) |
| `RecordSearch.OverFetchIsEnough` | core/src/engine.rs:1003-1053 | Collapsing the first `n` hits gives the first `limit` records of the complete ranking once `n` covers `limit` records of at most `fields` hits, or all hits |
| `RecordSearch.CollapseIsInitialSegment` | core/src/engine.rs:1018-1052 | Records seen among the best hits come before every record that is not |
| `RecordSearch.EnoughRecordsExactly` | core/src/engine.rs:1018-1052 | The best hits collapse to the front of the complete ranking exactly when they belong to `limit` records or to all that match |
| `RecordSearch.CollapseSize` | core/src/engine.rs:1095-1107 | There is one collapsed hit per matching record |
| `RankedRecords.RecordAnswerIsComplete` | core/src/engine.rs:1003-1053 | Under the same hypotheses over a table: the answer is the front of the ranking of all records |
| `RankedRecords.RecordAnswerExactly` | core/src/engine.rs:1003-1053 | Without them: it is that exactly when the fetched hits belong to `limit` records or to all that match |
| `Guarantees.UnderstatedFieldsLoseARecord` | core/src/engine.rs:999-1002 | Understating the field count by one can break that: a table of two records, asked for two, answers with one |
| `RankedRecords.PageOfAnswer` | core/src/engine.rs:1115-1138 | A slice of such an answer is that slice of the ranking of all records |
| `RankedRecords.RecordAnswerUnique` | core/src/engine.rs:1018-1052 | Ids, scores and matched slots are determined by the fetched hits |
| `RankedRecords.RelabelledRanking` | core/src/engine.rs:1156-1220 | Under re-packed ids the complete ranking is the old one, hit by hit |
| `RankedRecords.RelabelledCollapse` | core/src/engine.rs:1018-1052 | Re-packed hits collapse to the same records with the same scores |
| `Strategies.Search` | core/src/search/mod.rs:24-33 | Every strategy answers: the front of its complete ranking, or a selection of the documents its statement selects |
| `Strategies.SelectedMeaning` | core/src/search/mod.rs:24-33 | Those are all the documents that match, and for prefix and suffix queries whose range is exact no others |
| `Strategies.SearchPaged` | core/src/search/mod.rs:44-63 | A page of that answer; no answer exactly for a ranked strategy whose page ends past 32 bits |
| `Strategies.MatchCount` | core/src/search/mod.rs:34-43 | The number of hits, capped at `u32::MAX`, for a ranked strategy; the number of selected documents for the others |
| `Highlight.HighlightRaw` | core/src/engine.rs:1286-1357 | One marker pair per greedy match and nothing else inserted, for every normalizer; when prefix lengths never decrease, the marked characters are exactly the sources of the matches |
| `Highlight.HighlightDetermined` | core/src/engine.rs:1286-1357 | When prefix lengths never decrease, these conditions leave only one possible output |
| `Highlight.MatchesAreGreedy` | core/src/engine.rs:1238-1300 | The matches are occurrences, apart from each other, and every occurrence overlaps one of them |
| `Highlight.MarkersDeleted` | core/src/engine.rs:1233-1357 | Deleting the markers from the output gives the raw text back |
| `Highlight.MarkedLength` | core/src/engine.rs:1233-1357 | The output is longer by exactly one marker pair per span |
| `Highlight.BuildBounds` | core/src/engine.rs:1305-1323 | The table lists the raw boundaries with their normalized prefix lengths, cut at the first that reaches the last match |
| `Highlight.TableAgrees` | core/src/engine.rs:1305-1323 | Cutting the table there changes no boundary that is looked up |
| `Highlight.PartitionPoint` | core/src/engine.rs:1326-1332 | The binary search splits the table at the offset |
| `Highlight.StartFor` | core/src/engine.rs:1325-1329 | The last raw boundary whose prefix normalizes to at most the offset |
| `Highlight.EndFor` | core/src/engine.rs:1330-1338 | The first raw boundary whose prefix normalizes to at least the offset |
| `Highlight.NextSpan` | core/src/engine.rs:1345-1354 | A span pushed past the previous one adds exactly the part of its source not yet marked |
| `Highlight.SourceContainsMatch` | core/src/engine.rs:1325-1338 | For a normalizer that appends, what it adds between the two ends of a match's source contains the match |
| `Highlight.HighlightOccurrences` | core/src/engine.rs:1233-1259 | One marker pair around every greedy match of the text itself |
| `Highlight.IdentityIsOccurrences` | core/src/engine.rs:1233-1357 | With the identity normalizer both highlighters write the same text |
| `HighlightNormalizer.GrowingIsMonotone` | core/src/engine.rs:1262-1286 | Under every choice of options, text meets the highlighter's condition if one more character of it never takes bytes from what the punctuation steps are given |
| `HighlightNormalizer.NormalizerIsMonotone` | core/src/engine.rs:1262-1286 | Without diacritic folding that is so for text whose NFKC form grows by appending, or by composing the last character to at least as many bytes |
| `HighlightNormalizer.HalfWidthVoiced` | core/src/engine.rs:1262-1286 | Half-width ｶ followed by ﾞ is such text |
| `Guarantees.ReachableIsSearchable` | core/src/engine.rs:744-751 | The precondition of every search holds in every reachable state |
| `Guarantees.IndexedTextIsFound` | core/src/engine.rs:569-586 | Searching for a text just indexed, unless it normalizes to nothing: the unranked strategies select its id (all-terms if it has a term), trigram similarity scores it as perfect, the edit distances find it exactly if one of its words leaves out no more of it than the query may differ from a word, with score 0 if it is one word |
| `Guarantees.RepackedIsRelabelled` | core/src/engine.rs:1156-1220 | After changing the field bits the table holds the same text under re-packed ids |
| `Guarantees.FieldBitsAreInvisible` | core/src/engine.rs:1156-1220 | Every ranked record search answers the same before and after changing the field bits, in ids, scores and matched slots |
| `Guarantees.FieldBitsCanBeUndone` | core/src/engine.rs:1156-1220 | In every reachable state, changing the field bits and changing them back restores index and engine exactly |

## Left out

- The `trigram_bm25` strategy: its scores, and its order on ties, are computed by SQLite.
- SQLite and FTS5 themselves, pragmas, the schema and its migration; NUL characters and the length limit of `LIKE` patterns.
- Unicode tables (NFKC, NFD, NFC, lowercase) and floating-point rounding of scores and of the 0.3 threshold.
- Interleavings: runs are sequential with one engine per index. `change_field_bits` reads and writes the bits outside
  the connection lock, so concurrent record calls could use the old encoding.
- Which open database a connection belongs to, poisoned locks, error message texts, capacity hints.
- `contains`, `contains_record`, `document_count` and `reindex_status`: they only read one row or one stamp.
- Loading spec JSON, the UniFFI bindings, the Flutter plugin, sample apps and benchmarks.
- Runs.ReachableIndex: rows without raw text are outside the clause on normalization, because `reindex` skips them.
- Runs.RebuildIsReplay: every call must store the same fields under both choices of options; for one record that
  condition is exact (`RecordLayer.RecordRebuildIsReplay`), for a run it is sufficient.
- Engine.SearchEngine.ChangeFieldBits: the error names an id that does not fit, but not which one of several; rows are
  loaded in no fixed order.
- Engine.SearchEngine.SearchRecords: does not claim that `matched_slots` is complete, since a record's later slots may
  lie beyond the over-fetch; for unranked strategies it does not say which records are chosen.
- Engine.SearchEngine.MatchCountRecords: past `u32::MAX` hits it counts the records of the hits fetched.
- FixedPoints.FixedPointExactly: assumes the laws of `UnicodeLaws`, which hold of the Unicode tables but are not derived
  from them; the same goes for the other statements on the fixed point.
- Normalize.NormalizedIdempotent: one-directional, because nothing is assumed about NFKC; the exact statement is
  `FixedPoints.FixedPointExactly`.
- FoldingExactly.UnmarkedNeverMeets: sufficient; the exact statement is `FoldingExactly.FixedPointWithDiacriticsExactly`.
- FoldingExactly.DroppedMarksExpose: sufficient, like it.
- Highlight.HighlightRaw: when prefix lengths do decrease, only bounds, the number of marker pairs and the untouched
  text are stated, not which characters are marked.
- HighlightNormalizer.GrowingIsMonotone: the condition is on the text; whether every text meets it depends on the
  Unicode tables, of which nothing is assumed here.
- HighlightNormalizer.NormalizerIsMonotone: sufficient; text in which NFKC reorders more than the last character so far,
  and diacritic folding, are covered by `HighlightNormalizer.GrowingIsMonotone` only.
