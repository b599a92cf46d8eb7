# CSV similarity parser, modelled in Dafny

`CSVSimilarityParser` is a small desktop tool. It loads two CSV tables: a
*reference* table (CSV 1) and a *target* table (CSV 2, the file to process). It
suggests which reference header corresponds to which target header, using
case-insensitive equality or `difflib` similarity above 0.6. It lets the user edit
that mapping and pick the columns to match on. Finally it writes a copy of the
target with a status column: `"YES"` where the row's stripped cells in the selected
columns equal those of some reference row, and `"NO"` elsewhere.

The model has these modules:

- `Wrappers` holds `Option` and `Result`.
- `Text` holds Python's `str.lower()` (ASCII) and `str.strip()`, which uses Python's
  whitespace set.
- `Difflib` holds the Ratcliff/Obershelp ratio of `SequenceMatcher(None, a, b)`, on
  exact rationals. It keeps the longest matching block: earliest in `a`, then
  earliest in `b`, recursing left and right. There is no junk.
- `OrderedDict` holds an insertion-ordered dict with string keys.
- `HeaderMapping` holds the scan of `auto_map_columns` and the mapping it derives.
- `Matching` holds composite keys, the reference lookup set, and the tagging of the
  target copy, which happens in place on an array. Its `Run` is the specification of
  one processing run.
- `MatchingProperties` holds the properties of a run: its lookup contents, tag
  correctness, the match count, when a run fails, and what a run does not depend on.
- `Parser` holds the class `SimilarityParser`. Its fields are the tool's state, and
  its methods are the loading, auto-mapping, mapping edits, checkbox and processing
  operations.
- `Demo` holds the tables of the demo script and the outcome of its run.

Ratios are pairs `Ratio(num, den)` with `num = 2·M` and `den = T`, where M is the number of matched characters and T the total length of both strings. When both strings are empty the ratio is `Ratio(1, 1)`, as `difflib` returns 1.0 there. `ratio > best`
is decided by cross-multiplication. `ratio > 0.6` is `5·num > 3·den`, that is
`10·M > 3·T`.

## Model

| member | source | states |
|---|---|---|
| Text.Lower | csv_similarity_parser.py:216 | lower-casing keeps the length of the header |
| Text.IsSpace | csv_similarity_parser.py:366 | definition only: the characters Python's `str.isspace` accepts, which `strip()` removes; used by the Strip lemmas |
| Text.Strip | csv_similarity_parser.py:366 | `str.strip()`; its contract bounds only the length, and its meaning is in StripIsInnerSlice, StripIdempotent, StripUnpadded and StripIgnoresPadding |
| Text.StripIsInnerSlice | csv_similarity_parser.py:366 | `strip()` returns a contiguous slice of the cell whose first and last characters are not whitespace |
| Text.StripIdempotent | csv_similarity_parser.py:366 | stripping twice is stripping once |
| Text.StripUnpadded | csv_similarity_parser.py:366 | a cell with no whitespace at either end is its own stripped value |
| Text.StripIgnoresPadding | csv_similarity_parser.py:366 | whitespace added on either side of a cell does not change its stripped value |
| Difflib.RunLength | csv_similarity_parser.py:222 | the common run starting at (i, j) stays inside both ranges |
| Difflib.RunIsCommon | csv_similarity_parser.py:222 | the run's two slices are equal, and it cannot be extended: it ends at a range end or at differing characters |
| Difflib.RunLengthOfSelf | csv_similarity_parser.py:222 | a string against itself runs from i to its end |
| Difflib.SearchFinds | csv_similarity_parser.py:222 | the search over all start pairs keeps the longest run, earliest in `a`, then earliest in `b` |
| Difflib.LongestMatch | csv_similarity_parser.py:222 | the longest matching block lies inside both ranges, matches, is as long as any run, and is the earliest among the longest |
| Difflib.MatchedSize | csv_similarity_parser.py:222 | the number of matched characters fits in each range |
| Difflib.SequenceRatio | csv_similarity_parser.py:222 | the ratio lies in [0, 1] with a positive denominator |
| Difflib.RatioOfIdentical | csv_similarity_parser.py:222 | a string compared with itself has ratio 1 |
| Difflib.Greater | csv_similarity_parser.py:223 | definition only: `ratio > best_ratio` by cross-multiplication of the exact fractions; its meaning is in GreaterThanAtLeast, AboveIsGreaterThanBelow and SimilarityRule |
| Difflib.AboveThreshold | csv_similarity_parser.py:223 | definition only: `ratio > 0.6` as `5·num > 3·den`; its meaning is in AboveIsGreaterThanBelow, StepFromNone and SimilarityRule |
| Difflib.GreaterThanAtLeast | csv_similarity_parser.py:223 | a ratio strictly above the best so far is also above every ratio the best already beat or tied |
| HeaderMapping.SameIgnoringCase | csv_similarity_parser.py:216 | definition only: the two headers are equal after lower-casing; its meaning is in ExactFlag, ExactIsFinal and ExactMatchWins |
| HeaderMapping.HeaderRatio | csv_similarity_parser.py:222 | the ratio of the lower-cased headers lies in [0, 1] |
| HeaderMapping.Step | csv_similarity_parser.py:215-225 | definition only: one pass of the inner loop body; its meaning is in StepFromNone, StepReplaces, StepKeeps and ExactIsFinal |
| HeaderMapping.ScanTargets | csv_similarity_parser.py:211-225 | definition only: the inner loop over the target headers; its meaning is in ExactFlag, ScanWithoutExact and SimilarityRule |
| HeaderMapping.BestMatch | csv_similarity_parser.py:210-225 | definition only: the `best_match` the inner loop ends with; its meaning is in SimilarityRule, ExactMatchWins, BestMatchIsTarget and FindBestMatch |
| HeaderMapping.FindBestMatch | csv_similarity_parser.py:210-224 | the inner loop with its break returns the best match its scan specification defines |
| HeaderMapping.ExactFlag | csv_similarity_parser.py:215-219 | the scan ends on an exact match exactly when some target equals the header case-insensitively |
| HeaderMapping.ExactIsFinal | csv_similarity_parser.py:215-219 | the first case-insensitive equal target stops the scan with that target and ratio 1 |
| HeaderMapping.ExactMatchWins | csv_similarity_parser.py:214-219 | the first case-insensitively equal target is chosen, whatever candidate came before it |
| HeaderMapping.ChosenIsUnique | csv_similarity_parser.py:222-225 | at most one target meets the similarity rule (strictly best above 0.6, earliest on ties) |
| HeaderMapping.AboveIsGreaterThanBelow | csv_similarity_parser.py:223 | a ratio above 0.6 is greater than any ratio at or below it |
| HeaderMapping.StepFromNone | csv_similarity_parser.py:222-225 | the first target above 0.6 becomes the best candidate |
| HeaderMapping.StepReplaces | csv_similarity_parser.py:222-225 | a target strictly better than the best candidate and above 0.6 replaces it |
| HeaderMapping.StepKeeps | csv_similarity_parser.py:222-225 | a target that is not strictly better leaves the best candidate in place, so ties keep the earliest |
| HeaderMapping.ScanWithoutExact | csv_similarity_parser.py:211-225 | with no exact match, every scanned prefix keeps either no candidate (all ratios at most 0.6) or the candidate the rule chooses |
| HeaderMapping.SimilarityRule | csv_similarity_parser.py:211-228 | with no exact match, the header is unmapped iff every ratio is at most 0.6; otherwise the chosen target is above 0.6 and no target has a strictly greater ratio |
| HeaderMapping.BestMatchIsTarget | csv_similarity_parser.py:211-224 | a best match is always one of the target headers |
| HeaderMapping.Recorded | csv_similarity_parser.py:227 | definition only: `if best_match:`, a best match exists and is not the empty string; its meaning is in AutoMapEntries, RecordedHeaders and AutoMapKeyOrder |
| HeaderMapping.AutoMap | csv_similarity_parser.py:208-228 | the derived mapping is a well-formed ordered dict |
| HeaderMapping.AutoMapEntries | csv_similarity_parser.py:208-228 | the keys are exactly the reference headers whose best match is a non-empty target header; each value is that best match; the mapping is built from an empty dict |
| HeaderMapping.RecordedHeaders | csv_similarity_parser.py:211-228 | its elements are exactly the reference headers whose best match is a non-empty target header |
| HeaderMapping.AutoMapKeyOrder | csv_similarity_parser.py:208-228 | for distinct reference headers, the mapping's keys are the headers that have a recorded match, in reference-header order |
| OrderedDict.OrderedMap.Put | csv_similarity_parser.py:228 | assigning a key sets its entry, keeps every other entry, and appends the key only when it is new |
| OrderedDict.OrderedMap.RemoveAt | csv_similarity_parser.py:316-317 | deleting the key at a position of the key order removes that entry and closes the gap in the order |
| OrderedDict.Empty | csv_similarity_parser.py:208 | the empty dict has no keys |
| Matching.Column | csv_similarity_parser.py:363-366 | definition only: the column a selected header is read from, the header itself on the reference side and its mapped header on the target side; its meaning is in KeyValues and CompositeKeyExists |
| Matching.CompositeKey | csv_similarity_parser.py:363-366 | building a key fails only with a KeyError |
| Matching.CompositeKeyExists | csv_similarity_parser.py:363-381 | a row has a key iff every selected column is mapped and its column on that side is in the row |
| Matching.KeyValues | csv_similarity_parser.py:363-381 | a key has one stripped cell per selected column, in selection order: the reference column itself on the reference side, the mapped column on the target side |
| Matching.FirstFailure | csv_similarity_parser.py:361-381 | the index of the first row whose key raises, or the row count when none does |
| Matching.FirstFailureAt | csv_similarity_parser.py:361-381 | the first failure is the row that raises when every earlier row has a key |
| Matching.KeysUpTo | csv_similarity_parser.py:361-368 | definition only: the keys of the first n rows, as the lookup loop collects them; its meaning is in KeysUpToMembers, KeysUpToSize, KeysUpToNext and KeysUpToSkip |
| Matching.Lookup | csv_similarity_parser.py:361-368 | definition only: the reference key set, or the first raising row's KeyError; its meaning is in LookupContents, LookupSize and BuildLookup |
| Matching.BuildLookup | csv_similarity_parser.py:360-368 | the lookup loop returns the set of all reference keys, or the first row's KeyError |
| Matching.KeysUpToNext | csv_similarity_parser.py:366-368 | adding a row with a key adds exactly its key to the collected set |
| Matching.KeysUpToSkip | csv_similarity_parser.py:361-368 | a row without a key adds nothing to the collected set |
| Matching.WithStatus | csv_similarity_parser.py:354-358 | definition only: the target copy with the status column set to NO in every row; its meaning is in RunShape |
| Matching.TagRow | csv_similarity_parser.py:376-384 | definition only: one output row after the loop has looked at it, with its status set from the lookup; its meaning is in RunShape, RunTagsMatches and TagProgressStep |
| Matching.StatusOf | csv_similarity_parser.py:376-384 | definition only: YES when the row's key is in the lookup, NO otherwise; its meaning is in RunTagsMatches |
| Matching.Tagged | csv_similarity_parser.py:373-385 | definition only: every row tagged, or the first raising row's KeyError; its meaning is in TagRows, RunTagsMatches and TaggedIgnoresOrder |
| Matching.CountYes | csv_similarity_parser.py:373-385 | definition only: the number of YES rows, counted in row order; its meaning is in CountYesIsYesRows and RunCountsMatches |
| Matching.Run | csv_similarity_parser.py:347-414 | definition only: one processing run with its error cases; its meaning is in RunShape, RunTagsMatches, RunCountsMatches, RunSucceedsIff and ProcessFilesThread |
| Matching.TagRows | csv_similarity_parser.py:373-385 | the tagging loop rewrites each row's status in place to its specified tag, counts the YES rows, and stops at the first KeyError |
| Matching.TagProgressStep | csv_similarity_parser.py:373-385 | tagging row i in place extends the tagged prefix by one row |
| Matching.TagProgressDone | csv_similarity_parser.py:373-385 | once every row is tagged, the array holds the specified tagged rows |
| Matching.TagProgressFails | csv_similarity_parser.py:376-381 | a row whose key raises makes the whole tagging fail with that row's error |
| Matching.CountYesAppend | csv_similarity_parser.py:383-385 | one more row adds one to the counter iff it is tagged YES |
| Matching.RewriteNo | csv_similarity_parser.py:357-385 | writing NO over a NO leaves the row as it was |
| MatchingProperties.KeysEqualIff | csv_similarity_parser.py:363-383 | two keys are equal iff the rows agree cell by cell after stripping |
| MatchingProperties.MatchIsStrippedAndCaseSensitive | csv_similarity_parser.py:366 | `" Doe "` matches `"Doe"`, and `"doe"` does not |
| MatchingProperties.KeyIgnoresOtherColumns | csv_similarity_parser.py:376-381 | changing a cell outside the selected columns leaves a row's key unchanged |
| MatchingProperties.KeyUsesSelectedEntries | csv_similarity_parser.py:363-381 | only the mapping entries of the selected columns affect keys |
| MatchingProperties.HasKeyIgnoresOrder | csv_similarity_parser.py:333-336 | whether a row has a key does not depend on the order of the selected columns |
| MatchingProperties.KeysEqualIgnoresOrder | csv_similarity_parser.py:333-336 | whether two rows' keys are equal does not depend on the order of the selected columns |
| MatchingProperties.LookupContents | csv_similarity_parser.py:360-368 | a key is in the lookup iff some reference row has that key |
| MatchingProperties.KeysUpToMembers | csv_similarity_parser.py:360-368 | a key is among those of the first n rows iff one of those rows has that key |
| MatchingProperties.KeysUpToAgrees | csv_similarity_parser.py:360-368 | two key builders that agree on every row collect the same keys |
| MatchingProperties.KeysUpToSize | csv_similarity_parser.py:360-368 | the keys of the first n rows number at most n |
| MatchingProperties.LookupSize | csv_similarity_parser.py:360-368 | the lookup has at most as many keys as the reference has rows |
| MatchingProperties.RunShape | csv_similarity_parser.py:354-358 | the output has the target's rows in order; every original cell is kept except the status column, which is added when new |
| MatchingProperties.RunTagsMatches | csv_similarity_parser.py:373-385 | a row's tag is YES when its key, read after the status column was set to NO, is some reference row's key, and NO otherwise |
| MatchingProperties.RunTagsOwnCells | csv_similarity_parser.py:357-385 | when no selected column maps to the status column, a row's tag is YES when some reference row has the row's own key, and NO otherwise |
| MatchingProperties.RowTag | csv_similarity_parser.py:373-385 | when no selected column maps to the status column, output row u is YES iff some reference row has target row u's key, and NO otherwise |
| MatchingProperties.RowTagYes | csv_similarity_parser.py:373-385 | when no selected column maps to the status column, a target row sharing a reference row's key is tagged YES |
| MatchingProperties.CountYesIsYesRows | csv_similarity_parser.py:383-385 | the counter equals the number of YES rows |
| MatchingProperties.RunCountsMatches | csv_similarity_parser.py:383-385 | `matches_found` equals the number of YES rows of the output |
| MatchingProperties.AllRowsHaveKeys | csv_similarity_parser.py:361-381 | in a table whose rows share one column set, no row raises iff the table has no rows or every selected column is mapped and its column on that side is present |
| MatchingProperties.RunSucceedsIff | csv_similarity_parser.py:361-414 | for well-formed tables, a run succeeds iff every selected column is mapped, is a reference column when the reference has rows, and maps to a target column or to the status column when the target has rows; otherwise it fails with a KeyError and writes nothing |
| MatchingProperties.RunIgnoresColumnOrder | csv_similarity_parser.py:333-385 | a run over one ordering of the selected columns succeeds iff it succeeds over any other ordering, with the same output; a failing run may name a different missing column |
| MatchingProperties.AllKeysIgnoreOrder | csv_similarity_parser.py:361-381 | whether every row has a key does not depend on the order of the selected columns |
| MatchingProperties.SameStatus | csv_similarity_parser.py:373-385 | a row's tag does not depend on the order of the selected columns |
| MatchingProperties.TaggedIgnoresOrder | csv_similarity_parser.py:333-385 | the tagging succeeds under one ordering of the selected columns iff under the other, with the same rows |
| MatchingProperties.FirstFailureAgrees | csv_similarity_parser.py:361-381 | two key builders that agree on which rows have keys fail at the same row |
| MatchingProperties.RunIgnoresUnselectedMappings | csv_similarity_parser.py:363-380 | mapping entries of unselected columns do not affect a run |
| MatchingProperties.LookupIgnoresUnselected | csv_similarity_parser.py:360-368 | the lookup depends only on the mapping entries of the selected columns |
| MatchingProperties.TaggedIgnoresUnselected | csv_similarity_parser.py:373-385 | the tagging depends only on the mapping entries of the selected columns |
| Parser.AllChecked | csv_similarity_parser.py:246-253 | the rebuilt checkboxes have one box per mapped header, in mapping order, each checked |
| Parser.CheckedKeys | csv_similarity_parser.py:333-336 | the selection holds exactly the checked keys |
| Parser.CheckedKeysOfAllChecked | csv_similarity_parser.py:246-253 | when every key is checked, the selection is the key list itself |
| Parser.SelectionFollowsMapping | csv_similarity_parser.py:246-253 | right after a mapping change, processing would select exactly the mapping's keys, in order |
| Parser.CheckEvery | csv_similarity_parser.py:246-253 | the checkbox loop builds exactly the all-checked boxes of the mapping |
| Parser.SelectChecked | csv_similarity_parser.py:333-336 | the selection loop collects exactly the checked keys, in key order |
| Parser.SimilarityParser.ReadyToProcess | csv_similarity_parser.py:322-328 | definition only: both tables loaded and both the mapping and the checkboxes non-empty, the condition for enabling the process button; used by UpdateMappingSuggestions |
| Parser.SimilarityParser.constructor | csv_similarity_parser.py:24-29 | nothing is loaded or mapped, the status column has its default name, and processing is disabled |
| Parser.SimilarityParser.UpdateMatchingCheckboxes | csv_similarity_parser.py:239-253 | the checkboxes are rebuilt from the mapping, all checked; nothing else changes |
| Parser.SimilarityParser.AutoMapColumns | csv_similarity_parser.py:206-231 | the mapping is re-derived from the two header lists alone, so earlier edits are discarded and re-running gives the same mapping; all boxes are checked |
| Parser.SimilarityParser.UpdateMappingSuggestions | csv_similarity_parser.py:198-204 | with both header lists non-empty, the mapping is re-derived and the process button follows its enabling condition; otherwise nothing changes |
| Parser.SimilarityParser.LoadReference | csv_similarity_parser.py:178-186 | a failed read reports an error and changes nothing; a read table replaces the reference and its headers and, when both header lists are non-empty, re-derives the mapping; otherwise the mapping, checkboxes and button are unchanged |
| Parser.SimilarityParser.LoadTarget | csv_similarity_parser.py:188-196 | a failed read reports an error and changes nothing; a read table replaces the target and its headers and, when both header lists are non-empty, re-derives the mapping; otherwise the mapping, checkboxes and button are unchanged |
| Parser.SimilarityParser.EditMapping | csv_similarity_parser.py:267-300 | with no selection it warns; a non-empty new target for an existing position overwrites only that entry and keeps the key order; anything else changes nothing |
| Parser.SimilarityParser.RemoveMapping | csv_similarity_parser.py:305-320 | with no selection it warns; it deletes exactly the key at the selected position, and does nothing when the position is past the end |
| Parser.SimilarityParser.AddMapping | csv_similarity_parser.py:427-458 | it warns unless both files are loaded and both names are chosen; then it sets only that entry, appending a new key at the end |
| Parser.SimilarityParser.SetMatchingColumn | csv_similarity_parser.py:252-258 | toggling a box changes only that box |
| Parser.SimilarityParser.SetStatusColumn | csv_similarity_parser.py:134 | only the status column name changes |
| Parser.SimilarityParser.ProcessFiles | csv_similarity_parser.py:330-345 | it collects the checked keys, rejects an empty selection before any work starts, and otherwise yields the specified run; the button is enabled again after a run |
| Parser.SimilarityParser.ProcessFilesThread | csv_similarity_parser.py:347-414 | copy with NO, then lookup, then in-place tagging; the result is exactly the specified run, with an error and no output when either table is missing or a key raises |
| Demo.DemoRun | demo.py:14-73 | the demo tables tag target rows 1, 2 and 4 YES, alice's row NO, and count 3 matches |
| Demo.DemoReferenceWellFormed | demo.py:14-20 | every reference row has exactly the reference header columns |
| Demo.DemoTargetWellFormed | demo.py:26-33 | every target row has exactly the target header columns |
| Demo.ReferenceRowKey | demo.py:14-20 | a reference row's key with the demo mapping is its four matched cells |
| Demo.TargetRowKey | demo.py:26-33 | a target row's key with the demo mapping is its four matched cells |
| Demo.AliceUnmatched | demo.py:14-33 | alice's key differs from every reference row's key |
| Demo.DemoSucceeds | demo.py:14-73 | the demo run succeeds, yields four rows and sets the status on each |
| Demo.DemoMatchedRows | demo.py:14-73 | target rows 1, 2 and 4 are tagged YES |
| Demo.DemoAliceRow | demo.py:14-73 | alice's row is tagged NO |

## Left out

- The Tk window, its widgets, message boxes and dialogs. Each dialog is replaced by the value the user confirms in it: the selected list position, the chosen header, or the typed status name. Cancelling a dialog is simply not calling the operation.
- `update_mapping_display` only redraws the listbox from the mapping. The display keeps no state, so it has no member.
- The file dialogs, `pd.read_csv` and `to_csv`, which are I/O. `LoadReference` and `LoadTarget` take the parsed table, or None when the reader raises. A successful run's output table is returned rather than written.
- Threading, `root.after` and log messages. `ProcessFiles` runs the processing to completion in place of starting a thread.
- Progress logging every 1000 rows, and the output file name, which depends on the clock and on `os.path`.
- pandas `str()` rendering of cells. Cells are already strings, and rows are maps from header to cell. Rows whose columns differ from the header list are not excluded; `WellFormed` states the pandas shape where a lemma needs it.
- `difflib`'s autojunk heuristic, which applies only to sequences of 200 or more characters. Floating point is replaced by exact rationals.
- Text.Lower: lower-cases ASCII letters only. Python's `lower()` also maps other Unicode letters, and this is not modelled.
- `matching_columns` is a Python set. The model keeps it as a sequence in checkbox order. `RunIgnoresColumnOrder` shows that every iteration order of the set gives the same success and the same output. When a run fails, the column named in its KeyError can depend on that order, in the model as in the source.
- `matching_vars` does not exist in the source until the first auto-map. The model starts it as an empty dict, and processing with it empty is rejected, as in the source.
- The comboboxes let the user pick only headers of the loaded tables. The model accepts any non-empty name, which is what the save handlers check; a header that is missing then shows up as a KeyError when processing.
- A status column name equal to an existing target column overwrites that column with NO before keys are read. The model keeps this behaviour, and `RunTagsMatches` states it.
- Parser.SimilarityParser.ProcessFiles: does not require the process button to be enabled, because the handler itself does not check it.
- HeaderMapping.AutoMapKeyOrder: the key order is stated only for distinct reference headers. `pd.read_csv` makes the headers of a read table distinct by renaming duplicates. With a repeated header, a key keeps the position of its first occurrence, and the model does not state that case.
