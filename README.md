# Data curation for The Stack, modelled in Dafny

This project models the pure and table-shaped core of a data-curation pipeline for The
Stack (a corpus of source files kept as Parquet tables, one directory per language), and
the core of its GitHub downloader.

- **Row filter.** `filter_parquet_file` loads one Parquet file of source-code rows. It
  cuts the table down through seven stages, in a fixed order:
  1. a line-length window;
  2. a minimum size;
  3. a maximum size in KiB;
  4. an open alphanumeric-fraction window;
  5. a minimum average line length;
  6. an estimated line count;
  7. a parse check.

  It builds a rejects table tagged with the reason for each rejection and derives the
  output paths of both tables. `row_filter.dfy` states the stages and which rows reach each one.
  `label_selection.dfy` models pandas' label-aligned boolean selection and
  `rejects_table.dfy` the rejects table with `fillna` and `sort_index`.
  `filter_as_written.dfy` models the filter exactly as the code runs it.
  `reject_ledger.dfy` models the filter as its comments describe it, against the
  intended rejects table of `ledger_spec.dfy`, with the bookkeeping proved in
  `ledger_growth.dfy`, `reason_fill.dfy` and `ledger_bookkeeping.dfy`. `funnel_properties.dfy` states what each version
  keeps, condition by condition, and proves the boundaries, monotonicity in the
  thresholds, and idempotence. `output_paths.dfy` models the path derivation.
- **Presets.** The permissive, moderate and aggressive threshold records, and the
  keyword defaults of the filter (`curation_configs.dfy`).
- **Language selection.** `filter_meta_languages` chooses the languages of The Stack to
  curate by `top_k`, by size, or by file count, then drops the bad languages
  (`meta_languages.dfy`).
- **Helpers.**
  - `flatten_l_o_l`;
  - `contains_repeating_substring` (a regex `(s){n,}` stated as "some position starts
    n copies");
  - `replace_byte_encoded_string` (`curation_helpers.dfy`).
- **Downloader, preprocessing.** The repository list and its segments, the bad-extension
  list, the parallelism parameters and the repository chunks (`preprocessing_utils.dfy`).
- **Downloader, processing.**
  - `get_file_size` and `keep`;
  - the decision made by `get_content`;
  - the file-name filter of `process_repo`;
  - the loop in which `process_repo` assembles its `(text, meta)` output
    (`processing_utils.dfy`).

Python strings are `seq<char>`. The string operations the code relies on are defined once
in `strings.dfy`: `startswith`, `in`, `rsplit` with a limit, `replace` (every occurrence)
and `os.path.join`.

External parts of the system are parameters of the model:
- the Python parser (`ast.parse`);
- MIME detection;
- decoding;
- the directory walk;
- the random sample.

The filter takes the loaded table as a sequence of rows, each carrying its pandas index
label.

Where the code and its comments disagree, the model follows the code. The commented
intent is modelled beside it under its own name. Three such places are listed under
Findings. Two more behaviours of the code are worth knowing, and neither is claimed as
a bug:
- The size cap compares `file_size // 1024` with `max_size_kbs`. Any size below
  `(max_size_kbs + 1) * 1024` bytes therefore passes, not only sizes up to
  `max_size_kbs * 1024`.
- A zero average line length is divided by without error in pandas. A positive size
  gives +inf and passes the line-count stage; a zero size gives NaN and fails.

## Model

| member | source | states |
|---|---|---|
| RowFilter.SourceCodeCompatible | cllm_data_curation/thestack_curation/curation_utils.py:353-363 | true exactly when the text parses; false exactly when the parser raises SyntaxError or ValueError |
| RowFilter.FirstFailAtLeast | cllm_data_curation/thestack_curation/curation_utils.py:99-155 | a row reaches stage k exactly when it passes every stage before k, stages taken in the code's order |
| RowFilter.Survivors | cllm_data_curation/thestack_curation/curation_utils.py:99-155 | the rows reaching stage k are exactly the table's rows passing every earlier stage |
| RowFilter.SurvivorsIncreasing | cllm_data_curation/thestack_curation/curation_utils.py:99-155 | the survivors of any stage keep the table's increasing index order |
| RowFilter.FailingAt | cllm_data_curation/thestack_curation/curation_utils.py:104-158 | the rows first dropped at stage k are exactly those whose first failing stage is k, in table order |
| RowFilter.LineEstimateAtLeast | cllm_data_curation/thestack_curation/curation_utils.py:145 | for a positive average line length, `file_size / ave_ll >= min_lines` holds exactly when file_size >= min_lines·ave_ll; for a negative one the inequality turns round (a zero average is pandas' division by zero: infinity for a positive size, never at least min_lines otherwise) |
| RowFilter.MeetsThreshold | cllm_data_curation/thestack_curation/curation_utils.py:99-145 | the parse stage has no threshold; `file_size // 1024 <= max_size_kbs` admits exactly the sizes below (max_size_kbs + 1)·1024; with a positive average line length the line estimate is the multiplied-out comparison; partner FunnelProperties.ThresholdsByName states all six tests on the row's fields |
| RowFilter.PassesAsWritten | cllm_data_curation/thestack_curation/curation_utils.py:99-155 | the code's stage test agrees with the commented one on stages one to six and is its negation at the parse stage |
| RowFilter.AsWritten | cllm_data_curation/thestack_curation/curation_utils.py:99-155 | as written, the parse stage keeps a row exactly when its content does NOT parse |
| RowFilter.AsCommented | cllm_data_curation/thestack_curation/curation_utils.py:97-155 | as commented, the parse stage keeps a row exactly when its content parses |
| LabelSelection.Mask | cllm_data_curation/thestack_curation/curation_utils.py:99 | a flag column has a flag for the label of every row of the table it was computed on |
| LabelSelection.MaskAt | cllm_data_curation/thestack_curation/curation_utils.py:99 | on increasing labels, the flag under a row's label is that row's own test |
| LabelSelection.Where | cllm_data_curation/thestack_curation/curation_utils.py:100-104 | selecting with a mask (or its negation) keeps exactly the rows whose label carries the wanted flag, in order, aligned by label |
| LabelSelection.WhereAgrees | cllm_data_curation/thestack_curation/curation_utils.py:99-104 | a mask agreeing with the stage test selects exactly what the test selects |
| LabelSelection.StageCut | cllm_data_curation/thestack_curation/curation_utils.py:99-104 | splitting stage k's input by its test gives stage k+1's survivors and the rows first dropped at k |
| LabelSelection.StageSelections | cllm_data_curation/thestack_curation/curation_utils.py:99-104 | on the rows reaching a stage: `df[flag]` gives the next survivors; `df[~flag]` before the reassignment gives the rows dropped there, and after it gives nothing |
| LabelSelection.FirstKept | cllm_data_curation/thestack_curation/curation_utils.py:99-100 | on the loaded table, `df[flag]` for the line-length window keeps exactly the rows passing the first stage |
| LabelSelection.FirstDropped | cllm_data_curation/thestack_curation/curation_utils.py:99-104 | on the loaded table, `df[~flag]` is exactly the rows the first stage drops |
| LabelSelection.FirstNoneLeft | cllm_data_curation/thestack_curation/curation_utils.py:100-104 | once the table is cut to the first stage's survivors, `df[~flag]` on it is empty |
| LabelSelection.NoneFailAgain | cllm_data_curation/thestack_curation/curation_utils.py:100-104 | rows kept by a test never fail that test again |
| RejectsTable.Untagged | cllm_data_curation/thestack_curation/curation_utils.py:113 | rows appended to the rejects table keep their order and arrive with a missing reason |
| RejectsTable.SetReason | cllm_data_curation/thestack_curation/curation_utils.py:105 | assigning the reason column gives every row that reason and changes no row |
| RejectsTable.FillNa | cllm_data_curation/thestack_curation/curation_utils.py:114 | `fillna` keeps the rows; a reason already set is never overwritten and a missing one becomes the tag |
| RejectsTable.Insert | cllm_data_curation/thestack_curation/curation_utils.py:113 | inserting into a label-sorted table keeps it sorted and adds exactly that entry |
| RejectsTable.SortIndex | cllm_data_curation/thestack_curation/curation_utils.py:113 | `sort_index` gives a label-sorted permutation of the table |
| RejectsTable.EmptyStaysEmpty | cllm_data_curation/thestack_curation/curation_utils.py:113-114 | an empty chunk concatenated to an empty rejects table, sorted and filled, stays empty |
| FilterAsWritten.FirstStageAsWritten | cllm_data_curation/thestack_curation/curation_utils.py:99-105 | as written, the first stage leaves the rows inside the line-length window and an empty rejects table |
| FilterAsWritten.StageAsWritten | cllm_data_curation/thestack_curation/curation_utils.py:108-159 | as written, each later stage leaves the next survivors, and the rejects table stays empty |
| FilterAsWritten.FilterParquetRows | cllm_data_curation/thestack_curation/curation_utils.py:99-159 | the method as written: the survivors of all seven stages in table order, with the parse stage keeping what does not parse, and an empty rejects table |
| LedgerSpec.Entry | cllm_data_curation/thestack_curation/curation_utils.py:105-159 | a dropped row's rejects entry is that row with a reason set |
| LedgerSpec.Ledger | cllm_data_curation/thestack_curation/curation_utils.py:103-159 | the intended rejects table after k stages holds exactly the rows dropped there, each once, tagged with its first failing stage |
| LedgerSpec.LedgerSorted | cllm_data_curation/thestack_curation/curation_utils.py:113 | on a table with increasing labels, the intended rejects table is strictly ordered by label |
| LedgerSpec.Entries | cllm_data_curation/thestack_curation/curation_utils.py:113-114 | a failing chunk, tagged, keeps its rows and order |
| LedgerSpec.SortedUnique | cllm_data_curation/thestack_curation/curation_utils.py:113 | with distinct labels, `sort_index` has exactly one answer |
| LedgerGrowth.LedgerMultiset | cllm_data_curation/thestack_curation/curation_utils.py:113 | the ledger so far plus the rows dropped at stage k hold the same entries as the ledger after k+1 stages |
| ReasonFill.FillNaInsert | cllm_data_curation/thestack_curation/curation_utils.py:113-114 | filling reasons keeps a label-sorted table sorted and commutes with inserting one entry |
| ReasonFill.FillNaSort | cllm_data_curation/thestack_curation/curation_utils.py:113-114 | filling reasons commutes with sorting by label |
| LedgerBookkeeping.FillNaParts | cllm_data_curation/thestack_curation/curation_utils.py:114 | filling tags only the fresh chunk, with the stage's reason, and leaves the earlier entries alone |
| LedgerBookkeeping.LedgerStep | cllm_data_curation/thestack_curation/curation_utils.py:113-114 | concat, then `sort_index`, then `fillna` on the stage's dropped rows gives the ledger of one more stage |
| LedgerBookkeeping.LedgerFirst | cllm_data_curation/thestack_curation/curation_utils.py:104-105 | the first stage's dropped rows tagged "max_ll" form the ledger of one stage |
| RejectLedger.FirstStageAsCommented | cllm_data_curation/thestack_curation/curation_utils.py:99-105 | the first stage with the chunk taken before the cut: survivors of one stage and the one-stage ledger |
| RejectLedger.StageAsCommented | cllm_data_curation/thestack_curation/curation_utils.py:107-159 | each later stage, with the chunk taken before the cut, advances both the survivors and the ledger by one stage |
| RejectLedger.FilterParquetRowsAsCommented | cllm_data_curation/thestack_curation/curation_utils.py:97-159 | the filter as its comments describe it: the survivors keep what parses, and the rejects table is the full ledger in label order |
| RejectLedger.Partition | cllm_data_curation/thestack_curation/curation_utils.py:97-159 | every row is either kept or in the ledger once, and the two counts add up to the table's size |
| FunnelProperties.AllStages | cllm_data_curation/thestack_curation/curation_utils.py:99-154 | passing all seven stages is passing each stage by name |
| FunnelProperties.ThresholdsByName | cllm_data_curation/thestack_curation/curation_utils.py:99-145 | the six threshold conditions written on the row's fields are the six stage tests |
| FunnelProperties.KeptAsWrittenIff | cllm_data_curation/thestack_curation/curation_utils.py:99-155 | as written, a row is kept exactly when it is inside all six thresholds and its content does not parse |
| FunnelProperties.KeptAsCommentedIff | cllm_data_curation/thestack_curation/curation_utils.py:99-155 | as commented, a row is kept exactly when it is inside all six thresholds and its content parses |
| FunnelProperties.ParseableDropped | cllm_data_curation/thestack_curation/curation_utils.py:154 | as written, no row whose content parses survives |
| FunnelProperties.ParseableKept | cllm_data_curation/thestack_curation/curation_utils.py:153-155 | a parseable row inside the thresholds is kept as commented and dropped as written |
| FunnelProperties.VersionsComplementary | cllm_data_curation/thestack_curation/curation_utils.py:154 | on rows inside the thresholds, the two versions keep complementary rows |
| FunnelProperties.MaxSizeBoundary | cllm_data_curation/thestack_curation/curation_utils.py:117 | the size stage passes exactly the sizes below `(max_size_kbs + 1) * 1024` |
| FunnelProperties.MaxSizeEdges | cllm_data_curation/thestack_curation/curation_utils.py:117 | `max_size_kbs*1024 + 1023` bytes pass and `(max_size_kbs + 1)*1024` bytes fail |
| FunnelProperties.StageEdges | cllm_data_curation/thestack_curation/curation_utils.py:99-145 | both ends of the line-length window are included; min_len and min_lines are inclusive; the alphanumeric window excludes both ends; the average line length must be strictly greater |
| FunnelProperties.ZeroAverageLineLength | cllm_data_curation/thestack_curation/curation_utils.py:145 | with a zero average line length, the line-count stage passes exactly when the size is positive |
| FunnelProperties.LineCountDivisorPositive | cllm_data_curation/thestack_curation/curation_utils.py:136-145 | with min_ave_ll >= 0, every row reaching the line-count stage has a positive divisor, and the test is the plain quotient |
| FunnelProperties.VersionsUseThresholds | cllm_data_curation/thestack_curation/curation_utils.py:99-145 | both versions apply the configuration's tests at stages one to six |
| FunnelProperties.ThresholdMonotone | cllm_data_curation/thestack_curation/curation_utils.py:99-145 | a looser configuration admits at each stage whatever a stricter one admits |
| FunnelProperties.ThresholdsMonotone | cllm_data_curation/thestack_curation/curation_utils.py:99-145 | a row inside a stricter configuration's thresholds is inside a looser one's |
| FunnelProperties.FunnelMonotone | cllm_data_curation/thestack_curation/curation_utils.py:99-155 | in both versions, a row kept under a stricter configuration is kept under a looser one |
| FunnelProperties.PresetsMonotone | cllm_data_curation/thestack_curation/curation_configs.py:5-38 | aggressive keeps a subset of moderate, which keeps a subset of permissive, in both versions |
| FunnelProperties.SurvivorsIdempotent | cllm_data_curation/thestack_curation/curation_utils.py:99-155 | filtering the survivors again keeps all of them |
| FunnelProperties.FirstFailureTagged | cllm_data_curation/thestack_curation/curation_utils.py:104-114 | as commented, a row outside the line-length window is tagged "max_ll", whatever else it fails |
| FunnelProperties.ParseFailureTagged | cllm_data_curation/thestack_curation/curation_utils.py:154-159 | as commented, a row failing only the parse stage is tagged "python2" |
| FunnelProperties.ScenarioTooSmall | cllm_data_curation/thestack_curation/curation_utils.py:108-114 | under the moderate preset, a 40-byte row is tagged "file_too_small" as commented and vanishes as written |
| FunnelProperties.ScenarioParseable | cllm_data_curation/thestack_curation/curation_utils.py:153-155 | under the moderate preset, a parseable 200-byte row is kept as commented and dropped as written |
| CurationConfigs.Preset | cllm_data_curation/thestack_curation/curation_configs.py:5-38 | a preset exists exactly for the three style names, and each has non-empty windows and a positive average-line-length bound |
| CurationConfigs.PresetsOrdered | cllm_data_curation/thestack_curation/curation_configs.py:5-38 | field by field, permissive is no stricter than moderate, which is no stricter than aggressive |
| CurationConfigs.PresetsWellFormed | cllm_data_curation/thestack_curation/curation_configs.py:6-37 | every preset and the defaults have min_max_ll <= max_ll, min_alphanum < max_alphanum and min_ave_ll > 0 |
| CurationConfigs.DefaultsVersusModerate | cllm_data_curation/thestack_curation/curation_utils.py:64-66 | the filter's keyword defaults are the moderate preset with max_size_kbs 1000, and are no stricter |
| OutputPaths.SplitPqPath | cllm_data_curation/thestack_curation/curation_utils.py:87 | the four-way unpack succeeds exactly when the path has at least three '/'; the parts rejoin to the path, and the last three contain no '/' |
| OutputPaths.SplitJoined | cllm_data_curation/thestack_curation/curation_utils.py:87 | splitting a path built from four names gives the names back |
| OutputPaths.FilterPaths | cllm_data_curation/thestack_curation/curation_utils.py:87-89 | the destination paths exist exactly when the unpack succeeds |
| OutputPaths.ReplaceComponents | cllm_data_curation/thestack_curation/curation_utils.py:89 | replacing a name free of '/' works component by component |
| OutputPaths.ReplaceOnlyComponent | cllm_data_curation/thestack_curation/curation_utils.py:89 | when the origin name occurs only as its own component, only that component is renamed |
| OutputPaths.SameRootDestination | cllm_data_curation/thestack_curation/curation_utils.py:87-89 | with the output directory beside the origin and the origin name unique, destDir is output_dir/lang and the destination is output_dir/lang/fname |
| OutputPaths.DestinationsUnder | cllm_data_curation/thestack_curation/curation_utils.py:87-89 | for any output directory and an origin name found only as its own component, the destination directory is output_dir/lang and the destination is the input path with only the origin renamed |
| OutputPaths.OtherRootDestination | cllm_data_curation/thestack_curation/curation_utils.py:87-89 | with an output directory under a different root, the destination is not `os.path.join(dest_dir, fname)`: the file is written outside the directory that was created for it |
| OutputPaths.RejectsBesideDestination | cllm_data_curation/thestack_curation/curation_utils.py:166 | the rejects file is the destination path with its only ".parquet", at the end, turned into "_rejects.parquet" |
| OutputPaths.RenamesFileToo | cllm_data_curation/thestack_curation/curation_utils.py:89 | a file whose name begins with the origin name is renamed too |
| OutputPaths.IntendedDestPath | cllm_data_curation/thestack_curation/curation_utils.py:87-89 | the intended destination splits into the same root, language and file, with the output directory's last component as its origin |
| OutputPaths.IntendedUnderSameRoot | cllm_data_curation/thestack_curation/curation_utils.py:88-89 | under the same root, the intended destination is `os.path.join(os.path.join(output_dir, lang), fname)` |
| OutputPaths.IntendedKeepsFileName | cllm_data_curation/thestack_curation/curation_utils.py:89 | where the replacement renames the file, the intended destination keeps the file's name, and the two differ |
| Strings.ReplaceSuffix | cllm_data_curation/thestack_curation/curation_utils.py:166 | a trailing ".parquet" with no earlier occurrence becomes "_rejects.parquet" and nothing else changes |
| Strings.RSplitCount | cllm_data_curation/thestack_curation/curation_utils.py:87 | `rsplit(sep, n)` gives 1 + min(n, count of sep) parts |
| Strings.RSplitJoin | cllm_data_curation/thestack_curation/curation_utils.py:87 | joining the parts of `rsplit` with the separator gives the string back |
| Strings.RSplitFields | cllm_data_curation/thestack_curation/curation_utils.py:87 | every part after the first is free of the separator |
| Strings.LastField | cllm_data_curation/thestack_curation/curation_utils.py:89 | `s.rsplit(sep, 1)[-1]` is the separator-free suffix after the last separator, or the whole string when there is none |
| Strings.ReplaceAbsent | cllm_data_curation/thestack_curation/curation_utils.py:89 | a string without the pattern is left unchanged by `replace` |
| Strings.ReplaceAcrossSlash | cllm_data_curation/thestack_curation/curation_utils.py:89 | `replace` with a pattern free of '/' works on each side of a '/' separately |
| MetaLanguages.Choose | cllm_data_curation/thestack_curation/curation_utils.py:54-60 | a non-zero top_k decides; otherwise a non-zero size threshold; otherwise a non-zero count; no criterion exactly when all three are falsy |
| MetaLanguages.Langs | cllm_data_curation/thestack_curation/curation_utils.py:55 | the groups of `groupby("lang")` are exactly the languages of the table |
| MetaLanguages.LangSum | cllm_data_curation/thestack_curation/curation_utils.py:55 | a language no row has sums to 0, and non-negative sizes give a non-negative sum |
| MetaLanguages.TopLangs | cllm_data_curation/thestack_curation/curation_utils.py:55 | the kept languages are in descending order of their size sum |
| MetaLanguages.SortDescending | cllm_data_curation/thestack_curation/curation_utils.py:55 | `sort_values(ascending=False)` gives a permutation of the languages with non-increasing sums |
| MetaLanguages.Take | cllm_data_curation/thestack_curation/curation_utils.py:55 | `[:k]` is a prefix of length min(k, n), counting a negative k from the end |
| MetaLanguages.TopLangsRanked | cllm_data_curation/thestack_curation/curation_utils.py:55 | every kept language's size sum is at least every dropped language's |
| MetaLanguages.TopLangsCount | cllm_data_curation/thestack_curation/curation_utils.py:55 | a non-negative top_k keeps min(top_k, number of languages) languages of the table |
| MetaLanguages.Select | cllm_data_curation/thestack_curation/curation_utils.py:56-61 | a boolean selection keeps exactly the rows that satisfy it |
| MetaLanguages.FilterMetaLanguages | cllm_data_curation/thestack_curation/curation_utils.py:54-61 | a row is in the result exactly when it is in the table, admitted by the chosen criterion, and not of a bad language; so no bad language remains |
| MetaLanguages.FilterKeepsOrder | cllm_data_curation/thestack_curation/curation_utils.py:54-61 | the result is an order-preserving subsequence of the table |
| MetaLanguages.TopKDecides | cllm_data_curation/thestack_curation/curation_utils.py:54-56 | with a non-zero top_k, a kept row's language outranks every language dropped by the ranking |
| CurationHelpers.Flatten | cllm_data_curation/thestack_curation/curation_utils.py:216 | the flattened list has the total length, and holds every item of every sublist |
| CurationHelpers.FlattenAppend | cllm_data_curation/thestack_curation/curation_utils.py:216 | flattening distributes over concatenation |
| CurationHelpers.FlattenFrom | cllm_data_curation/thestack_curation/curation_utils.py:216 | every item of the flattened list comes from some sublist |
| CurationHelpers.CopiesLead | cllm_data_curation/thestack_curation/curation_utils.py:334-337 | a text starts with n copies of sub exactly when at least n copies lead it |
| CurationHelpers.ContainsRepeatingSubstring | cllm_data_curation/thestack_curation/curation_utils.py:331-337 | true exactly when some position starts n consecutive copies of the literal substring |
| CurationHelpers.RepeatingMonotone | cllm_data_curation/thestack_curation/curation_utils.py:331-337 | a run of n copies contains a run of every shorter length |
| CurationHelpers.TwoCopies | cllm_data_curation/thestack_curation/curation_utils.py:331-337 | any text holding sub twice in a row has two repeats |
| CurationHelpers.NonAsciiRun | cllm_data_curation/thestack_curation/curation_utils.py:323 | the leading run of non-ASCII characters is maximal |
| CurationHelpers.MatchAt | cllm_data_curation/thestack_curation/curation_utils.py:323 | a match is `b'`, at least min_length non-ASCII characters, and `'` |
| CurationHelpers.MatchOfLiteral | cllm_data_curation/thestack_curation/curation_utils.py:323 | a well-formed byte literal matches exactly its own length |
| CurationHelpers.LiteralReplaced | cllm_data_curation/thestack_curation/curation_utils.py:319-328 | a byte literal at the front is replaced by the token |
| CurationHelpers.NoMarkerUnchanged | cllm_data_curation/thestack_curation/curation_utils.py:319-328 | text without `b'` is unchanged |
| CurationHelpers.AsciiUnchanged | cllm_data_curation/thestack_curation/curation_utils.py:319-328 | pure-ASCII text is unchanged for min_length >= 1 |
| CurationHelpers.ShortLiteralKept | cllm_data_curation/thestack_curation/curation_utils.py:323 | a byte literal shorter than min_length does not match |
| CurationHelpers.ReplaceByteEncodedString | cllm_data_curation/thestack_curation/curation_utils.py:319-328 | a token no longer than the shortest match (min_length + 3) never lengthens the text |
| PreprocessingUtils.PySlice | cllm_data_curation/parallel_dl/preprocessing_utils.py:31 | on in-range bounds, the Python slice is the ordinary subsequence |
| PreprocessingUtils.Trunc | cllm_data_curation/parallel_dl/preprocessing_utils.py:30 | `int()` truncates toward zero |
| PreprocessingUtils.FracN | cllm_data_curation/parallel_dl/preprocessing_utils.py:30 | `int(len(df) * frac)` is non-negative for a non-negative frac and at most the list's length for frac up to 1 |
| PreprocessingUtils.Segment | cllm_data_curation/parallel_dl/preprocessing_utils.py:30-31 | a segment is a subsequence of the repository list |
| PreprocessingUtils.GetRepos | cllm_data_curation/parallel_dl/preprocessing_utils.py:22-32 | with a truthy local path its table is returned whole, even when empty, whatever frac is; otherwise frac >= 1 returns the remote list, a missing seg_num returns the sample, and a segment is a subsequence of the remote list |
| PreprocessingUtils.SliceIsSubsequence | cllm_data_curation/parallel_dl/preprocessing_utils.py:31 | every Python slice is a subsequence |
| PreprocessingUtils.SegmentPositions | cllm_data_curation/parallel_dl/preprocessing_utils.py:30-31 | segment k is positions frac_n*(k-1) up to frac_n*k, cut at the end |
| PreprocessingUtils.SegmentsAdjacent | cllm_data_curation/parallel_dl/preprocessing_utils.py:30-31 | segments 1..k, concatenated, are the first k*frac_n repositories: disjoint and without gaps |
| PreprocessingUtils.BaseBadExtensionsFacts | cllm_data_curation/parallel_dl/preprocessing_utils.py:45-52 | the base list has 85 extensions, including "o" and "p" |
| PreprocessingUtils.GetBadExtensions | cllm_data_curation/parallel_dl/preprocessing_utils.py:35-55 | a fresh list: the 85 base extensions followed by the additional ones in order |
| PreprocessingUtils.ParallelParams | cllm_data_curation/parallel_dl/preprocessing_utils.py:58-64 | n_threads = 3·cpus and chunk_size = 9·cpus unless overridden; overrides win key by key; no other key appears unless overridden |
| PreprocessingUtils.GetRepoChunks | cllm_data_curation/parallel_dl/preprocessing_utils.py:67-69 | a zero chunk size is an error and a negative one gives no chunks |
| PreprocessingUtils.Chunks | cllm_data_curation/parallel_dl/preprocessing_utils.py:69 | there are ⌈n/k⌉ chunks |
| PreprocessingUtils.ChunkSizes | cllm_data_curation/parallel_dl/preprocessing_utils.py:69 | every chunk but the last has chunk_size entries, the last is non-empty, and an empty list gives none |
| PreprocessingUtils.ChunksPrefix | cllm_data_curation/parallel_dl/preprocessing_utils.py:69 | the first m chunks, flattened, are the first m*k entries |
| PreprocessingUtils.ChunksFlatten | cllm_data_curation/parallel_dl/preprocessing_utils.py:69 | concatenating the chunks gives the list back |
| ProcessingUtils.GetFileSize | cllm_data_curation/parallel_dl/processing_utils.py:174-183 | the length divided by 1024, 1024² or 1024³ for KB, MB, GB, and unchanged for any other unit |
| ProcessingUtils.Keep | cllm_data_curation/parallel_dl/processing_utils.py:186-197 | a text is dropped exactly when it is larger than max_mb MiB or shorter than min_n_chars |
| ProcessingUtils.KeepDefaults | cllm_data_curation/parallel_dl/processing_utils.py:186-197 | with the defaults, a text is kept exactly when it has 16 to 1048576 characters |
| ProcessingUtils.GetContent | cllm_data_curation/parallel_dl/processing_utils.py:85-104 | no content unless the MIME type starts with "text"; the UTF-8 decoding, else the fallback decoding, is returned exactly when it is kept |
| ProcessingUtils.BadExtensionRejected | cllm_data_curation/parallel_dl/processing_utils.py:127 | a name whose text after its last dot is a bad extension is not valid |
| ProcessingUtils.DotlessNameRejected | cllm_data_curation/parallel_dl/processing_utils.py:127 | a dotless name equal to a bad extension is not valid |
| ProcessingUtils.OneLetterNamesRejected | cllm_data_curation/parallel_dl/processing_utils.py:120-128 | files named "o" or "p" are rejected under the base list |
| ProcessingUtils.IsValidFile | cllm_data_curation/parallel_dl/processing_utils.py:120-128 | a valid name does not start with "." and contains none of ".git", "LICENSE", "node_modules" and ".min."; partners ProcessingUtils.BadExtensionRejected, ProcessingUtils.DotlessNameRejected and ProcessingUtils.OneLetterNamesRejected state the extension test |
| ProcessingUtils.ValidPathsOf | cllm_data_curation/parallel_dl/processing_utils.py:146 | a directory's valid paths are exactly the joined names of its valid files |
| ProcessingUtils.TopLevelFileName | cllm_data_curation/parallel_dl/processing_utils.py:147 | a file directly in the repository directory is named by its own name |
| ProcessingUtils.NestedFileName | cllm_data_curation/parallel_dl/processing_utils.py:147 | a file in a subdirectory is named by its path relative to the repository, unless that relative path contains the repository path again |
| ProcessingUtils.FileName | cllm_data_curation/parallel_dl/processing_utils.py:147 | a path not holding `repo_dir + '/'` is its own name; partners ProcessingUtils.TopLevelFileName and ProcessingUtils.NestedFileName |
| ProcessingUtils.ValidPaths | cllm_data_curation/parallel_dl/processing_utils.py:146 | a directory has at most as many valid paths as files; partner ProcessingUtils.ValidPathsOf |
| ProcessingUtils.WalkPaths | cllm_data_curation/parallel_dl/processing_utils.py:145-146 | a path is a valid path of the walk exactly when it is a valid path of one of its directories |
| ProcessingUtils.Entries | cllm_data_curation/parallel_dl/processing_utils.py:145-164 | at most one pair per path; partners ProcessingUtils.EntryOrigin, ProcessingUtils.PathEmitted, ProcessingUtils.EntriesAppend |
| ProcessingUtils.EntriesAppend | cllm_data_curation/parallel_dl/processing_utils.py:145-164 | the output for two path lists is the output for the first followed by the output for the second |
| ProcessingUtils.EntryOrigin | cllm_data_curation/parallel_dl/processing_utils.py:159-164 | every emitted pair comes from a path whose content was read, with that content, name and MIME type |
| ProcessingUtils.PathEmitted | cllm_data_curation/parallel_dl/processing_utils.py:159-164 | every path whose content was read gives its pair |
| ProcessingUtils.ProcessRepo | cllm_data_curation/parallel_dl/processing_utils.py:107-171 | the output is one pair per valid file with content, directory after directory, in walk order |
| ProcessingUtils.EmitDirectory | cllm_data_curation/parallel_dl/processing_utils.py:146-164 | one directory appends exactly the pairs of its valid files with content, in order |
| ProcessingUtils.AppendEntries | cllm_data_curation/parallel_dl/processing_utils.py:159-164 | given the names, MIME types and contents of a directory's valid files, appends exactly the pairs of the files with content, in order |
| ProcessingUtils.GetExtensions | cllm_data_curation/parallel_dl/processing_utils.py:130-137 | one MIME type per file, in order |
| ProcessingUtils.ReadContents | cllm_data_curation/parallel_dl/processing_utils.py:150-157 | one content per file, in order, None where reading failed |
| ProcessingUtils.ValidFilesOf | cllm_data_curation/parallel_dl/processing_utils.py:146 | the valid files of a directory, joined to its path, in listing order |

## Left out

- Parquet and filesystem I/O are not modelled. This covers loading the table (`open_pq_as_df`, including its int32/float32 downcast), `to_parquet`, `os.makedirs`, `shutil.rmtree`, and reading files. The filter takes the loaded table as a sequence of rows and returns the two tables.
- PreprocessingUtils.FracN: `len(df) * frac` is a float product in the source and an exact real product here, so the segment size can differ by one: for 100 rows and frac 0.29 Python computes 28.999999999999996 and `int` gives 28, where the model gives 29. Float rounding is not modelled.
- Rows carry exact `real` values. float32 rounding of `ave_ll` and `alphanum_frac`, and float comparisons such as 0.975 against a float32, are not modelled.
- `ast.parse` is a function parameter that returns one of three outcomes. Parser exceptions other than SyntaxError and ValueError, such as a recursion error, are not modelled.
- FilterAsWritten.FilterParquetRows, RejectLedger.FilterParquetRowsAsCommented: both require strictly increasing index labels. A freshly loaded table has labels 0, 1, 2, …, so this always holds, but a table with duplicate labels is not covered.
- RejectsTable.SortIndex: pandas' default `sort_index` is not stable. The model inserts equal labels first, which matters only for duplicate labels, and those are excluded as above.
- CurationConfigs.Preset: takes the already lower-cased style. The `.lower()` call and the ValueError for an unknown style belong to the argparse entry point, which is not part of this model. An unknown style gives None.
- MetaLanguages.SortDescending: languages with equal size sums keep their order of first appearance. pandas' `sort_values` does not fix an order among ties, so with ties `top_k` may keep a different, equally large set.
- MetaLanguages.FilterMetaLanguages: `reset_index` only renumbers rows, and the model's rows carry no label.
- PreprocessingUtils.GetRepos: the random `df.sample` is passed in as the `sample` argument. Reading the CSV is replaced by the `local`/`remote` lists; `local` is `None` exactly when `local_path` is falsy (missing or empty).
- PreprocessingUtils.GetBadExtensions: additional extensions are a list. Passing a string or another iterable (which `extend` accepts) is not modelled.
- PreprocessingUtils.BaseBadExtensionsFacts: states the list's length and the one-letter members "o" and "p" only. The list itself is stated in full as the constant.
- PreprocessingUtils.ParallelParams: `cpu_count()` is the `cpuCount` argument. Dictionary insertion order is not modelled, because maps are unordered.
- ProcessingUtils.GetContent: the MIME detection, reading the file and chardet detection are inputs. `utf8` is the UTF-8 decoding, if it succeeds. `fallback` is the decoding in the detected encoding, if one was detected and decoding succeeded.
- ProcessingUtils.ProcessRepo: the directory walk, MIME detection and content reading are inputs. The SIGALRM timeout, the partial output returned on TimeoutError, and the deletion of the clone are not modelled.
- ProcessingUtils.ProcessRepo: MIME detection is a total function here. In the source `_get_extensions` catches only FileNotFoundError, so any other error from `from_file` (a PermissionError, say) escapes `process_repo`, whose outer `try` catches only TimeoutError; that failure path is not modelled.
- ProcessingUtils.IsValidFile: an empty name makes `_file_path[0]` raise IndexError. A directory listing never holds an empty name, and the model treats it as valid if it passes the other tests.
- CurationHelpers.ContainsRepeatingSubstring, CurationHelpers.ReplaceByteEncodedString: the repeat count and the minimum length are natural numbers. A negative value, which builds a different regex in Python, is not modelled.
- CurationHelpers.ReplaceByteEncodedString: the token is inserted literally. `re.sub` reads it as a replacement template, so backslash escapes in it (`\n`, `\1`, `\g<0>`) are expanded and a bad escape raises `re.error`; the model holds only for tokens without backslashes, such as the default `<BYTE_ENCODED_STRING>`.
- Git cloning, the multiprocessing pool, network downloads, argparse entry points, progress printing and the JSON/pickle loaders are not modelled. None of them is part of the curation logic.

## Findings

| source | as written | input that shows it | evidently intended | confidence | as-written member | corrected member |
|---|---|---|---|---|---|---|
| cllm_data_curation/thestack_curation/curation_utils.py:100-159 | `_df` is cut down to the survivors before `_df[~filter_flag]` is taken, and the mask aligns by label, so every chunk appended to the rejects table is empty | any table with a row failing a stage, e.g. a 40-byte row under the moderate preset: it is in no output | the rows each stage drops, tagged with that stage's reason, in index order | not executed | FilterAsWritten.FilterParquetRows | RejectLedger.FilterParquetRowsAsCommented |
| cllm_data_curation/thestack_curation/curation_utils.py:154 | `~_df.content.apply(test_source_code_compatible)` keeps rows whose content does NOT parse | a 200-byte row with content "x=1" under the moderate preset is dropped | keep the rows whose content parses and drop the rest as "python2" | not executed | FunnelProperties.ParseableDropped | FunnelProperties.ParseableKept |
| cllm_data_curation/thestack_curation/curation_utils.py:89 | `pq_path.replace(origin, new)` replaces every occurrence of the origin name, including inside the file name | `/data/stack/python/stack_0.parquet` with output_dir `/data/clean` gives `/data/clean/python/clean_0.parquet` | rename only the origin directory: `/data/clean/python/stack_0.parquet` | not executed | OutputPaths.RenamesFileToo | OutputPaths.IntendedDestPath |
