# Text-Summarization data pipeline: a Dafny model

This project models the data-preparation core of the Text-Summarization
repository. It covers three stages:

- **Validation gate** (`DataValidation`). It checks that the required raw
  files exist and that every required column is found in some file. Each
  check appends one status entry to a log. The constructor clears the log.
- **Text and data-frame standardization** (`DataStandardization`).
  - `clean_text` lower-cases, keeps `[a-zA-Z\s]` and collapses whitespace.
  - Stopword removal has an installed-corpus path and a LookupError fallback.
  - Lemmatization maps each token.
  - `standardize_text` chains the three steps.
  - `process_dataframe` adds one `<column><suffix>` column per text column.
  - `load_and_prepare_data` projects the main table, inner-joins it with the
    transcripts on a key and drops that key.
- **Dataset transformation** (`DataTransformation`).
  - Loading has a schema assertion, `remove_columns` and three
    `rename_column`s, then a two-stage 80/20 and 90/10 split.
  - The encoder truncates inputs to 1024 ids and labels to 128, and pads
    each batch to its longest encoding.
  - `preprocess_function` is modelled as written. A corrected batched map
    is also modelled, and `tokenize_dataset` uses that one.
  - The seed-42 sampler writes into its argument.
  - `save_dataset` guards the dataset's type before saving.

Modules follow the source's structure:

- `Outcomes` (outcomes.dfy): the `Result` type and one error constructor per
  exception the source raises.
- `Words` (words.dfy): Python's `str.split()` and `' '.join`.
- `Standardization` (standardization.dfy): text-level standardization.
- `Tables` (tables.dfy): column-named tables with `remove_columns`,
  `rename_column` and column assignment.
- `DataFrames` (dataframes.dfy): `process_dataframe` and the join.
- `Validation` (validation.dfy): the validation gate.
- `Tokenization` (tokenization.dfy): padding and masking of a tokenizer batch.
- `Transformation` (transformation.dfy): the transformation stage.

Python exceptions become `Err` values that name the exception's subject.
These collaborators are function parameters with no fixed behaviour:

- the NLTK lemmatizer;
- the tokenizer's encoding of one string;
- the library's `train_test_split`;
- the seeded `shuffle`.

Where a property needs something of them, a named predicate states it:

- `HonoursCap`: truncation keeps every encoding within its cap.
- `Partitions`: the split puts every row in exactly one part.
- `SizedAsLibrary`: the split gives the test part `ceil(share * rows)` rows
  and the train part the rest.
- `Permutes`: the shuffle is a permutation.
- `KeepsWords`: the lemmatizer maps a token to a token.

## Model

| member | source | states |
|---|---|---|
| Standardization.CleanText | src/TextSummarizer/components/data_standerization.py:33-49 | a missing cell cleans to the empty string |
| Standardization.CleanTextIsClean | src/TextSummarizer/components/data_standerization.py:40-46 | every cleaned text is lower-case ASCII letters and single spaces, with no space at either end |
| Standardization.CleanFixedPoints | src/TextSummarizer/components/data_standerization.py:40-46 | `clean_text` leaves a string unchanged exactly when it is already in that clean form |
| Standardization.CleanTextIdempotent | src/TextSummarizer/components/data_standerization.py:33-49 | cleaning twice is the same as cleaning once |
| Standardization.CleanKeepsTokens | src/TextSummarizer/components/data_standerization.py:43-46 | collapsing whitespace keeps every token of the filtered text, in order |
| Standardization.CleanTokensAreLower | src/TextSummarizer/components/data_standerization.py:40-46 | every token left after lower-casing and filtering is a non-empty lower-case ASCII word |
| Standardization.LowerFixesClean | src/TextSummarizer/components/data_standerization.py:40 | `lower()` leaves lower-case letters and spaces alone |
| Standardization.KeepFixesClean | src/TextSummarizer/components/data_standerization.py:43 | the character filter leaves lower-case letters and spaces alone |
| Standardization.Lower | src/TextSummarizer/components/data_standerization.py:40 | no upper-case ASCII letter survives lower-casing, and a one-character string becomes that character's lower case |
| Standardization.LowerAppend | src/TextSummarizer/components/data_standerization.py:40 | lower-casing works character by character, so the result is each character's lower case, in order |
| Standardization.KeepLettersAndSpaces | src/TextSummarizer/components/data_standerization.py:43 | only ASCII letters and whitespace survive, each from the input, and a one-character string is kept exactly when that character is in `[a-zA-Z\s]` |
| Standardization.KeepAppend | src/TextSummarizer/components/data_standerization.py:43 | the filter works character by character, so it keeps exactly the `[a-zA-Z\s]` characters, in order |
| Standardization.Stopwords | src/TextSummarizer/components/data_standerization.py:57-67 | the installed corpus is extended by the custom words; after a LookupError only the downloaded corpus is used |
| Standardization.FilterOut | src/TextSummarizer/components/data_standerization.py:70 | a token is kept exactly when it is in the input and not a stopword |
| Standardization.FilterOutAppend | src/TextSummarizer/components/data_standerization.py:70 | filtering distributes over concatenation, so the order of the kept tokens is preserved |
| Standardization.RemoveStopwords | src/TextSummarizer/components/data_standerization.py:53-55 | empty text stays empty |
| Standardization.RemoveStopwordsTokens | src/TextSummarizer/components/data_standerization.py:69-72 | the result's tokens are the input's tokens minus the stopwords, in order, single-spaced |
| Standardization.CustomStopwordsOnlyWhenInstalled | src/TextSummarizer/components/data_standerization.py:57-67 | a custom stopword never survives on the normal path; after the LookupError fallback, one outside the downloaded corpus survives |
| Standardization.CorpusAfter | src/TextSummarizer/components/data_standerization.py:53-67 | empty text returns before the corpus lookup; any other call leaves the corpus installed, downloading it after a LookupError |
| Standardization.FallbackOnlyOnce | src/TextSummarizer/components/data_standerization.py:57-67 | after one call on non-empty text, every later call removes the custom stopwords too: the fallback that ignores them is taken at most once |
| Standardization.LemmatizeText | src/TextSummarizer/components/data_standerization.py:76-78 | empty text stays empty |
| Standardization.LemmatizeTokens | src/TextSummarizer/components/data_standerization.py:89-92 | the result's tokens are the lemmatizer applied to each input token, same count and order |
| Standardization.StandardizeText | src/TextSummarizer/components/data_standerization.py:94-108 | with both options off, standardization is exactly cleaning |
| Standardization.StandardizeMatchesTokens | src/TextSummarizer/components/data_standerization.py:94-108 | the standardized text is the single-spaced join of an independent token-level definition (clean, drop stopwords if enabled, lemmatize if enabled), and it splits back into those tokens |
| Standardization.StandardizeWithoutLemmatizerIsClean | src/TextSummarizer/components/data_standerization.py:96-101 | without lemmatization the result is still clean; with stopword removal on, its tokens are the cleaned tokens outside the stopword set |
| Words.Split | src/TextSummarizer/components/data_standerization.py:46 | `str.split()` yields non-empty whitespace-free tokens drawn from the string |
| Words.SplitJoin | src/TextSummarizer/components/data_standerization.py:46 | splitting a join of tokens gives the tokens back |
| Words.JoinSplit | src/TextSummarizer/components/data_standerization.py:46 | joining the split of a single-spaced string gives the string back |
| Words.JoinSpaced | src/TextSummarizer/components/data_standerization.py:72 | a join of tokens is single-spaced, with no whitespace at either end |
| Tables.RemoveColumns | src/TextSummarizer/components/data_transofrmation.py:37 | fails naming the absent columns exactly when some requested column is absent; otherwise each row loses exactly those columns and keeps the rest |
| Tables.RenameColumn | src/TextSummarizer/components/data_transofrmation.py:41-43 | fails when the source column is missing or the target exists; otherwise every row moves the value to the new name and nothing else changes |
| Tables.SetColumn | src/TextSummarizer/components/data_standerization.py:128 | assigning a column sets that column in every row, keeps the earlier columns in order and leaves other values alone |
| DataFrames.ProcessDataFrame | src/TextSummarizer/components/data_standerization.py:110-132 | fails with the first missing text column exactly when one is missing; otherwise adds exactly the suffixed columns, each holding the standardized source column, and keeps every other input column |
| DataFrames.AddStandardized | src/TextSummarizer/components/data_standerization.py:123-128 | one loop pass extends the processed-columns description by one column |
| DataFrames.JoinPairs | src/TextSummarizer/components/data_standerization.py:154 | lists, once each, exactly the index pairs whose keys match |
| DataFrames.JoinRows | src/TextSummarizer/components/data_standerization.py:154 | the joined rows are the inner join on the key: one row per matching pair, projected fields from the main row, the other fields from the transcript row, and no key |
| DataFrames.LoadAndPrepare | src/TextSummarizer/components/data_standerization.py:141-154 | fails naming the absent relevant fields in order, or naming the key when it is not a relevant field or the transcripts lack it, and succeeds otherwise; the result is the inner join with the key dropped, every row has exactly the result's columns, and the table is well-formed when the relevant fields are distinct |
| DataFrames.JoinedColumns | src/TextSummarizer/components/data_standerization.py:143-154 | the merged columns are the relevant fields and the transcript columns without the key, with no name repeated when neither side repeats one |
| Validation.Open | src/TextSummarizer/components/data_validation.py:10-13 | a new gate keeps its configuration and starts with an empty log |
| Validation.FilesReport | src/TextSummarizer/components/data_validation.py:15-27 | the entry lists the required files, marks each as present exactly when listed, and passes exactly when all are listed |
| Validation.CheckFiles | src/TextSummarizer/components/data_validation.py:15-33 | the file check appends its entry to the log and changes nothing else |
| Validation.FoundIn | src/TextSummarizer/components/data_validation.py:42-47 | a file is recorded for a column exactly when it is required, readable and has the column |
| Validation.FoundInAppend | src/TextSummarizer/components/data_validation.py:42-47 | collecting the files that have a column distributes over the file list, so they are recorded in configured order |
| Validation.ScanFile | src/TextSummarizer/components/data_validation.py:45-47 | the inner loop appends the file to each column's entry once per occurrence of the column in the required list |
| Validation.ScanColumns | src/TextSummarizer/components/data_validation.py:38-58 | the nested loops compute the declarative column report, including the read failure at the first unreadable file |
| Validation.CheckColumns | src/TextSummarizer/components/data_validation.py:38-66 | appends exactly one entry when every file is readable; otherwise propagates the read error |
| Validation.ColumnsFoundVerdict | src/TextSummarizer/components/data_validation.py:40-47 | with every file readable, each required column's entry names exactly the required files that have it, in configured order for a column listed once |
| Validation.ColumnsMissingVerdict | src/TextSummarizer/components/data_validation.py:49-53 | `missing_columns` holds exactly the columns no file has, and the check passes exactly when every column is found somewhere |
| Validation.Validate | src/TextSummarizer/components/data_validation.py:68-74 | a failed file check returns false after one entry; otherwise the column check runs: a read failure is an error exactly when some required file is unreadable, and the file check's entry stays in the log; on success the second entry is added and its verdict returned |
| Validation.LogOnlyGrows | src/TextSummarizer/components/data_validation.py:68-74 | whether `validate` returns or raises, the old log is a prefix of the new one, which has one more entry after a failed file check or a read failure and two after the column check |
| Validation.DirectoriesCanDisagree | src/TextSummarizer/components/data_validation.py:17-44 | the file check lists one directory and the column check reads another, so the file check can pass and log its entry while validation fails on the read |
| Tokenization.EncodeBatch | src/TextSummarizer/components/data_transofrmation.py:82 | every row is its encoding padded on the right with the pad id to the batch's widest encoding, its mask is 1 on exactly the real tokens and 0 on the padding, and no row exceeds the cap under truncation |
| Tokenization.StripPadded | src/TextSummarizer/components/data_transofrmation.py:82 | removing what the mask marks as padding gives back the unpadded encoding |
| Transformation.Canonicalize | src/TextSummarizer/components/data_transofrmation.py:29-43 | the error raised for each failing stage (missing features, absent dropped column, rename clash); otherwise the exact resulting column set and, per row, the canonical renaming of the loaded row |
| Transformation.Rename | src/TextSummarizer/components/data_transofrmation.py:41-43 | the three renames fail on the first clash; otherwise each standardized feature is under its canonical name |
| Transformation.CanonicalRow | src/TextSummarizer/components/data_transofrmation.py:37-43 | dropping and renaming one row gives the canonical row |
| Transformation.TrainTestSplit | src/TextSummarizer/components/data_transofrmation.py:47 | an empty table splits into two empty parts; a non-empty table fails with `EmptyTrainPart` exactly when the test share would leave the train part empty, and otherwise is split by the splitter, a partition of its rows when the splitter partitions |
| Transformation.TrainEmptyOnlyOnOneRow | src/TextSummarizer/components/data_transofrmation.py:47-51 | at both the 20% and the 10% test share the train part would be empty exactly for a one-row table |
| Transformation.SplitThree | src/TextSummarizer/components/data_transofrmation.py:47-59 | fails exactly when the first split fails or the second split of its train part fails; otherwise the splits are train, validation and test in that order with the input's columns, test is the first split's test part, and when the splitter partitions, train and validation together are the first train part and all three together are the input's rows |
| Transformation.SplitThreeFailsOnTinyInputs | src/TextSummarizer/components/data_transofrmation.py:47-53 | with library-sized parts, the two-stage split fails exactly on a table of one or two rows |
| Transformation.LoadDatasetDict | src/TextSummarizer/components/data_transofrmation.py:24-62 | fails with canonicalization's error when canonicalization fails; otherwise it is the three-way split of the canonical dataset, failing exactly when a split fails |
| Transformation.LoadFailsOnTinyInputs | src/TextSummarizer/components/data_transofrmation.py:24-62 | with library-sized parts, a table that passes the schema gate fails to load exactly when it has one or two rows |
| Transformation.PreprocessSingle | src/TextSummarizer/components/data_transofrmation.py:76-87 | fails listing the batch's keys when `text` or `summary` is missing; otherwise each input row is its prefixed document encoded with cap 1024, padded with the pad id, with a mask that is 1 on exactly its real tokens, and labels are the summaries encoded with cap 128 |
| Transformation.LabelsWithinCap | src/TextSummarizer/components/data_transofrmation.py:83 | under truncation no label sequence exceeds 128 ids |
| Transformation.MapRows | src/TextSummarizer/components/data_transofrmation.py:69 | a row-wise map succeeds exactly when every row does and keeps the row count |
| Transformation.SplitUnbatched | src/TextSummarizer/components/data_transofrmation.py:69 | an unbatched map of a split succeeds exactly when every row encodes, and adds the encoder's columns |
| Transformation.MapSplits | src/TextSummarizer/components/data_transofrmation.py:67-69 | mapping a dictionary keeps the split names in order and succeeds exactly when every split does |
| Transformation.UpdateFrom | src/TextSummarizer/components/data_transofrmation.py:67-69 | assigning each split's result back into the dictionary in order: success exactly when every split succeeds, with the argument itself returned; otherwise the first failing split's error, the splits before it replaced and the rest untouched |
| Transformation.PreprocessFunction | src/TextSummarizer/components/data_transofrmation.py:64-74 | as written: a batch goes to the encoder and is left as it is; a dictionary is mapped unbatched split by split into the argument itself, so on success the argument holds every mapped split, and a failure leaves the splits before the failing one replaced |
| Transformation.UnbatchedEncodesCharacters | src/TextSummarizer/components/data_transofrmation.py:69-82 | as written, whenever the unbatched map succeeds, a row whose text has k characters gets k encodings, one per character |
| Transformation.TwoCharactersTwoEncodings | src/TextSummarizer/components/data_transofrmation.py:69-82 | the document "ab" yields two input-id rows |
| Transformation.EncodeChunk | src/TextSummarizer/components/data_transofrmation.py:76-87 | a batch succeeds exactly when both keys are present and every value is text; each row then gets its own prefixed text's encoding, padded, with a mask that is 1 on exactly its real tokens, and its own summary's padded labels |
| Transformation.MapBatched | src/TextSummarizer/components/data_transofrmation.py:91 | a batched map over consecutive chunks encodes every row with its own document and mask, within the caps under truncation |
| Transformation.SplitBatched | src/TextSummarizer/components/data_transofrmation.py:91 | a split through the batched map keeps its rows, adds the encoder's columns and encodes every row with its own document and mask |
| Transformation.PreprocessSplits | src/TextSummarizer/components/data_transofrmation.py:66-71 | corrected: a dictionary is mapped batched, so every row of every split is encoded from its own document, with a mask that is 1 on exactly its real tokens, names kept |
| Transformation.TokenizeDataset | src/TextSummarizer/components/data_transofrmation.py:89-93 | succeeds exactly when every non-empty split has text and summary columns of strings; every row then carries its own encodings and masks, within the caps under truncation |
| Transformation.SampleSplit | src/TextSummarizer/components/data_transofrmation.py:100 | an empty split comes back unchanged; a non-empty split fails exactly when shorter than the size, and otherwise yields that many leading rows of its seed-42 shuffle with its columns, a sub-multiset of its rows under a permutation |
| Transformation.SampleLoader | src/TextSummarizer/components/data_transofrmation.py:95-102 | succeeds exactly when every non-empty split is long enough, returning the argument itself with every non-empty split sampled and every empty split unchanged; a failure names the first short non-empty split and leaves the splits before it already sampled |
| Transformation.PathJoin | src/TextSummarizer/components/data_transofrmation.py:107 | the path ends in the name, an absolute name replaces the directory, and otherwise the path starts with the directory |
| Transformation.SaveTarget | src/TextSummarizer/components/data_transofrmation.py:104-109 | a missing name fails first, then anything but a split dictionary is refused; otherwise the target is the joined path |

## Left out

- Logging, timestamps, JSON formatting of the status file, CSV reading and writing, `save_to_disk` and the NLTK downloads are I/O. The status file is the gate's `log` sequence. A CSV read is a table or a header map given as a parameter.
- Standardization.LowerChar: `str.lower()` is modelled only for the characters whose lower-case form can pass the `[a-zA-Z\s]` filter (ASCII capitals, KELVIN SIGN, capital I with dot above). Every other character maps to itself, because the filter removes its lower-case form anyway.
- Standardization.CleanText: `str(text)` of a non-string cell (a number, say) is not modelled. A cell is either missing or a string.
- The lemmatizer's WordNet lookup is a parameter. Only its token-to-token shape (`KeepsWords`) is assumed.
- DataFrames.LoadAndPrepare: pandas' `_x`/`_y` suffixes for non-key columns that both tables share are not modelled; the main table's value wins. The output row order is main-row order, then transcript order, which matches pandas' inner merge only up to ordering.
- Transformation.SplitThree: the part sizes of a non-empty split are left to the splitter parameter. `SizedAsLibrary` is assumed only by the two tiny-input lemmas. The library computes `ceil(share * rows)` in floating point, so its exact sizes can differ by one from the integer rule `ceil(percent * rows / 100)`; the one-row failure condition is the same for both. The `EmptyTrainPart` error is modelled from the integer rule.
- Transformation.Canonicalize: only the `train` split's features are checked, as in the source. The model takes the loaded `train` split as its input.
- The configured `max_length`, `min_length` and `checkpoint` are read by the constructor but unused by the modelled code. The caps 1024 and 128 are literals in the source.
- The tokenizer's own encoding of one string, including special tokens and truncation, is a parameter. Padding and masking are modelled.
- Validation.Open: the previous log content is ignored. Concurrent runs against one status file are not modelled.
- Validation.ScanColumns: a failed `read_csv` becomes `UnreadableFile` for that file. Parse errors of a readable file are not distinguished.
- `validate_all_files_exist` re-raises any exception unchanged. Failures of the directory listing are not modelled: the listing is a parameter.
- Standardization.Stopwords: `process_dataframe` is modelled with one corpus state for every call. In the source only the first `remove_stopwords` call on non-empty text can take the LookupError fallback; every later call finds the downloaded corpus and adds the custom stopwords. `CorpusAfter` and `FallbackOnlyOnce` state that transition for one call, but `ProcessDataFrame` does not thread it from row to row. The constructor's own NLTK download makes the installed corpus the normal starting state, and from that state the model is exact.
- Tokenization.EncodeBatch: padding is on the right, the tokenizer's default side. A tokenizer configured to pad on the left is not modelled.
- Transformation.PreprocessSplits: as the corrected form, it returns a new dictionary the way `tokenize_dataset`'s `map` does. The in-place assignment is modelled for the as-written `PreprocessFunction`. The two agree except in what a failure leaves in the argument.

Behaviours of the code worth noting:

- The schema assertion's message lists all three required features, not only the missing ones.
- `remove_columns` fails when any of the five dropped columns is absent.
- Null `text` or `summary` values are not rejected at load time. They fail later, when encoded (`NotText`).
- A sample size larger than a non-empty split fails the sampler (`select` raises), and the splits sampled before it stay replaced. An empty split is returned as it is, whatever the size.
- A table of one or two rows fails to load: one of the two `train_test_split` calls would leave its train part empty and raises.
- The file check lists the hard-coded `artifacts/data_ingestion` directory, while the column check reads `unzip_dir`.

## Findings

| source | as written | input that shows it | evidently intended | confidence | as-written member | corrected member |
|---|---|---|---|---|---|---|
| src/TextSummarizer/components/data_transofrmation.py:69 | `preprocess_function` maps each split of a `DatasetDict` without `batched=True`, so `batch["text"]` is one string and `[self.prefix + doc for doc in batch["text"]]` iterates its characters | a split with one row whose `text` is `"ab"` gets two input-id rows, one per character (Transformation.TwoCharactersTwoEncodings, Transformation.UnbatchedEncodesCharacters) | map each split with `batched=True`, so each row gets one encoding of its whole document (as `tokenize_dataset` does) | not executed | Transformation.PreprocessFunction | Transformation.PreprocessSplits |
