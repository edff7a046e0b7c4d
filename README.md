# Alpaca subject classifier: a Dafny model

`classifier.py` labels every instruction of the Alpaca dataset with one
subject from a closed list of 21 categories. A local language model is
asked for the label. This project models everything that decides what ends
up in the output, once the model endpoint is replaced by a given sequence
of attempt outcomes (`Fail` or `Ok(response text)`):

- **Label normaliser** (`normaliser.dfy`, on top of `pytext.dfy`). The raw
  response is stripped and lower-cased. Every occurrence of `category:` is
  deleted, anywhere in the text and not only a leading one, and the text is
  stripped again. The first whitespace token is
  kept, or `other` if there is none. A token that is not a category becomes
  `other`. The Python string operations it uses (`str.strip`, `str.lower`,
  `str.replace(old, "")`, `str.split()`) are modelled over ASCII.
- **Retry loop** (`retry.dfy`). There are up to three attempts, with
  timeouts 60, 120 and 180 seconds, and the loop stops at the first answer.
  When all three attempts fail, the record gets `other` and one failure is
  counted. `Resolve` is the specification, and the imperative loop
  `ClassifyWithRetry` (with its `break`) is proved equal to it.
- **Batch run** (`batch.dfy`). There is one result per example, in order,
  with the example's fields copied. The labels are tallied in a Counter
  (a `map<string, nat>`) and the failures are counted. A checkpoint of all
  results so far is written after every 500th record; checkpoints are kept
  as a ghost log.
- **Partition and quality check** (`partition.dfy`, `records.dfy`). Results
  go into a dict that has one list per category. One file is written per
  non-empty list, in category order. The quality check counts the `other`
  labels and lists the empty categories in category order.
- `categories.dfy` holds the category list. `wrappers.dfy` holds an
  `Option` type used for the error outcomes.

## Model

| member | source | states |
|---|---|---|
| Categories.CategoryName | classifier.py:9-31 | the name declared at position i (`CATEGORIES[i]` for i < 21); it is `other` exactly at the last position, 20, and beyond |
| Categories.OtherIsCategory | classifier.py:9-31 | the fallback `other` is one of the categories, and the last one |
| Categories.CategoriesDistinct | classifier.py:9-31 | no category is listed twice, so the dict keyed by the categories has one key per entry |
| Categories.CategoriesAreLowerWords | classifier.py:9-31 | every category is a non-empty word of lower-case letters and underscores |
| PyText.IsSpace | classifier.py:116-118 | ASCII whitespace as `str.isspace` sees it: space, \t..\r, \x1c..\x1f |
| PyText.LowerChar | classifier.py:116 | `str.lower` on one character: a capital becomes its small letter (code + 32), any other character is kept, and no capital is left |
| PyText.Lower | classifier.py:116 | `str.lower`: same length, each capital becomes its own small letter (code + 32), every other character unchanged, no capital left, whitespace exactly where it was |
| PyText.LowerIdempotent | classifier.py:116 | lowering twice is lowering once |
| PyText.LowerConcat | classifier.py:116 | lowering works character by character over a concatenation |
| PyText.LeadingSpaces | classifier.py:116-117 | the length of the leading whitespace run: all whitespace, and followed by a non-space or the end |
| PyText.TrailingSpaces | classifier.py:116-117 | the length of the trailing whitespace run: all whitespace, and preceded by a non-space or the start |
| PyText.LStrip | classifier.py:116-117 | the leading half of `str.strip`: empty exactly for all-whitespace text, otherwise starts with a non-space |
| PyText.RStrip | classifier.py:116-117 | the trailing half of `str.strip`: empty exactly for all-whitespace text, otherwise ends with a non-space |
| PyText.Strip | classifier.py:116-117 | `str.strip()`: never longer, empty exactly for all-whitespace text, otherwise starts and ends with a non-space |
| PyText.LStripIsSuffix | classifier.py:116-117 | the leading half of `str.strip` leaves a suffix of the text and drops only whitespace |
| PyText.RStripIsPrefix | classifier.py:116-117 | the trailing half of `str.strip` leaves a prefix of the text and drops only whitespace |
| PyText.StripIsSlice | classifier.py:116-117 | `str.strip()` is a slice of the text with only whitespace before and after it |
| PyText.StripTrimmed | classifier.py:117 | text that neither starts nor ends with whitespace is left unchanged |
| PyText.StripIdempotent | classifier.py:117 | stripping twice is stripping once |
| PyText.StripLower | classifier.py:116 | strip and lower commute |
| PyText.LStripSkipsSpace | classifier.py:116 | whitespace before text that does not start with whitespace is dropped, and only that |
| PyText.RemoveAll | classifier.py:117 | `str.replace(pat, "")` over non-overlapping occurrences, scanned from the left: the result is never longer than the text |
| PyText.RemoveAllAbsent | classifier.py:117 | text in which the pattern never occurs is returned unchanged |
| PyText.MissingCharRulesOut | classifier.py:117 | a pattern character absent from the text rules out every occurrence |
| PyText.RemoveAllLeading | classifier.py:117 | a leading occurrence is deleted and the scan resumes right after it |
| PyText.RemoveAllFirst | classifier.py:117 | wherever the first occurrence is, the text before it is kept, the occurrence is deleted and the scan goes on after it, so later occurrences are deleted too |
| PyText.TakeWord | classifier.py:118 | the longest whitespace-free prefix, non-empty when the text starts with a non-space |
| PyText.Split | classifier.py:118 | `str.split()` is empty exactly for all-whitespace text |
| PyText.SplitWords | classifier.py:118 | every token of `str.split()` is non-empty and whitespace-free |
| PyText.SplitFirstWord | classifier.py:118 | after leading whitespace, the first token is the word up to the next whitespace |
| PyText.SplitLeadingWord | classifier.py:118 | text that starts with a word has that word as its first token |
| PyText.SplitSingleWord | classifier.py:118 | a single word splits into just itself |
| Normaliser.Cleaned | classifier.py:116-117 | the cleaned response neither starts nor ends with whitespace |
| Normaliser.Normalise | classifier.py:116-121 | the label of any response is a category |
| Normaliser.Recognise | classifier.py:120-121 | a category token is kept, any other token becomes `other` |
| Normaliser.NormaliseFirstToken | classifier.py:116-121 | the label depends only on the first token of the cleaned text: that token if it is a category, otherwise `other` |
| Normaliser.NormaliseSingleWord | classifier.py:118-121 | a response that cleans up to one word w is labelled `Recognise(w)`: w itself when it is a category, otherwise `other` |
| Normaliser.NormaliseBlank | classifier.py:118 | a response that is empty once stripped and cleared of markers gets `other` |
| Normaliser.NormaliseWhitespace | classifier.py:116-118 | an all-whitespace response gets `other` |
| Normaliser.NormaliseIgnoresCase | classifier.py:116 | lower-casing a response does not change its label |
| Normaliser.CleanedLabelWord | classifier.py:116-117 | cleaning leaves a lower-case label word unchanged |
| Normaliser.NormaliseLabelWord | classifier.py:116-121 | a label word c, bare or after `Category: `, is labelled `Recognise(c)`: itself when it is a category, otherwise `other` |
| Normaliser.NormaliseCategory | classifier.py:116-121 | every category, bare or after `Category: `, normalises to itself |
| Normaliser.NormaliseMarkedText | classifier.py:116-121 | after `Category: `, the first token of the lowered text decides the label, when that text is trimmed and holds no colon |
| Normaliser.ExampleHistory | classifier.py:116-121 | `Category: History extra words` is labelled `history` |
| Normaliser.ExampleBlank | classifier.py:116-121 | `"  "` is labelled `other` |
| Retry.TimeoutFor | classifier.py:95 | attempt k waits 60 * (k + 1) seconds: a multiple of 60 whose quotient is k + 1 |
| Retry.Schedule | classifier.py:93-95 | attempt k of the schedule waits 60 * (k + 1) seconds |
| Retry.ScheduleStep | classifier.py:93-95 | each attempt adds its own timeout to the end of the schedule |
| Retry.FullSchedule | classifier.py:90-95 | the full schedule is 60, 120, 180 |
| Retry.FirstSuccess | classifier.py:93-123 | the index found answered and every attempt before it failed; no index means every attempt failed |
| Retry.Resolve | classifier.py:89-131 | the label is a category, one to three attempts are made, at most one failure is counted |
| Retry.ResolveTimeouts | classifier.py:90-95 | the timeouts used are a prefix of 60, 120, 180 |
| Retry.ResolveStopsAtFirstAnswer | classifier.py:116-123 | every attempt but the last one made failed; without a counted failure the last attempt answered and its response decides the label |
| Retry.ResolveFailure | classifier.py:125-129 | a failure is counted exactly when all three attempts fail, and then the label is `other` after three attempts |
| Retry.ResolveAnswered | classifier.py:116-123 | when attempt k is the first to answer, its normalised response is the label and k + 1 timeouts were used |
| Retry.ResolveAllFailed | classifier.py:125-129 | when all attempts fail, the label is `other`, all three timeouts were used and one failure is counted |
| Retry.ClassifyWithRetry | classifier.py:89-131 | the loop with its `break` produces exactly the label, timeouts and failure increment of `Resolve` |
| Retry.ClassifyInstruction | classifier.py:47-73 | the single-shot client always returns a category |
| Retry.RetryRefinesSingleShot | classifier.py:33-73 | the retry loop agrees with the single-shot client when the first attempt answers or when all attempts fail |
| Retry.SingleShotAnswered | classifier.py:116-123 | when the first attempt answers, the retry loop returns the single-shot client's label after one 60-second attempt and counts no failure |
| Retry.SingleShotExhausted | classifier.py:125-129 | when all attempts fail, the retry loop's label is the one the single-shot client gives for its failed attempt |
| Records.Bucket | classifier.py:159-161 | the records with one label: no more than all records, each carrying that label |
| Records.BucketAppend | classifier.py:160-161 | a new record goes to the end of its own bucket and leaves the others alone |
| Records.GroupedAppend | classifier.py:160-161 | appending a record to its own label's list keeps each list equal to its bucket |
| Records.BucketConcat | classifier.py:159-161 | grouping keeps relative order: the bucket of a concatenation is the concatenation of the buckets |
| Records.BucketMembers | classifier.py:159-161 | a record is in the bucket of c exactly when it is one of the records and is labelled c |
| Records.SumBucketsAppend | classifier.py:160-161 | a new record adds one to the total for each time its label is listed |
| Records.BucketsCoverAll | classifier.py:159-161 | when every label is among distinct names, the buckets of those names hold all records between them |
| Partition.CategoryFiles | classifier.py:163-166 | each file is for a listed category, non-empty, and holds exactly that category's bucket |
| Partition.FileNamesDistinct | classifier.py:163-166 | over distinct names, no two files have the same name |
| Partition.CategoryFileNamesDistinct | classifier.py:159-166 | at most one file per category: the files written have distinct category names |
| Partition.CategoryFilesNamed | classifier.py:163-166 | a file is written for c exactly when c is a category and some record has label c |
| Partition.CategoryFilesTotal | classifier.py:163-166 | leaving out empty lists loses no record: the files hold as many records as the buckets |
| Partition.FilesCoverAll | classifier.py:159-166 | with distinct names covering every label, the files hold every result exactly once between them |
| Partition.CategoryFilesCoverAll | classifier.py:159-166 | the per-category files hold all results: their sizes add up to the number of results |
| Partition.PartitionByCategory | classifier.py:159-166 | fails (KeyError) exactly when some label is not a category; otherwise yields exactly the non-empty category files in category order |
| Partition.FillCategories | classifier.py:159-161 | the dict starts with every key; it fails exactly on a label that is not a key; otherwise each key's list is that key's bucket |
| Partition.NonEmptyFiles | classifier.py:163-166 | one file per key whose list is non-empty, in key order |
| Partition.GroupByCategory | classifier.py:218-223 | the keys are exactly the labels that occur, and each list is the bucket of its key |
| Partition.EmptyCats | classifier.py:225 | lists exactly the categories that are no key of the grouping or have an empty list |
| Partition.Unused | classifier.py:225 | lists exactly the categories no record is labelled with |
| Partition.EmptyCatsOfGrouping | classifier.py:218-225 | over a grouping of the records, the comprehension yields exactly the unused categories, in category order |
| Partition.FilesAndEmptySplitCategories | classifier.py:163-166 | every category either gets a file or is reported empty, never both |
| Partition.CheckQuality | classifier.py:200-225 | fails (division by zero) exactly on an empty file; otherwise reports the number of `other` labels and the empty categories in category order |
| Batch.Label | classifier.py:133-138 | the result dict copies instruction, input and output unchanged and carries a category |
| Batch.Exhausted | classifier.py:125-129 | no more records counted as failed than there are records |
| Batch.Count | classifier.py:140 | a Counter lookup: a label never counted counts as zero, a counted one gives its count |
| Batch.TalliesAppend | classifier.py:140 | incrementing the counter for a new record keeps every count equal to the size of its bucket |
| Batch.SumCountsOfTallies | classifier.py:140 | the counts of a list of names add up to the sizes of their buckets |
| Batch.CounterTotal | classifier.py:133-140 | every counted label is a category, and the counts add up to the number of results |
| Batch.CheckpointLog | classifier.py:143-145 | a run of N records writes N div 500 checkpoints |
| Batch.CheckpointLogAppend | classifier.py:143-145 | after record i a checkpoint holding all results so far is added exactly when (i + 1) mod 500 is 0 |
| Batch.CheckpointLogShape | classifier.py:143-145 | the j-th checkpoint is written after record 500 * (j + 1) and holds exactly the first 500 * (j + 1) results |
| Batch.CheckpointExactly | classifier.py:143-145 | a checkpoint is written after the n-th record exactly when n is a multiple of 500 |
| Batch.ClassifyExample | classifier.py:89-138 | one loop pass builds the record's result dict and counts a failure exactly when all three attempts fail |
| Batch.ExhaustedIsOther | classifier.py:125-129 | a record whose attempts all fail is labelled `other` |
| Batch.FailuresAreFallbacks | classifier.py:125-140 | the failure count never exceeds the number of `other` results |
| Batch.ClassifyRecords | classifier.py:88-147 | one result per example in input order, the counter matches the results, the failure count is the number of records whose attempts all failed, and the checkpoint log is as above |
| Batch.ClassifyAlpacaDataset | classifier.py:81-166 | as for the loop; in addition the files are the non-empty category buckets in category order, and the counts and the files each add up to the number of results |

## Left out

- HTTP: the requests to the model server and the `/api/tags` liveness probe
  with its `exit(1)` are network I/O. Each record's endpoint behaviour is a
  given sequence of attempt outcomes. A non-JSON body or a missing
  `response` field counts as `Fail`, like any other exception.
- Answer scripts: each record's outcome sequence must have at least three
  entries, so that every attempt the loop may make has an outcome. This is
  a property of the abstraction, not a demand of the program.
- Loading and saving: `load_dataset`, `tqdm`, `json.dump`/`json.load` and
  every `open(...)`. The dataset is a sequence of examples. The checkpoints
  are a ghost log. The per-category files are values returned by the
  method.
- The final results file is the `results` sequence itself. The quality
  check takes the loaded data as its input.
- Printing: progress messages, `most_common`, percentages and the `other`
  share threshold of 15% are output formatting over floating point. The
  division by `len(data)` is kept only as the error case it raises on an
  empty file.
- `verify_categorization`: its random samples are nondeterministic console
  output.
- `create_html_report`: presentation only.
- Prompt text: the prompt strings and request options only affect the
  external model.
- Single-shot client: its 30 second timeout is not modelled.
- Non-ASCII text: `str.lower` and `str.isspace` are modelled over ASCII
  only. Unicode case mapping and Unicode whitespace are not modelled.
- Batch.CounterTotal: sums the counts over the categories rather than over
  the Counter's keys. Every key is a category (first ensures of the lemma)
  and a missing category counts zero, so the two sums agree; the
  equivalence is argued here, not proved.
