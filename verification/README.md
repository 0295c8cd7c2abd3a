# GUIDE-seq report statistics, modelled in Dafny

This project models the data logic behind the GUIDE-seq results report:

- `gsToBed`, which turns an identified-cleavage-site table into a four-column BED file;
- the two line counters of `helpers.py`;
- the statistics and annotation steps of `report`:
  - removal of the control sample;
  - the normalised `total_cleaved` count;
  - per-condition sample counts;
  - the on/off-target split of each identified table and its read-support sums;
  - the cleavage-annotation list built for every sample.

Files:

- `wrappers.dfy`: `Option` and `Result`.
- `pystr.dfy`: the Python string operations the code relies on:
  - `str.split` on one character, which keeps empty pieces;
  - `str.join` and `str.replace`;
  - the whitespace `float()` ignores around a number: space, `\t`, `\n`, `\r`, `\v` and `\f`;
  - `float()` restricted to decimal text. It reads an exact `Decimal` (sign, digits, scale), and the value it denotes is `Value`.
- `gstobed.dfy`: `gsToBed`. The input file is the sequence of lines Python iterates. The output is the lines written, plus the exception that stopped the run, if any. Lines written before an exception stay in the file.
- `helpers.dfy`: `countNumberOfLines` over a file's text, and `countNumberOfLinesInFolder` over a directory listing. The listing is a sequence of named files, and the `*.<extension>` glob is the predicate `MatchesExtension`.
- `reporting.dfy`: `template_vars` as the class `Report`. Its methods follow the source step by step:
  - `RemoveControl` covers lines 45-50;
  - `SetGlobalStats` covers lines 64-72;
  - `CountConditions` covers lines 81-86;
  - `ProcessSamples` covers lines 91-162;
  - `Generate` runs all four in order.

  Each method is proved against a specification function. The lemmas beside those functions state what the source promises.

Two details of the code shape the model:

- `total_cleaved` subtracts `samples_count - 1`, where `samples_count` is taken before the control entry is deleted (`guideseq/reporting.py:45`, `:72`). With a control present, it therefore counts the control as a sample. `TotalCleavedCountsDataRows` shows what this computes: when the identified total is the line count of every non-control table plus the control's, the result is the number of data rows after each table's header line.
- A manifest without a `control` entry is not an error in the code (`guideseq/reporting.py:49`). Nothing is deleted, and `samples_count` is the number of samples.

## Model

| member | source | states |
|---|---|---|
| `PyStr.Join` | guideseq/gsToBed.py:21 | `str.join` on one character: the pieces with the separator between each two; `JoinThenSplit` and `SplitThenJoin` make it the inverse of `Split` |
| `PyStr.Replace` | guideseq/gsToBed.py:16 | `str.replace` of one character by another; `ReplaceConcat`, `ReplaceAbsent` and `ReplaceAvoids` state what it changes and what it keeps |
| `PyStr.Split` | guideseq/gsToBed.py:14 | `split(sep)` yields one piece more than there are separators |
| `PyStr.SplitPiecesFree` | guideseq/gsToBed.py:14 | no piece of a split contains the separator |
| `PyStr.SplitThenJoin` | guideseq/gsToBed.py:14 | joining the pieces with the separator gives the text back |
| `PyStr.JoinThenSplit` | guideseq/gsToBed.py:21 | splitting a join of separator-free pieces gives the pieces back |
| `PyStr.SplitAtSeparator` | guideseq/reporting.py:146 | text before the first separator is the first piece; the rest splits on its own |
| `PyStr.SplitAfterPlainPrefix` | guideseq/reporting.py:146 | a separator-free prefix joins the first piece of what follows |
| `PyStr.SplitWithoutSeparator` | guideseq/gsToBed.py:14 | text without the separator splits into itself alone |
| `PyStr.SplitPiecesAvoid` | guideseq/gsToBed.py:16 | a character absent from the text is absent from every piece |
| `PyStr.OccurrencesZeroIff` | guideseq/reporting.py:146 | the separator count is zero exactly when the character does not occur |
| `PyStr.ReplaceConcat` | guideseq/gsToBed.py:16 | `replace` distributes over concatenation |
| `PyStr.ReplaceAbsent` | guideseq/gsToBed.py:16 | `replace` of an absent character changes nothing |
| `PyStr.ReplaceAvoids` | guideseq/gsToBed.py:16 | `replace(':', '-')` introduces no character other than `-` |
| `PyStr.StripLeft` | guideseq/gsToBed.py:15 | the result is a suffix of the input, everything removed before it is whitespace, and it starts with no whitespace |
| `PyStr.StripRight` | guideseq/gsToBed.py:15 | the result is a prefix of the input, everything removed after it is whitespace, and it ends with no whitespace |
| `PyStr.Strip` | guideseq/gsToBed.py:15 | removes the whitespace `float()` ignores around a number: `StripLeft` then `StripRight`, so exactly the leading and trailing space, `\t`, `\n`, `\r`, `\v` and `\f` go |
| `PyStr.ParseNumber` | guideseq/gsToBed.py:15 | `float()` on decimal text: strip, an optional sign, an unsigned decimal, and `None` where `float()` raises `ValueError`; `PointValue`, `ParseUnsignedText` and `ParseDigits` state what it reads |
| `PyStr.NoSpaceStripsToItself` | guideseq/gsToBed.py:15 | stripping text without whitespace leaves it unchanged |
| `PyStr.PositiveIffAboveZero` | guideseq/gsToBed.py:15 | the filter `Positive` holds exactly when the parsed value is above zero, negative zero included as not positive |
| `PyStr.DigitsValueAppend` | guideseq/gsToBed.py:15 | digits after a point shift the digits before it by the power of ten of their count |
| `PyStr.ParsePoint` | guideseq/gsToBed.py:15 | `w.f` parses to the digits of `w` and `f` together with scale `|f|` |
| `PyStr.PointDecimalValue` | guideseq/gsToBed.py:15 | the decimal read from `w.f` has value `w + f / 10^|f|` |
| `PyStr.PointIsPlainText` | guideseq/gsToBed.py:15 | `w.f` over digits holds no whitespace and starts with no sign |
| `PyStr.PointValue` | guideseq/gsToBed.py:15 | `float("w.f")`, through `ParseNumber`, succeeds and is the whole part plus the fraction |
| `PyStr.ParseWhole` | guideseq/gsToBed.py:15 | digits with no point read as a whole number |
| `PyStr.ParseUnsignedText` | guideseq/gsToBed.py:15 | text with no whitespace and no leading sign is parsed as an unsigned decimal |
| `PyStr.ParseDigits` | guideseq/gsToBed.py:15 | a run of digits parses to its value, unsigned, with scale 0 |
| `PyStr.NatToStringValue` | guideseq/gsToBed.py:15 | the digits printed for a natural number read back as that number |
| `PyStr.ParseNatRoundTrip` | guideseq/gsToBed.py:15 | the digits of `n` read back as the exact decimal `n`, unsigned with scale 0 |
| `GsToBed.Coordinates` | guideseq/gsToBed.py:16 | `replace(':', '-').split('-')` of the location; `LocationRoundTrip`, `ReplaceInLongLocation` and `ExtraLocationPiecesIgnored` state what it yields |
| `GsToBed.BedLine` | guideseq/gsToBed.py:21-22 | the four columns joined by tabs, then a newline; `RowLineHasFourColumns` splits it back |
| `GsToBed.Retained` | guideseq/gsToBed.py:14-15 | `float(line[12]) > 0`: field 12 exists, parses, and is `Positive`, which `PositiveIffAboveZero` shows is "above zero" |
| `GsToBed.ConvertRow` | guideseq/gsToBed.py:14-22 | one iteration of the row loop; `ConvertRowWritesRetained` and `ConvertRowFails` state what it writes and when it raises |
| `GsToBed.ConvertToBed` | guideseq/gsToBed.py:9-22 | the lines written and the error raised are exactly `BedFile(lines)`; an empty or header-only file writes nothing |
| `GsToBed.HeaderNeverConverted` | guideseq/gsToBed.py:12 | the first line is dropped whatever it holds; only the rows after it are converted |
| `GsToBed.RetainedRows` | guideseq/gsToBed.py:13-15 | the filter keeps at most as many rows as the table has |
| `GsToBed.RetainedRowsMembers` | guideseq/gsToBed.py:13-15 | a row is kept exactly when it is a row of the table whose field 12 parses above zero |
| `GsToBed.ConvertRowWritesRetained` | guideseq/gsToBed.py:15-22 | a row that raises nothing writes a line exactly when its field 12 is above zero, and that line is its BED line |
| `GsToBed.ConvertRowFails` | guideseq/gsToBed.py:14-19 | a row raises exactly when it lacks field 12, when field 12 is not a number, or when it is retained and its location has fewer than three pieces |
| `GsToBed.Outcomes` | guideseq/gsToBed.py:13 | one outcome per row, the i-th being the i-th row's |
| `GsToBed.OutcomesAppend` | guideseq/gsToBed.py:13 | outcomes of two runs of rows concatenate |
| `GsToBed.CollectAppend` | guideseq/gsToBed.py:13-22 | the second run of rows is reached only when the first raised nothing, and its lines follow the first run's |
| `GsToBed.ConvertAppend` | guideseq/gsToBed.py:13-22 | converting a table in two parts: the second part runs only if the first raised nothing |
| `GsToBed.ConvertStep` | guideseq/gsToBed.py:13-22 | one loop step: a raising first row ends the run with nothing more written; otherwise its line, if any, comes before the rest's |
| `GsToBed.ConvertFirstRow` | guideseq/gsToBed.py:13-22 | a first row that raises nothing contributes its line when retained, then the rest follows |
| `GsToBed.CollectSucceedsIff` | guideseq/gsToBed.py:13-22 | collecting raises nothing exactly when no outcome is an error |
| `GsToBed.ConvertSucceedsIff` | guideseq/gsToBed.py:13-22 | the conversion raises nothing exactly when no row raises |
| `GsToBed.ConvertWritesRetainedRows` | guideseq/gsToBed.py:13-22 | without an error, the output is one line per retained row, in table order |
| `GsToBed.CollectFirstFailure` | guideseq/gsToBed.py:13-22 | an error is the first failing outcome's, and the lines before it stay written |
| `GsToBed.ConvertStopsAtFirstError` | guideseq/gsToBed.py:10-22 | an error is the first failing row's, the rows before it raise nothing, and their lines stay in the file |
| `GsToBed.RowLineHasFourColumns` | guideseq/gsToBed.py:21-22 | every written line ends in a newline and splits on tabs into chromosome, start, end and field 3 |
| `GsToBed.LocationRoundTrip` | guideseq/gsToBed.py:16-19 | `c:s-e` gives chromosome `c`, start `s` and end `e`, which spell the location again |
| `GsToBed.PlainRowLine` | guideseq/gsToBed.py:15-22 | a retained row at `c:s-e` is written as `c`, `s`, `e` and its field 3, verbatim |
| `GsToBed.ReplaceInLongLocation` | guideseq/gsToBed.py:16 | in `c:s-e-extra` only the colon and any colons in the extra text change |
| `GsToBed.ExtraLocationPiecesIgnored` | guideseq/gsToBed.py:16-19 | pieces beyond the third do not change chromosome, start or end |
| `Helpers.Lines` | guideseq/helpers.py:16 | the lines `for line in f` yields; `LinesCover` and `LinesShape` state how they cut the text |
| `Helpers.CountNumberOfLines` | guideseq/helpers.py:10-18 | the count is the number of lines iterated: the newlines plus one for an unterminated last line, never more than the length, zero for an empty file |
| `Helpers.NewlineCount` | guideseq/helpers.py:16 | a text has no more newlines than characters |
| `Helpers.LinesCover` | guideseq/helpers.py:16 | the iterated lines concatenate back to the file's text |
| `Helpers.LinesShape` | guideseq/helpers.py:16 | no line is empty, a newline only ends a line, and every line but the last ends in one |
| `Helpers.LineCountFormula` | guideseq/helpers.py:14-18 | the number of lines is the number of newlines, plus one for an unterminated last line |
| `Helpers.LineCountBound` | guideseq/helpers.py:15-17 | there are never more lines than characters |
| `Helpers.NewlineCountPrefix` | guideseq/helpers.py:16 | an unterminated last line leaves fewer newlines than characters |
| `Helpers.MatchesExtension` | guideseq/helpers.py:26 | a name matches `*.<extension>` when it ends in `.<extension>` and does not start with a dot |
| `Helpers.FolderLineCount` | guideseq/helpers.py:25-28 | the loop's running sum over the listing; `FolderCountIsMatchingTotal` and `FolderCountOrderFree` state what it adds up |
| `Helpers.Matching` | guideseq/helpers.py:26 | the glob selects exactly the listed files whose names match `*.<extension>` |
| `Helpers.CountNumberOfLinesInFolder` | guideseq/helpers.py:21-28 | the total is the folder count over the listing for the given extension, `fastq` by default |
| `Helpers.FolderCountIsMatchingTotal` | guideseq/helpers.py:25-28 | the folder count is the sum of line counts over exactly the matching files |
| `Helpers.NoMatchCountsZero` | guideseq/helpers.py:25-28 | a folder with nothing matching counts zero |
| `Helpers.FolderCountAppend` | guideseq/helpers.py:27-28 | the counts of two parts of a listing add up |
| `Helpers.AddFile` | guideseq/helpers.py:27-28 | one more file adds its line count if it matches, and nothing otherwise |
| `Helpers.FolderCountOrderFree` | guideseq/helpers.py:26-28 | the order of the listing does not change the count |
| `Reporting.WithoutControl` | guideseq/reporting.py:49-50 | the samples without the control entry; `WithoutControlMembers` and `DeleteControlEntry` state what it keeps |
| `Reporting.IndexOfName` | guideseq/reporting.py:49 | the found index holds the key; when none is found, no entry holds it |
| `Reporting.WithoutControlMembers` | guideseq/reporting.py:49-50 | after removal, an entry is present exactly when it was present and is not the control |
| `Reporting.WithoutControlAppend` | guideseq/reporting.py:49-50 | removal distributes over concatenation |
| `Reporting.WithoutControlOfControlFree` | guideseq/reporting.py:49 | without a control entry nothing is deleted |
| `Reporting.WithoutControlIsControlFree` | guideseq/reporting.py:49-50 | after removal no entry is the control |
| `Reporting.OnlyControlAt` | guideseq/reporting.py:49-50 | with distinct keys, no entry other than the control's is named control |
| `Reporting.WithoutControlAround` | guideseq/reporting.py:50 | removal from entries around one control entry keeps all of them, in order |
| `Reporting.DeleteControlEntry` | guideseq/reporting.py:49-50 | deleting the control key keeps every other entry in order, one fewer entry |
| `Reporting.WithoutControlKeepsDistinct` | guideseq/reporting.py:49-50 | the keys stay distinct after removal |
| `Reporting.TotalCleaved` | guideseq/reporting.py:72 | the identified count less the control's and less one per sample but one; `TotalCleavedCountsDataRows` states what it counts |
| `Reporting.TotalCleavedCountsDataRows` | guideseq/reporting.py:69-72 | when the identified total is the line count of every non-control table plus the control's, and `samples_count` counts the control too, the normalisation gives the data rows (lines after each header) of the non-control tables; the code's real inputs at lines 70-71 are the `*.fastq` files of the identified folder and a fixed test file, so this is what the formula is built to count, not what it is given |
| `Reporting.SamplesWithCondition` | guideseq/reporting.py:84-86 | the inner loop's count of samples whose condition is the key |
| `Reporting.Recount` | guideseq/reporting.py:81-86 | a condition entry with its count reset and recounted |
| `Reporting.ConditionCountIsMultiplicity` | guideseq/reporting.py:81-86 | a condition's count is how often its key occurs among the samples' conditions |
| `Reporting.OnTargets` | guideseq/reporting.py:116 | the rows with 0 mismatches, in table order |
| `Reporting.OffTargets` | guideseq/reporting.py:117 | the rows with more than 0 mismatches, in table order |
| `Reporting.CleavageSites` | guideseq/reporting.py:118 | the on-target rows followed by the off-target rows |
| `Reporting.SupportSum` | guideseq/reporting.py:120-121 | the sum of the `bi.sum.mi` column; `SupportSumsAddUp` and `SupportSumsCoverTable` relate the two sums |
| `Reporting.PartitionMembers` | guideseq/reporting.py:116-117 | on-target rows are the rows with 0 mismatches, off-target rows the rows with more; none is in both, and negative counts are in neither |
| `Reporting.ClassifyFirstRow` | guideseq/reporting.py:116-117 | the first row joins the on-target, off-target or classified rows by its mismatch count |
| `Reporting.CleavageSitesPermuteClassified` | guideseq/reporting.py:116-118 | the concatenated sites are the rows with non-negative mismatches, each exactly once |
| `Reporting.CleavageSiteCount` | guideseq/reporting.py:118 | there is one cleavage site per classified row |
| `Reporting.SupportSumsAddUp` | guideseq/reporting.py:120-121 | the on-target and off-target sums add up to the sum over classified rows |
| `Reporting.ClassifiedKeepsAll` | guideseq/reporting.py:116-117 | with no negative mismatch counts, every row is classified |
| `Reporting.SupportSumsCoverTable` | guideseq/reporting.py:120-121 | with no negative mismatch counts, the two sums cover the whole table |
| `Reporting.TargetingStatus` | guideseq/reporting.py:153 | the status is "On target" exactly for zero mismatches, and "Off target" otherwise |
| `Reporting.FirstMatch` | guideseq/reporting.py:140-142 | the index is the first row named by the id; none means no row is |
| `Reporting.AnnotationRangeIff` | guideseq/reporting.py:142-147 | the lookup succeeds exactly when row 0 of the join output is the site's, and reads that row |
| `Reporting.CleavageRange` | guideseq/reporting.py:146 | `split(':')[1].split('-')`, missing when there is no second piece; the three lemmas below state what it reads |
| `Reporting.AnnotationRange` | guideseq/reporting.py:142-147 | the first join row named by the id, read at row label 0; `AnnotationRangeIff` states when it exists |
| `Reporting.CleavageRangeOfLocation` | guideseq/reporting.py:146 | the range of `c:s-e` is `[s, e]` |
| `Reporting.CleavageRangeAfterFirstColon` | guideseq/reporting.py:146 | the range is the text after the first colon, up to the next one, split on dashes |
| `Reporting.CleavageRangeNeedsColon` | guideseq/reporting.py:146 | the range is missing exactly when the id has no colon |
| `Reporting.AnnotateSite` | guideseq/reporting.py:139-156 | one iteration of the annotation loop: the entry for a site, or the exception it raises |
| `Reporting.Annotations` | guideseq/reporting.py:137-156 | the annotation list over the sites, or the first exception; `AnnotationsFollowSites` and `AnnotationsFailIff` state what it holds |
| `Reporting.BuildCleavageAnnotations` | guideseq/reporting.py:136-156 | the loop's list, or its first exception, is `Annotations` of the concatenated sites |
| `Reporting.AnnotationsFollowSites` | guideseq/reporting.py:137-156 | one annotation per site, in order, carrying the site's id, location, status and the distance of its two ranges |
| `Reporting.AnnotationsFailIff` | guideseq/reporting.py:137-156 | the list fails exactly when some site's iteration fails |
| `Reporting.OnTargetAnnotationsFirst` | guideseq/reporting.py:116-153 | the on-target annotations come first: status "On target" exactly on the first `|on_targets|` entries |
| `Reporting.SampleResult` | guideseq/reporting.py:97-156 | one sample's entry, or the exception of `gsToBed`, of reading an empty join output, or of the annotation loop, in that order |
| `Reporting.ProcessSample` | guideseq/reporting.py:97-156 | one iteration of the sample loop yields `SampleResult` |
| `Reporting.SampleReconciles` | guideseq/reporting.py:116-156 | a filled-in sample keeps its name and condition, had a non-empty join output, its two counts add up to the classified rows' support, and it has one annotation per classified row |
| `Reporting.SampleReports` | guideseq/reporting.py:97-162 | the sample loop over the manifest, stopping at the first exception; `SampleReportsFollowSamples` states what it holds |
| `Reporting.SampleReportsStep` | guideseq/reporting.py:97-156 | one step of the sample loop: a missing sample fails, otherwise its result comes before the rest's |
| `Reporting.SampleReportsFollowSamples` | guideseq/reporting.py:97-162 | on success there is one filled-in entry per sample, in manifest order, each its own sample's result |
| `Reporting.Report.constructor` | guideseq/reporting.py:36-47 | the loaded manifest: its samples and conditions, nothing counted yet |
| `Reporting.Report.RemoveControl` | guideseq/reporting.py:45-50 | `samples_count` is the pre-removal size; `samples` loses the control entry and nothing else |
| `Reporting.Report.SetGlobalStats` | guideseq/reporting.py:64-72 | `total_reads` is the consolidated count; `total_cleaved` is the normalised identified count |
| `Reporting.Report.CountConditions` | guideseq/reporting.py:81-86 | every condition entry is recounted over the remaining samples; no other field changes |
| `Reporting.Report.ProcessSamples` | guideseq/reporting.py:91-162 | on success the filled-in samples are exactly `SampleReports`; on an exception the first error is returned and the entries are left as they were |
| `Reporting.Report.Generate` | guideseq/reporting.py:45-162 | the data steps in order, with all of the above as its result; on an exception the first error is returned and the sample entries are left as they were |

## Left out

- External processes are inputs: `samtools view | wc -l` for `total_reads` and `hqmr`, and `bedtools closest` for the join output (`guideseq/reporting.py:100-108`, `128-130`). The unused `dnase_command` is not modelled.
- `distanceToGene` is a function parameter and its result is taken as an integer. `guideseq/reporting.py:27` imports it from `helpers`, but `guideseq/helpers.py` does not define it, so its behaviour is not part of this model, including whether the distance is non-negative.
- pandas parsing is not modelled (`guideseq/reporting.py:114`, `133`). The identified table arrives as typed rows (`SiteRow`) and, for `gsToBed`, as the file's lines. The join output arrives as `AnnotationRow`s. Missing or non-numeric cells are not represented.
- A sample whose identified table does not exist makes `read_csv` raise (`guideseq/reporting.py:114`); the model has no input for that sample and reports `MissingSampleData`. A missing alignment file raises nothing, since only the exit status of `wc -l` is checked (`guideseq/reporting.py:102`, `107`): both counts are then 0, and the model takes the counts as given.
- An empty join output makes `read_csv` raise (`guideseq/reporting.py:133`); the model reports it as `EmptyAnnotations`. Why `bedtools` writes nothing is not modelled.
- PyStr.ParseNumber: models `float()` only for decimal text: ASCII whitespace, an optional sign, digits with at most one point. Exponents, `inf`/`nan`, underscores and non-ASCII whitespace are not modelled.
- PyStr.ParseNumber: reads decimal text exactly, with no rounding to binary floating point. Text whose value lies below the smallest positive double, such as `0.` followed by 400 zeros and a `1`, is positive in the model, so `GsToBed.Retained` keeps the row; `float()` rounds it to `0.0` and `gsToBed` drops the row.
- `Helpers.CountNumberOfLines` takes the text as Python yields it after universal-newline translation. The translation itself is not modelled.
- `Helpers.MatchesExtension` does not model glob metacharacters inside the extension, nor directories whose names match the glob.
- The manifest's YAML loading, the date and image paths, the temp folder, the `print` calls and the unused `is_gene` mask are not modelled. The same holds for HTML/PDF rendering and the commented-out teardown.
- The hard-coded control path (`guideseq/reporting.py:71`) and the two folder counts (`66`, `70`) are given to `SetGlobalStats` as integers. In the code, line 70 uses `countNumberOfLinesInFolder` with its default `fastq` extension on the `identified` folder.
- A condition is modelled by its first key only (`list(condition.keys())[0]`). A condition mapping with no keys, and a sample without a `conditions` field, are not represented.
- `Reporting.Report.ProcessSamples` does not model the partially filled deep copy left behind by an exception: `template_vars['samples']` is reassigned only after the whole loop, and the model keeps the old entries.
- The code is single-threaded; there is no concurrency to model.
