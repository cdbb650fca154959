# qos-llm run summariser and analyser, modelled in Dafny

This project models the extraction-and-summarisation pipeline of qos-llm.
The pipeline has two scripts.

- `parse_run.py` reads an inference log and a `key=value` configuration file
  from one run directory. It keeps the last throughput line and the last Metal
  memory breakdown of the log, and writes the run's summary record.
- `analyze_runs.py` reads each run's summary and sampled resource metrics. It
  stamps every sample with its time since the first one and reduces the samples
  to six statistics. It merges those over the summary, keeps the merged records
  in input order, and prints one table line per run.

Modules:

- `Values` (values.dfy): the `Option`/`Result` wrappers that stand for Python
  exceptions, JSON scalars, the field vocabulary with each field's JSON key
  (`Field.Name`), and `dict.get`.
- `Text` (text.dfy): `str.isspace`, `str.strip`, `str.split("=", 1)` and
  `str.splitlines`.
- `Numbers` (numbers.dfy): `int()` on strings and `float()` on the strings the
  `[0-9.]+` groups capture.
- `ParseRun` (parse_run.dfy):
  - a matcher for the throughput pattern, giving its `findall` semantics.
    Every match it reports opens with `[`, whitespace and `Prompt:` and closes
    with `]`. It matches the line llama.cpp prints for any pair of rates, and
    what precedes a position never changes what is found after it;
  - `parse_log`, as a method built by successive key assignments and the
    function that specifies it;
  - `parse_config`, as a loop over the lines and the fold that specifies it;
  - the summary record of `main` and the missing-file checks.
- `AnalyzeRuns` (analyze_runs.dfy):
  - `to_rel_time`, in place on an array of rows;
  - `summarize_metrics`;
  - the `{**base, **stats}` merge;
  - `analyze_run`, the comparison list and the table lines.

Python exceptions are `Err` values:

- `ValueError` from `int()`/`float()` is `MalformedNumber`;
- `KeyError` is `MissingField`;
- the `SystemExit` for an absent input file is `MissingFile`.

Floats are exact reals.

Two behaviours of the code worth noting:

- The table's ctx cell falls back to `None` (`m.get('ctx')`), not to a placeholder.
- `pageins_final` and `pageouts_final` are the last row's `pageins_delta` and `pageouts_delta`, whatever those columns hold.

## Model

| member | source | states |
|---|---|---|
| Text.Strip | qos-llm/src/parse_run.py:44 | the stripped text is no longer than the input and neither starts nor ends with whitespace |
| Text.StripKeepsMiddle | qos-llm/src/parse_run.py:44 | strip removes whitespace and nothing else: the result is the stretch of the input after its leading whitespace, and only whitespace follows it |
| Text.StripTrimmed | qos-llm/src/parse_run.py:44 | stripping text that is already trimmed changes nothing (strip is idempotent) |
| Text.SplitAtFirst | qos-llm/src/parse_run.py:43 | splitting fails exactly when there is no separator; otherwise the left part holds no separator and left + separator + right is the line |
| Text.SplitAtFirstOf | qos-llm/src/parse_run.py:43 | splitting a line built around its first separator gives back both parts |
| Text.BoundariesAreWhitespace | qos-llm/src/parse_run.py:41-44 | every line boundary `splitlines` cuts at is whitespace to `strip` |
| Text.SplitLines | qos-llm/src/parse_run.py:41 | no line holds a line boundary, and the text is empty exactly when there are no lines |
| Text.LineEndOf | qos-llm/src/parse_run.py:41 | a line runs up to the first boundary character, or to the end of the text |
| Text.SplitLinesOneLine | qos-llm/src/parse_run.py:41 | non-empty text without a boundary is a single line |
| Text.SplitLinesAtBreak | qos-llm/src/parse_run.py:41 | a single boundary character (other than a `\r` before `\n`) ends the line before it, and the rest is split on its own |
| Text.SplitLinesAtCrLf | qos-llm/src/parse_run.py:41 | `\r\n` ends the line before it as one boundary, and the rest is split on its own |
| Text.SplitLinesKeepsText | qos-llm/src/parse_run.py:41 | the lines put back together are the text with only its boundary characters removed (`\r\n` counts as one boundary) |
| Numbers.ParseInt | qos-llm/src/parse_run.py:30-35 | the text converts exactly when, once stripped, it is an optional sign followed by one or more digits; blank text does not convert, and a negative result needs a leading `-` |
| Numbers.ParseIntOfDigits | qos-llm/src/parse_run.py:30-35 | every non-empty digit string, as `([0-9]+)` captures it, converts to the number it denotes |
| Numbers.DigitsValueOfNatToString | qos-llm/src/parse_run.py:65-66 | reading back the decimal rendering of a natural number gives the number |
| Numbers.ParseIntOfIntToString | qos-llm/src/parse_run.py:65-66 | `int(str(i)) == i` for every integer |
| Numbers.ParseDecimal | qos-llm/src/parse_run.py:22-23 | a converted rate is non-negative, its text is made of `[0-9.]` and holds at least one digit; a digit string converts exactly when it is non-empty, to the number it denotes |
| Numbers.ParseDecimalOfParts | qos-llm/src/parse_run.py:22-23 | digits, a point and digits (either side may be empty, not both) convert to the whole part plus the fraction, as for `.5` and `007.5` |
| Numbers.ParseDecimalOfPoint | qos-llm/src/parse_run.py:22-23 | `whole.frac` converts to the whole part plus the fraction |
| Numbers.ParseDecimalRejectsTwoPoints | qos-llm/src/parse_run.py:22-23 | a capture with two decimal points (which `[0-9.]+` allows) does not convert |
| Numbers.ParseDecimalRejectsPoint | qos-llm/src/parse_run.py:22-23 | a lone decimal point, which `[0-9.]+` can capture, does not convert |
| ParseRun.SpaceRun | qos-llm/src/parse_run.py:7 | `\s*` takes the whole whitespace run at the start of the text: every character it takes is whitespace, and the one after it is not |
| ParseRun.DecimalRun | qos-llm/src/parse_run.py:7 | `[0-9.]+` is greedy: every character it takes is `[0-9.]`, and the one after it is not |
| ParseRun.SpacedToken | qos-llm/src/parse_run.py:7 | `\s*` and a literal match exactly when the literal follows the whitespace run, and the match ends right after it |
| ParseRun.SpacedRate | qos-llm/src/parse_run.py:7 | a captured rate starts where the whitespace run ends and is the maximal `[0-9.]` run there, which is non-empty |
| ParseRun.SpacedRateFails | qos-llm/src/parse_run.py:7 | `\s*([0-9.]+)` fails exactly when no `[0-9.]` character follows the whitespace run |
| ParseRun.MatchPieces | qos-llm/src/parse_run.py:7 | a match of the pattern pieces consumes no more than the text and captures one `[0-9.]+` group per group in the pieces |
| ParseRun.PatternRates | qos-llm/src/parse_run.py:7 | the throughput pattern has two capture groups |
| ParseRun.ThroughputAt | qos-llm/src/parse_run.py:7 | a throughput match starts at `[`, ends inside the text, and both captured rates are `[0-9.]+` groups |
| ParseRun.MatchPiecesEnds | qos-llm/src/parse_run.py:7 | pieces ending with the `]` token match only text whose match ends on `]` |
| ParseRun.PromptPatternBounds | qos-llm/src/parse_run.py:7 | pieces that start with `Prompt:` and end with `]` match only text that opens with whitespace and `Prompt:` and whose match ends on `]` |
| ParseRun.ThroughputAtOpens | qos-llm/src/parse_run.py:7 | a match starts at a `[` followed by whitespace and `Prompt:` |
| ParseRun.ThroughputAtCloses | qos-llm/src/parse_run.py:7 | a match ends on a `]` |
| ParseRun.ThroughputAtSound | qos-llm/src/parse_run.py:7 | a match opens with `[`, whitespace and `Prompt:`, and closes with `]` (soundness of the matcher) |
| ParseRun.FindAllThroughput | qos-llm/src/parse_run.py:19 | every match that `findall` returns has two `[0-9.]+` groups |
| ParseRun.NoPromptNoThroughput | qos-llm/src/parse_run.py:19 | text in which no `[` is followed by whitespace and `Prompt:` has no throughput match |
| ParseRun.SkipNoBracket | qos-llm/src/parse_run.py:19 | the scan passes over a stretch without `[` and finds nothing in it |
| ParseRun.ThroughputAtSame | qos-llm/src/parse_run.py:7 | two positions followed by the same text hold the same match, ending the same distance on |
| ParseRun.FindAllSame | qos-llm/src/parse_run.py:19 | `findall` from two positions followed by the same text finds the same matches: what precedes a position does not change what is found after it |
| ParseRun.FindAllAtNoMatch | qos-llm/src/parse_run.py:19 | where no match starts, the scan moves on by one character |
| ParseRun.FindAllAtMatch | qos-llm/src/parse_run.py:19 | a match is reported and the scan resumes right after it |
| ParseRun.AfterNoBracket | qos-llm/src/parse_run.py:19 | text without `[` in front of some other text changes nothing that is found |
| ParseRun.SpacedTokenOn | qos-llm/src/parse_run.py:7 | one space and a literal not starting with whitespace: the token matches right after the space |
| ParseRun.DecimalRunOf | qos-llm/src/parse_run.py:7 | a run of `[0-9.]` characters followed by any other character is read whole |
| ParseRun.SpacedRateOn | qos-llm/src/parse_run.py:7 | one space and a rate followed by a character outside `[0-9.]`: the whole rate is captured |
| ParseRun.MatchWordStep | qos-llm/src/parse_run.py:7 | a word after one space is consumed with the space, and matching goes on right after it |
| ParseRun.MatchRateStep | qos-llm/src/parse_run.py:7 | a rate after one space is captured, and matching goes on right after it |
| ParseRun.MatchSpaced | qos-llm/src/parse_run.py:7 | pieces whose words start with neither whitespace nor `[0-9.]`, laid out one space apart, are matched capturing exactly the rates laid out, whatever they are |
| ParseRun.PatternSeparated | qos-llm/src/parse_run.py:7 | every word of the throughput pattern starts with neither whitespace nor `[0-9.]`, and every group is followed by a word |
| ParseRun.ThroughputLineSpaced | qos-llm/src/parse_run.py:7 | the canonical line `[ Prompt: p t/s \| Generation: g t/s ]` is `[` followed by the pattern laid out one space apart |
| ParseRun.ThroughputAtLine | qos-llm/src/parse_run.py:7 | the pattern matches the canonical line at its start, for any rates, capturing exactly those rates and ending where the line ends (completeness of the matcher) |
| ParseRun.FindAllFromLine | qos-llm/src/parse_run.py:19 | text starting with the canonical line reports that line's rates and then whatever the rest of the text holds; only those rates when the rest holds no `[` |
| ParseRun.TwoThroughputLines | qos-llm/src/parse_run.py:19 | two canonical lines amid text without `[` are both reported, in order |
| ParseRun.LaterLineWins | qos-llm/src/parse_run.py:19-23 | of two canonical lines, the log facts hold the converted rates of the later one, whatever the earlier one held |
| ParseRun.ToFloat | qos-llm/src/parse_run.py:22-23 | `float` raises exactly when the text is not a decimal, and the error carries the text |
| ParseRun.ToInt | qos-llm/src/parse_run.py:30-35 | `int` raises exactly when the text is not an integer literal, and the error carries the text |
| ParseRun.ThroughputFields | qos-llm/src/parse_run.py:19-23 | both rate fields are present exactly when there was a match, both are floats; it raises exactly when a rate of the last match does not convert, reporting the prompt rate when that one fails and otherwise the generation rate |
| ParseRun.ToInts | qos-llm/src/parse_run.py:29-35 | the conversions keep the number of groups, and the only error is a malformed number |
| ParseRun.ToIntsRaisesAtFirst | qos-llm/src/parse_run.py:30-35 | the conversions succeed exactly when every group is an integer literal, give each group's value in order, and otherwise raise on the first malformed group |
| ParseRun.ToIntsOfDigits | qos-llm/src/parse_run.py:30-35 | digit groups always convert, each to the number it denotes |
| ParseRun.WithMetal | qos-llm/src/parse_run.py:27-35 | raises exactly when the last breakdown has a malformed group; adds the six memory fields exactly when there was a match (model memory an integer); keeps every other field; no match changes nothing |
| ParseRun.LogFacts | qos-llm/src/parse_run.py:15-37 | a field is present exactly when its pattern matched; no match at all gives the empty record; raises exactly when a group of a last match does not convert, and only with a malformed number |
| ParseRun.LogFactsRaises | qos-llm/src/parse_run.py:19-35 | parsing raises exactly when a rate of the last throughput match is not a decimal or a group of the last breakdown is not an integer literal; a bad rate is reported before a bad memory group |
| ParseRun.LastThroughputWins | qos-llm/src/parse_run.py:20-23 | both rates are the converted groups of the last throughput match, whatever earlier matches held |
| ParseRun.MetalValues | qos-llm/src/parse_run.py:29-35 | a breakdown of digit groups sets the six fields to the numbers those groups denote |
| ParseRun.LastMetalWins | qos-llm/src/parse_run.py:28-35 | the six memory fields are the values of the last breakdown's groups, in the order free, used, model, context, compute, unaccounted |
| ParseRun.ParseLog | qos-llm/src/parse_run.py:15-37 | the record built by successive assignments is the log-facts record of the text's matches |
| ParseRun.NoMatchNoFacts | qos-llm/src/parse_run.py:15-37 | a log in which no `[` is followed by whitespace and `Prompt:`, and without a memory breakdown, yields an empty record, not an error |
| ParseRun.ConfigEntry | qos-llm/src/parse_run.py:42-44 | a line contributes an entry exactly when it holds `=`; the key holds no `=`; key and value are trimmed |
| ParseRun.ConfigEntrySplitsAtFirst | qos-llm/src/parse_run.py:43-44 | only the first `=` separates: the value keeps any later `=`, and both sides are stripped |
| ParseRun.Entries | qos-llm/src/parse_run.py:41-44 | at most one entry per line; every key is stripped and holds no `=`, every value is stripped |
| ParseRun.Assign | qos-llm/src/parse_run.py:44 | every configured key maps to a value that some entry set for it |
| ParseRun.ConfigOf | qos-llm/src/parse_run.py:39-45 | every key of the configuration is stripped and holds no `=`, and every value is stripped |
| ParseRun.AssignKeys | qos-llm/src/parse_run.py:44 | a key is configured exactly when some line sets it |
| ParseRun.AssignLastWins | qos-llm/src/parse_run.py:44 | the last line that sets a key gives its value |
| ParseRun.EntriesAppend | qos-llm/src/parse_run.py:41-44 | the entries of two blocks of lines are the entries of each, in order |
| ParseRun.ConfigSkipsPlainLine | qos-llm/src/parse_run.py:42 | a line without `=` changes nothing, wherever it stands |
| ParseRun.ParseConfig | qos-llm/src/parse_run.py:39-45 | the loop's dict is the fold of the entries of the text's lines |
| ParseRun.ConfigInt | qos-llm/src/parse_run.py:65-66 | an absent or empty value counts as 0; any other value raises exactly when it is not an integer literal, with the value in the error |
| ParseRun.ConfigIntOfDigits | qos-llm/src/parse_run.py:65-66 | a value of digits converts to the number it denotes |
| ParseRun.Summary | qos-llm/src/parse_run.py:62-69 | the summary is built exactly when both `ctx` and `gen_tokens` convert; on failure the error is that of `ctx` when it fails, otherwise that of `gen_tokens` |
| ParseRun.SummaryFields | qos-llm/src/parse_run.py:62-69 | the summary holds the five fixed fields and the parsed facts, and a parsed fact keeps its value |
| ParseRun.SummaryFixedFields | qos-llm/src/parse_run.py:63-67 | without a colliding parsed fact: the run directory; the tag and model path as configured (empty when absent); and the converted `ctx` and `gen_tokens` |
| ParseRun.RunSummary | qos-llm/src/parse_run.py:58-69 | summarising a run raises only on a malformed number |
| ParseRun.Main | qos-llm/src/parse_run.py:47-69 | a missing-file error happens exactly when an input is missing, and it names the log when the log is missing, else the configuration; with both files present the result is the run summary |
| ParseRun.FactsSummaryShape | qos-llm/src/parse_run.py:62-69 | the summary's fields are the five fixed ones, the rates exactly when the log had a throughput match, and the memory fields exactly when it had a breakdown; each field has its type (tag and model path strings, ctx and gen_tokens integers, rate float, model memory integer) |
| ParseRun.SummaryShape | qos-llm/src/parse_run.py:58-69 | the same field set and types, from the configuration text and log text of a run |
| ParseRun.SummarizeRun | qos-llm/src/parse_run.py:47-69 | the file checks, the configuration loop and the log parsing in sequence give `Main`'s result |
| Values.Get | qos-llm/src/analyze_runs.py:98-102 | `d.get(key, default)`: the stored value when the key is present, the default otherwise |
| Values.NameInjective | qos-llm/src/parse_run.py:22-35 | no two fields share a JSON key |
| AnalyzeRuns.Stamp | qos-llm/src/analyze_runs.py:31 | the row's `t_rel` becomes its `ts` minus `t0`, and no other column changes |
| AnalyzeRuns.StampAll | qos-llm/src/analyze_runs.py:30-31 | every row is stamped with its time since `t0`, in order, and no row is added or lost |
| AnalyzeRuns.RelTime | qos-llm/src/analyze_runs.py:26-32 | the number and order of rows and every column but `t_rel` are unchanged; each row's `t_rel` is its `ts` minus the first row's, so the first row's is 0 |
| AnalyzeRuns.ToRelTime | qos-llm/src/analyze_runs.py:26-32 | the array updated in place holds exactly the rows `RelTime` describes |
| AnalyzeRuns.StampAllAppend | qos-llm/src/analyze_runs.py:30-31 | stamping one more row appends its stamped copy |
| AnalyzeRuns.Max | qos-llm/src/analyze_runs.py:40 | the peak is at least every value and equals one of them |
| AnalyzeRuns.SumBounds | qos-llm/src/analyze_runs.py:41-42 | the sum of `n` values bounded by `lo` and `hi` lies between `n·lo` and `n·hi` |
| AnalyzeRuns.Mean | qos-llm/src/analyze_runs.py:41-42 | the mean times the number of values is their sum, and it lies between the smallest and the largest value |
| AnalyzeRuns.Rss | qos-llm/src/analyze_runs.py:35 | the RSS column has one entry per row, the row's `rss_mb` |
| AnalyzeRuns.Cpu | qos-llm/src/analyze_runs.py:36 | the CPU column has one entry per row, the row's `cpu_pct` |
| AnalyzeRuns.SummarizeMetrics | qos-llm/src/analyze_runs.py:34-46 | no rows give 0.0 for everything; otherwise it raises (missing `t_rel`) exactly when the last row was not stamped; the final page-in and page-out counts and the duration are the last row's values |
| AnalyzeRuns.PeakAndMean | qos-llm/src/analyze_runs.py:40-41 | the peak RSS is at least every row's RSS and is some row's RSS; the mean RSS lies between the smallest RSS and the peak |
| AnalyzeRuns.SingleRowStats | qos-llm/src/analyze_runs.py:40-45 | for one stamped row: peak = mean = its RSS, mean CPU = its CPU, final counts = its deltas, duration 0 |
| AnalyzeRuns.ThreeSampleRun | qos-llm/src/analyze_runs.py:40-45 | samples of 100, 150 and 120 MB at 1000, 1005 and 1010 s give a peak of 150, a mean of 370/3 and a duration of 10 |
| AnalyzeRuns.StampedRowsSummarize | qos-llm/src/analyze_runs.py:62-63 | after `to_rel_time`, `summarize_metrics` never raises, and the duration is the time from the first sample to the last |
| AnalyzeRuns.StatsRecord | qos-llm/src/analyze_runs.py:39-46 | the statistics record holds exactly the six statistics fields, each carrying its statistic |
| AnalyzeRuns.Merge | qos-llm/src/analyze_runs.py:66 | the merge holds every key of either record; a statistics key takes the statistics value, any other key keeps the summary's |
| AnalyzeRuns.MergeIdempotent | qos-llm/src/analyze_runs.py:66 | merging the same statistics a second time changes nothing |
| AnalyzeRuns.RunStats | qos-llm/src/analyze_runs.py:62-63 | the statistics of a run's stamped rows always exist |
| AnalyzeRuns.MergedFields | qos-llm/src/analyze_runs.py:66 | the merged record holds the summary's fields and the six statistics, and keeps every non-statistics field |
| AnalyzeRuns.MergedStats | qos-llm/src/analyze_runs.py:66 | all six statistics of the merged record are the given ones, whatever the summary held |
| AnalyzeRuns.ColumnsOfRelTime | qos-llm/src/analyze_runs.py:30-36 | stamping the rows leaves the RSS and CPU columns unchanged |
| AnalyzeRuns.RunStatsOfRows | qos-llm/src/analyze_runs.py:34-46 | a run's statistics from its raw rows: zeros without rows, otherwise peak and mean RSS, mean CPU, the last row's deltas, and the time from the first sample to the last |
| AnalyzeRuns.AnalyzedRecord | qos-llm/src/analyze_runs.py:58-66 | a run's merged record holds its summary's fields and the six statistics, and every other field is the stored one |
| AnalyzeRuns.AnalyzedStatsNoRows | qos-llm/src/analyze_runs.py:39-46 | a run without rows has all six statistics 0 |
| AnalyzeRuns.AnalyzedStats | qos-llm/src/analyze_runs.py:58-66 | the six statistics of a run's merged record: peak and mean RSS and mean CPU over its rows, the last row's page-in and page-out deltas, and the time from the first sample to the last |
| AnalyzeRuns.AnalyzeRun | qos-llm/src/analyze_runs.py:58-82 | the rows are stamped in place, and the returned record is the summary with the rows' statistics merged over it |
| AnalyzeRuns.Comparison | qos-llm/src/analyze_runs.py:89 | one merged record per run, in the order the runs were given |
| AnalyzeRuns.TableLine | qos-llm/src/analyze_runs.py:97-103 | a table line has one cell per column, six in all |
| AnalyzeRuns.LineCells | qos-llm/src/analyze_runs.py:97-103 | a line shows tag (default empty), ctx (default None), gen_tps (default `?`), metal_model_mib (default `?`), rss_peak_mb (default 0) and pageouts_final (default 0) |
| AnalyzeRuns.ReportTable | qos-llm/src/analyze_runs.py:96-103 | one line per merged record, in order, each the record's table line; no missing field stops the report |
| AnalyzeRuns.RunCells | qos-llm/src/analyze_runs.py:98 | the tag and ctx cells show the summary's values or their placeholders; merging statistics never changes them |
| AnalyzeRuns.LogCells | qos-llm/src/analyze_runs.py:99-100 | the gen_tps and metal_model_mib cells show the summary's values or `?` |
| AnalyzeRuns.StatsCells | qos-llm/src/analyze_runs.py:101-102 | the rss_peak_mb and pageouts_final cells always show the run's statistics, never a placeholder |
| AnalyzeRuns.MergedGet | qos-llm/src/analyze_runs.py:66 | merging statistics leaves every other field as the summary had it, present or absent |
| AnalyzeRuns.PipelineLine | qos-llm/src/analyze_runs.py:97-103 | for a run summarised by `parse_run.py`: the tag cell is a string and the ctx cell an integer; the rate shows `?` exactly when the log had no throughput line; the model memory shows `?` exactly when it had no breakdown; the last two cells are the run's statistics |

## Left out

- File I/O is not modelled. This covers `read_text`, `Path.exists`, `json.dumps`/`json.loads`, `summary.json` and the report files. Existence flags and file contents are inputs instead.
- `Path.resolve` is left out because the file system is not modelled. The run directory is passed in already resolved.
- The missing-file error keeps only the file name, not the full path printed by `SystemExit`. The path depends on the file system.
- `RE_METAL` is not matched by the model. Its lazy `Metal .*?` would need a general backtracking regex engine. `LogFacts` and `ParseLog` take `RE_METAL.findall(log_text)` as the `metals` parameter instead. The throughput pattern is matched in full.
- `load_metrics` is left out because it reads a CSV file. Rows arrive already typed as `SampleRow`, and `float()` errors on CSV columns are not modelled.
- `save_plot` and the three plots in `analyze_run` are left out because they are matplotlib output.
- The command-line entry points are left out because they are process handling. This covers the argument count checks and `SystemExit` usage messages, the `Wrote …` message and the `Comparison:` header.
- Table cells are modelled as values, not text. The `:.2f` rendering of `rss_peak_mb` and Python's float and `None` rendering are left out because they are string formatting of floats.
- Records are limited to the nineteen fields the pipeline writes, each stored under its JSON key. A `summary.json` edited by hand to hold other keys would carry them through the merge in Python. Here they cannot be expressed.
- Floats are exact reals. Binary rounding is left out, including the rounding of `statistics.mean`.
- Numbers.ParseDecimal: it accepts only what `[0-9.]+` can capture. `float()` also accepts signs, exponents, `inf`/`nan`, underscores and surrounding whitespace, but those never reach it from the log pattern.
- Numbers.ParseInt: it accepts ASCII digits only. `int()` also accepts `_` separators and non-ASCII decimal digits in configuration values.
- `Text.IsSpace` and `Text.IsLineBreak` follow Python's definitions for the characters listed in text.dfy. Python's full Unicode tables are not reproduced.
- `errors="ignore"` decoding is left out because the text is given as characters.
