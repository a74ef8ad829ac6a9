# Consumer ethics in AI shopping assistants: a Dafny model

These scripts put consumer-ethics questionnaires to language models and
compare the answers with human survey data. This project models their logic
in Dafny:

- reading the questions;
- fanning the questions out over iterations and retrying on rate limits;
- routing a model name to a provider client and shaping each reply into a
  `[#, question, iteration, answer]` record;
- sorting the records back into question order;
- parsing the hand-typed survey sheets;
- the per-question averages and spreads;
- grouping answers by category for humans and models;
- the category analysis that precedes and feeds the one-way ANOVA and
  Tukey's test;
- the run labels a report stores in its state file;
- the layout of the report pages.

Modules (one file each):

| module | file | what it models |
|---|---|---|
| `Wrappers` | wrappers.dfy | `Option` and `Result` |
| `Text` | text.dfy | the Python `str` operations used: `isspace`, `strip`, `split`, `in`, `lower`, `str(int)`, `int(str)` |
| `SurveyProcessor` | survey.dfy | the survey sheet parser and the iteration counter of the CSV store |
| `Questions` | questions.dfy | reading question files line by line with the three question patterns |
| `Records` | records.dfy | the request grid and the stable sort by `(#, iteration)` |
| `Dispatch` | dispatch.dfy | `choose_llm` and the two retrying batch controllers |
| `Sequential` | sequential.dfy | the sequential run of the top-level script, and how it splits a reply into answer and reason |
| `Summary` | summary.dfy | `astype(int)`, the group means and spreads, `transform("mean")`, `mask(duplicated())` |
| `Stats` | stats.dfy | exact sums, means and variances over `real`, and a NaN-or-number value |
| `ReportLayout` | layout.dfy | the category slices, the two-column averages table, and where the plot images go |
| `Categories` | categories.dfy | the category tables of both questionnaires and the survey's column order |
| `Grouping` | grouping.dfy | the data of one category, grouped per human or model group |
| `Comparison` | comparison.dfy | the per-category analysis: empty-group removal, the two-group gate, the Tukey input, the means, spreads and MSE |
| `ReportState` | report.dfy | the report's state file, its run labels and the three-column data grid |
| `Providers` | providers.dfy | client routing by model name, and the record every adapter returns |

Three scripts run the questionnaires. The *package script* is `src/main.py`
(the `run_llm_batch` of the package), the *batch script* is
`resources/misc/main2.py` (a standalone retrying controller), and the
*top-level script* is `main.py` (the sequential run).

The outside world enters as parameters:

- Everything a provider replies is a function of the request (`Backend`,
  `reply`).
- What happens to the batch attempts is a sequence with one outcome per
  attempt the controller may start (`attempts`).
- The state file is a value: `None` when the file does not exist.
- `scipy.stats.f_oneway` is a parameter (`anova`).
- Tukey's test is represented by the labelled values handed to it.

A Python dictionary is modelled by its insertion-ordered keys plus a map.

## Model

Where a row's member is a lemma about a function that models the source,
that function is named first, in parentheses.

| member | source | states |
|---|---|---|
| Text.StripPadded | src/survey-processor-py.py:28 | `strip()` returns exactly the trimmed text between any whitespace prefix and suffix |
| Text.SplitJoin | main.py:68 | splitting a joined sequence of separator-free parts at the separator gives back the parts |
| Text.ContainsIff | src/main.py:75 | Python's `t in s` holds exactly when `t` occurs at some index of `s` |
| Text.ParseIntRoundTrip | src/main.py:100 | `int(str(i)) == i` for every integer |
| SurveyProcessor.ParseResponse | src/survey-processor-py.py:25-51 | success gives 17 answers, each in 1..5 and matching its line `i) X`; the line-count error occurs exactly when the stripped text has a number of lines other than 17 and reports that count; a format error names the first line that does not match; the range error can never be raised |
| SurveyProcessor.ParseAcceptsExactlyWellFormed | src/survey-processor-py.py:28-39 | a sheet is accepted exactly when it has 17 lines and line `i` is `i)`, optional whitespace, and one digit 1-5 |
| SurveyProcessor.ParseRenderRoundTrip | src/survey-processor-py.py:25-51 | a sheet rendered from 17 answers in 1..5 parses back to those answers, with or without a trailing newline |
| SurveyProcessor.MatchLineSound | src/survey-processor-py.py:37 | whatever the line pattern accepts is `k)`, whitespace, and the digit it returns (1..5) |
| SurveyProcessor.MatchLineComplete | src/survey-processor-py.py:37 | every line `k)`, whitespace, and a digit 1..5 is accepted with that digit, also before one final newline |
| SurveyProcessor.LastIteration | src/survey-processor-py.py:11-23 | the largest stored iteration, or -1 for a missing, unreadable or empty file |
| SurveyProcessor.AddResponse | src/survey-processor-py.py:53-83 | a sheet that does not parse leaves the counter alone and re-raises the parse error; otherwise the counter rises by one and rows `(k, iteration, answer k)` for k = 1..17 are appended |
| SurveyProcessor.FreshIteration | src/survey-processor-py.py:9-20 | a new file's first sheet gets iteration 0; every later sheet gets an iteration above all stored ones; reopening after the append resumes from it |
| Questions.FileLinesShape | src/main.py:25-26 | iterating a file yields lines that each end in a newline, except possibly the last |
| Questions.MatchQuestionSound | src/main.py:27-28 | a matched line is the pattern's prefix, the returned question, and at most a final newline |
| Questions.MatchQuestionComplete | src/main.py:27-28 | every line of that shape is matched with exactly that question |
| Questions.NonEmptyPatternIsNarrower | resources/misc/main2.py:113 | `(.+)` and `(.*)` agree except that only `(.*)` accepts an empty question |
| Questions.EmptyQuestionExample | resources/misc/main2.py:113 | the line `3. ` yields the empty question under `(.*)` and nothing under `(.+)` |
| Questions.ExtractAppend | src/main.py:26-28 | (`Questions.Extract`) extraction works line by line: the questions of two blocks of lines are those of the first followed by those of the second |
| Questions.RenderRoundTrip | src/main.py:22-30 | (`Questions.QuestionsOf`) questions written one per line in a pattern's format are read back exactly, in order |
| Records.Sort | src/main.py:89 | the result is ordered by `(#, iteration)` and is a permutation of the input |
| Records.SortStable | src/main.py:89 | records with the same key keep their input order |
| Records.SortPermutation | src/main.py:89 | sorting any completion order of distinct-key records restores the one ordered sequence |
| Records.TasksExactly | src/main.py:62-64 | an attempt requests exactly each question number 1..n with its text and each iteration 0..m-1, once each, in increasing `(#, iteration)` order |
| Records.AnsweredStrictlySorted | src/main.py:62-68 | the records of requests made in increasing key order are strictly ordered by key, whatever the answers |
| Dispatch.Finish | src/main.py:89 | after the loop, the rows are sorted by `(#, iteration)` and are a permutation of those collected; an exception passes through unchanged |
| Dispatch.PackageLoopSpec | src/main.py:58-87 | (`Dispatch.PackageLoop`) from any point of the loop, every attempt except the last failed with a retryable error; it raises exactly when the third attempt fails retryably; otherwise it exits with every row collected, after an attempt that did not fail retryably |
| Dispatch.PackageLoopRetries | src/main.py:73-83 | the loop goes on only past an attempt whose error message mentions a rate or token limit |
| Dispatch.PackageRun | src/main.py:58-87 | one to three attempts with a sleep between consecutive ones; it raises "Max retries reached: 3" exactly when all three attempts fail retryably |
| Dispatch.PackageRunResult | src/main.py:84-89 | a run that returns ended on success or on a non-retryable error, and returns every row of every attempt as a sorted permutation |
| Dispatch.BatchLoopSpec | resources/misc/main2.py:117-145 | (`Dispatch.BatchLoop`) every attempt before the last raised `RateLimitError`; it completes exactly when the last attempt raised nothing, with every row collected; the limit message follows the fifth `RateLimitError`; any other exception escapes with its own message |
| Dispatch.BatchRun | resources/misc/main2.py:117-148 | one to five attempts, with a sleep between consecutive ones |
| Dispatch.BatchRunSpec | resources/misc/main2.py:117-148 | it completes exactly when the last attempt raised nothing; it raises the limit message exactly when all five attempts raise `RateLimitError`; another exception escapes with its own message; on completion it returns a sorted permutation of all rows collected |
| Dispatch.OtherErrorHandling | src/main.py:84-87 | on a non-retryable error the package script returns the rows so far, sorted, while the batch script raises |
| Dispatch.RetryClassification | src/main.py:75 | the package script decides by message text (case-insensitive), not by exception class |
| Dispatch.ChooseLlm | src/main.py:37-48 | exactly "gpt" and "gemini" select an adapter; any other key fails |
| Dispatch.ChooseLlmMessage | src/main.py:45-48 | the error message quotes the rejected key and lists the supported keys |
| Dispatch.EvaluateCes | src/main.py:51-58 | an unknown key raises before any attempt; a known key runs the retry loop |
| Dispatch.PackageFirstAttemptInOrder | src/main.py:60-89 | a first attempt that answers every request gives one record per question and iteration, in order, after one attempt and no sleep |
| Dispatch.BatchFirstAttemptInOrder | resources/misc/main2.py:117-148 | the same for the batch script with ten iterations |
| Sequential.SplitReply | main.py:68-69 | a reply yields an answer and a reason exactly when it contains a newline |
| Sequential.SequentialReplyRow | main.py:68-69 | a reply `rating\nreason…` gives the stripped rating as the answer and the reason line as the reason |
| Sequential.Collect | main.py:64-70 | the run completes exactly when every reply has a newline, with one row per request |
| Sequential.CollectRows | main.py:64-70 | row k holds request k's number and question, the stripped first line and the second line of its reply |
| Sequential.SequentialRunRows | main.py:63-70 | (`Sequential.SequentialRun`) the run completes exactly when each question's reply has a newline; row k then answers question k+1 with its text |
| Summary.AsInts | src/main.py:100 | conversion succeeds exactly when every answer parses as an ASCII integer (`Text.ParseInt`) within the `int64` range; the result keeps the question numbers in row order, and each value is its answer's parsed integer |
| Summary.AsIntsOfRendered | src/main.py:100 | answers written as `str(v)`, with `v` in the `int64` range, convert back to `v` |
| Summary.AsIntsOverflow | src/main.py:100 | an answer one past the `int64` maximum makes the conversion fail, as numpy's OverflowError does |
| Summary.ValuesForNonEmpty | src/main.py:101 | a question has a group exactly when some row carries its number |
| Summary.AveragesInRange | src/main.py:101 | (`Summary.Averages`) answers within `[lo, hi]` give every question's mean within `[lo, hi]` |
| Summary.AverageOfSingle | main.py:79 | the mean of a question answered once is that answer |
| Summary.Spreads | src/main.py:103 | one spread per question that occurs; it is defined (not NaN) exactly when the question has at least two answers, and is then the sample variance of that question's answers |
| Summary.RowAverages | main.py:85 | every row gets the mean of its own question |
| Summary.RowAveragesAgree | main.py:85 | rows of the same question show the same mean |
| Summary.MaskBlanks | main.py:86 | (`Summary.Mask`) a row is blanked exactly when an earlier row holds the same cells; kept rows are unchanged |
| Summary.MaskKeepsFirst | main.py:86 | (`Summary.Mask`) the kept rows are pairwise distinct and cover every distinct row |
| Summary.MaskDistinct | main.py:86 | when all rows differ, nothing is blanked |
| Summary.SequentialAverages | main.py:78-79 | in the sequential run each question's mean is its single answer |
| Summary.SequentialNothingMasked | main.py:85-86 | in the sequential run no row of the printed table is blanked |
| Stats.MeanBounds | src/main.py:101 | a mean lies between any bounds of its values |
| Stats.SampleVar | src/main.py:103 | the sample variance exists exactly for two or more values; it is non-negative, and `count - 1` times it is the sum of squared deviations from the mean |
| Stats.PopVarZero | src/og-stats-eval.py:191 | the population variance is zero exactly when all values are equal |
| Stats.SumSqDevPositive | src/og-stats-eval.py:176 | the squared deviations from `m` sum to a positive number exactly when some value differs from `m` |
| Stats.ValidAppend | src/og-stats-eval.py:150-151 | dropping NaN distributes over concatenation |
| Stats.ValidAllVals | src/stats_eval.py:69 | values without NaN lose nothing to the NaN filter |
| Stats.MeanOrNaN | src/og-stats-eval.py:189 | the mean is NaN exactly for an empty group; otherwise `count` times it is the sum |
| Stats.PopVarOrNaN | src/og-stats-eval.py:191 | the spread is NaN exactly for an empty group; otherwise it is non-negative and `count` times it is the sum of squared deviations from the mean |
| Stats.MeanPropagating | src/stats_eval.py:164 | `np.mean` without filtering is a number exactly when the group is non-empty and holds no NaN, and is then the mean of the values |
| Stats.PopVarPropagating | src/stats_eval.py:165 | the same for `np.std`; the result is then non-negative and is the population variance of the values |
| ReportLayout.SlicesContiguous | src/main.py:119-120 | seven slices for seven labels, starting at row 0, each starting where the previous stops, only the last open |
| ReportLayout.SlicesPartition | src/main.py:119 | whatever the number of rows, each row falls in exactly one category slice |
| ReportLayout.AveragesTableShape | resources/misc/main2.py:181-185 | (`ReportLayout.AveragesTable`) `ceil(n/2)` rows; read row by row, one cell per question in order, labelled by question number; only a last row of an odd count has one cell |
| ReportLayout.PlacesClosedForm | resources/misc/main2.py:240-249 | (`ReportLayout.PlacesAsWritten`) the loop as written puts image i on the 2×2 grid of page i/4, except the first image of every later page, which goes in the right column |
| ReportLayout.PlacesApart | resources/misc/main2.py:232-249 | (`ReportLayout.Places`) with the left column restored on each new page, no two images overlap and seven plots fit on two pages |
| ReportLayout.PlacesAsWrittenOverlap | resources/misc/main2.py:240-249 | as written, plots 5 and 6 of seven are drawn at the same spot |
| Categories.OriginalCategoriesShape | src/og-stats-eval.py:69-77 | seven increasing lists inside 1..31; a question is in a list exactly when it is in that list's category; question 10 is in none |
| Categories.SurveyCategoriesPartition | src/stats_eval.py:82-88 | five increasing lists that partition 1..17 |
| Categories.CategoriesDisjoint | src/og-stats-eval.py:69-77 | no question is listed by two categories of either table |
| Categories.ColumnOrderDistinct | src/stats_eval.py:48-67 | 17 distinct column names; name k starts with `Q` and its question id; the ids are a rearrangement of 1..17 |
| Grouping.Put | src/og-stats-eval.py:97-104 | assigning a key keeps the dictionary well formed and sets that key; no other key appears or disappears |
| Grouping.PutEmptyAllKeys | src/og-stats-eval.py:103-104 | adding empty model lists appends the model names to the key order |
| Grouping.PutEmptyAllSpec | src/og-stats-eval.py:103-104 | each added model maps to `[]` and the earlier groups keep their values |
| Grouping.LoadHumanData | src/og-stats-eval.py:48-58 | one student and one non-student value per survey row, in row order |
| Grouping.HumanPickAll | src/og-stats-eval.py:107-111 | every question is taken exactly when each number is within the survey, in the category's order |
| Grouping.AddHumanSpec | src/og-stats-eval.py:107-111 | both human groups grow by the picked questions' values, using the student count as the bound; no other group changes |
| Grouping.ResponsesForMembers | src/og-stats-eval.py:117-118 | a value is among a question's responses exactly when some raw row carries it for that question |
| Grouping.ModelGroupSize | src/og-stats-eval.py:116-118 | for distinct questions, a model's group has one entry per raw row of the category |
| Grouping.AddModelSpec | src/og-stats-eval.py:116-118 | a model's group grows by its responses question by question; the others are unchanged |
| Grouping.AddModelsOther | src/og-stats-eval.py:114-118 | the model loop leaves a group that is not a model's untouched |
| Grouping.AddModelsOwn | src/og-stats-eval.py:114-118 | with distinct model names, each model's group grows by exactly its own responses |
| Grouping.OgCategoryDataSpec | src/og-stats-eval.py:95-120 | the keys are Students, Non-Students, then the models in order; the human groups hold the picked values; each model's group holds its responses |
| Grouping.OgProcessGroups | src/og-stats-eval.py:92-122 | with the original table and 31 survey rows, every category's human groups hold one value per question |
| Grouping.AddColumns | src/stats_eval.py:113-117 | the human columns resolve exactly when every question number is within the columns (else IndexError) |
| Grouping.ColumnValues | src/stats_eval.py:117 | the picked survey values hold no NaN |
| Grouping.AddColumnsSpec | src/stats_eval.py:113-117 | Human grows by the picked columns' values; no other group changes |
| Grouping.SurveyCategoryData | src/stats_eval.py:106-126 | a category's data exists exactly when all its questions resolve |
| Grouping.SurveyCategoryDataSpec | src/stats_eval.py:106-126 | the keys are Human, then the models; Human holds the column values; each model's group holds its responses |
| Grouping.SurveyTableResolves | src/stats_eval.py:115 | with 17 columns every survey category resolves |
| Comparison.Items | src/og-stats-eval.py:157 | one group per key, in key order, with that key's scores |
| Comparison.KeptOne | src/og-stats-eval.py:155-162 | at least one group survives empty-group removal exactly when some group has a number |
| Comparison.KeptTwo | src/og-stats-eval.py:155-165 | the two-group gate passes exactly when two different groups have a number |
| Comparison.TukeyInputByGroup | src/og-stats-eval.py:142-152 | filtering NaN from the concatenated labelled values equals concatenating each group's filtered values with its label |
| Comparison.WithinZero | src/og-stats-eval.py:173-177 | the within-group sum of squares is zero exactly when every group is constant |
| Comparison.MseSpec | src/og-stats-eval.py:169-179 | the MSE is a number exactly when there are more values than groups; it then times the degrees of freedom equals the pooled within-group sum of squares, and it is zero exactly when every group is constant |
| Comparison.KeptIndices | src/og-stats-eval.py:155-162 | the positions of the groups kept for the tests are increasing, each such group has a number, and every group with a number is among them |
| Comparison.KeptAt | src/og-stats-eval.py:155-162 | the k-th kept group is the NaN-free scores of the group at the k-th kept position |
| Comparison.Analyze | src/og-stats-eval.py:164-206 | one mean and spread per group, NaN exactly for groups without a number, otherwise the mean and the population variance of the group's numbers; when the tests run, F and p are `f_oneway` of the kept groups and the MSE is computed over them; no Tukey result means F, p and MSE are NaN |
| Comparison.AnalyzeGate | src/og-stats-eval.py:165-200 | Tukey runs exactly when two groups have numbers, on the NaN-free labelled values group by group |
| Comparison.AnalyzeMse | src/og-stats-eval.py:165-179 | the MSE is a number exactly when the gate passes and there are more values than kept groups; it is then zero exactly when every kept group is constant |
| Comparison.AnalyzeMeanInRange | src/og-stats-eval.py:189-190 | scores within `[lo, hi]` give group means within `[lo, hi]` |
| Comparison.Scores | src/stats_eval.py:153 | the groups handed to `f_oneway` are every group's raw scores, in dict order |
| Comparison.SurveyAnalyze | src/stats_eval.py:153-165 | F and p are `f_oneway` of every group's raw scores; one mean and spread per group, defined together, and then the mean and population variance of the group's scores |
| Comparison.SurveyAnalyzeUnfiltered | src/stats_eval.py:148-165 | Tukey receives every value, NaN included; a group's mean is a number exactly when it is non-empty and NaN-free |
| Comparison.LabelledAt | src/stats_eval.py:148-150 | the j-th score of group i sits after all scores of the groups before it, labelled with its group's name |
| Comparison.SurveyTukeyAt | src/stats_eval.py:148-160 | the same position in the survey comparison's Tukey input holds that score, NaN or not, under its group's label |
| Comparison.SurveyTukeyFiltered | src/stats_eval.py:148-160 | dropping the NaN pairs from the survey Tukey input gives each group's numbers under its label, which is the original comparison's Tukey input whenever that one runs |
| Comparison.LabelledSize | src/stats_eval.py:148-150 | the labelled data has one entry per score |
| ReportState.LoadState | src/report_helper.py:10-16 | the stored counter under the prefix, or the default `("", 1)` |
| ReportState.SaveState | src/report_helper.py:19-26 | an existing file stays, and a missing file is not created |
| ReportState.SaveLoad | src/report_helper.py:10-26 | loading after saving gives the saved counter when a file exists, the default otherwise; no other entry changes |
| ReportState.CreateReportSpec | src/report_helper.py:41-50 | (`ReportState.CreateReport`) the label is `prefix_n` for the next number; an existing file records n under the prefix and keeps the other entries |
| ReportState.EmptyPrefixStartsAtTwo | src/report_helper.py:41-47 | the empty prefix matches the default name, so its first label is `_2` |
| ReportState.ReportsCount | src/report_helper.py:41-50 | consecutive reports for a stored prefix with counter c are numbered c+1, c+2, … |
| ReportState.FreshPrefixReports | src/report_helper.py:41-50 | with a state file, a new non-empty prefix is labelled `prefix_1`, `prefix_2`, … |
| ReportState.ReportsShift | src/report_helper.py:41-50 | k reports are the first report followed by k-1 more from the file it leaves |
| ReportState.NoFileAlwaysFirst | src/report_helper.py:19-26 | without a state file nothing persists, and every report is labelled `prefix_1` |
| ReportState.GridShape | src/report_helper.py:88-98 | `ceil(n/3)` rows of exactly three slots; read row by row, the questions in order, then at most two blanks |
| ReportState.GridFromCells | src/report_helper.py:88-97 | the grid from any row start has the questions from there on, then blanks up to a multiple of three |
| Providers.ChooseClientSpec | src/openai_client.py:44-49 | (`Providers.ChooseClient`) GPT exactly when "gpt" occurs in the name; Grok when "grok" occurs and "gpt" does not; Together otherwise |
| Providers.ChooseClientExamples | src/openai_client.py:43-45 | the default model goes to GPT, and so does a name that holds both keys |
| Providers.AdaptersRecord | src/openai_client.py:43-73 | (`Providers.ResponseT`, `Providers.ResponseGemini`, `Providers.ResponseClaude`) every adapter returns `i`, the content and `j` unchanged, and the trimmed core of its reply |
| Providers.AdapterAnswersTask | src/openai_client.py:57-62 | an adapter's record for a request is that request's record with the stripped reply |
| Providers.GeminiIgnoresSettings | src/openai_client.py:60-62 | the Gemini record does not depend on the model, token or temperature arguments, which the other adapters forward |
| Providers.TaggedInjective | resources/misc/main2.py:79 | the statement tags can be removed: different statements give different requests |

## Left out

- Dispatch: the attempt outcomes are given as exactly `MAX_RETRIES` entries, one per attempt a controller may start; entries after the attempt that ends a run are never read.
- Threads, sleeps and jitter: an attempt's outcome is an input and sleeps are only counted. The completion order of threads is covered by `Records.SortPermutation`.
- Provider SDK calls and client construction: replies are an input (`Backend`, `reply`). API keys and configuration are out of scope.
- File, CSV, JSON and PDF input and output. PDF fonts and text are not modelled. The survey's column dropping and the `drop([0, 1])` of header rows are left out (`src/stats_eval.py:45-47, 68`).
- Square roots: every "std" is modelled by the variance under it. Population variance is used for `np.std`, sample variance for pandas `std`.
- `scipy.stats.f_oneway` and `pairwise_tukeyhsd`: the model records the groups and labelled values passed to them, and F and p come from a parameter.
- Floating point: averages are exact `real`s, and the `:.2f` rounding of the averages table is not modelled.
- Plotting (src/plotting_helper.py, the heatmaps and bar charts), `load_ai_data`, `visualize_results`, `get_data`'s merge with the reference CSV, and the interactive loop of the survey processor.
- The loops over categories in both `analyze_all_categories` are modelled one category at a time (`Comparison.Analyze`, `Comparison.SurveyAnalyze`). `Grouping.OgProcess` maps the original table.
- Categories.QuestionId: question numbers are at least 1, as in both tables, so `q - 1` never wraps to a negative Python index.
- Comparison.AnalyzeMse: states zero-iff-constant for the analysis result. The product identity `mse * (n - k) == pooled SS` is proved about `Comparison.Mse` in `Comparison.MseSpec`.
- Comparison.Mse: when every kept group has one value, the source divides 0.0 by 0. numpy gives NaN there, and the model returns NaN.
- Stats.SampleVar: pandas gives NaN for a group of one; the model returns `None`.
- Python `lower()` is modelled on ASCII letters only, and `\d` on ASCII digits.
- Text.ParseInt: ASCII only. Python's `int()` also accepts underscores between digits (`"1_0"`) and non-ASCII decimal digits; the model returns `None` for both.
- Summary.AsInts: inherits the limits of `Text.ParseInt`, so answers such as `"1_0"` fail to convert in the model although pandas would convert them. The `int64` range is modelled: a value outside it fails, as pandas' OverflowError does.
- Report titles and the text that surrounds labels are left out.

## Findings

| source | as written | input that shows it | evidently intended | confidence | as-written member | corrected member |
|---|---|---|---|---|---|---|
| resources/misc/main2.py:240-249 | on a new page (`i % 4 == 0`, `i > 0`) only `y_offset` is reset; `x_offset` keeps 110 from the previous image | seven category plots: plot 5 (i = 4) and plot 6 (i = 5) both go to page 2 at x = 110, y = 30 | two per row, four per page, the first image of each page at the left column (x = 10) | not executed | ReportLayout.PlacesAsWrittenOverlap | ReportLayout.PlacesApart |
