# Neoverse benchmark dashboard and optimised matrix multiplication — a Dafny model

This project models two parts of the ARM benchmarking repository.

The first is the request handler of the dashboard server (`dashboard/server.py`):
- `do_GET` sends `/api/data` and `/api/system` to the two readers and every other path to the static file server.
- `do_POST` acknowledges `/api/run-benchmark` with the requested benchmark type, defaulting to `baseline`, and answers 404 anywhere else.
- `get_benchmark_data` reads the baseline results summary into a map from size label to GFLOPS value. It adds the fixed table of three optimisation results and a timestamp.
- `get_system_info` scans the CPU descriptor text for the processor name and the number of cores. When reading or scanning raises, it falls back to a fixed record with no timestamp.

The second is the benchmark driver `src/optimized_matrix.c`:
- the matrix side chosen from the first command-line argument;
- the initialisation loop;
- `matrix_multiply_optimized`, an in-place triple loop over row-major `N x N` buffers;
- the result check, which prints `C[0]` against the expected `2 * N`.

Modules:
- `Wrappers` (`wrappers.dfy`): `Option` and `Result`. A `Failure` or `None` stands for a Python exception.
- `PyStr` (`pystr.dfy`): the Python string operations the handler uses: `strip()`, `split(c)`, `split()`, `lower()`, `in` and `startswith`. `split(c)` is fixed by the round trip between `split` and `join`. `split()` is proved to be the first word after the leading whitespace followed by the tokens of the remaining text, so its tokens are the successive words.
- `Server` (`server.dfy`): the routes, the summary reader and the descriptor scanner.
  - Each reader is a function that folds over the lines (`BenchmarkDataOf`, `SystemInfoOf`).
  - Each reader is also a method with the source's loop (`GetBenchmarkData`, `GetSystemInfo`), proved equal to that function.
  - Lemmas state what the readers promise: the keys and values of the map, when a read raises, the core count, and which model name is reported.
- `OptimizedMatrix` (`optimized_matrix.dfy`):
  - `MatrixMultiply` works in place on `array<int>`. It is proved to write the matrix product, defined by `Product`/`Dot`.
  - `RunCheck` is `main` without timing or printing. It is proved to obtain `C[0] == 2 * N`.

Inputs from the environment are parameters:
- `now` is the clock reading.
- The lines of the results file are `None` when the file does not exist.
- The descriptor text is `None` when `/proc/cpuinfo` cannot be opened.
- `parse` stands for Python's `float()`. It returns `None` where `float()` raises `ValueError`.

## Model

| member | source | states |
|---|---|---|
| Server.RouteGet | dashboard/server.py:20-26 | `/api/data` goes to the summary reader and `/api/system` to the descriptor scanner, each exactly for its own path; every other path is served as a static file with that path |
| Server.RunBenchmark | dashboard/server.py:115 | the acknowledgement has status `started` and echoes the requested type, whether or not the script exists or succeeds |
| Server.HandlePost | dashboard/server.py:28-37 | only `/api/run-benchmark` is served, every other path gets 404; a body that is not a JSON object makes the handler raise; an object is acknowledged with status `started` and its `type` member, or `baseline` where it has none |
| Server.FixedOptimizations | dashboard/server.py:68-72 | the optimisation table has three entries ranked 1, 2, 3 in order |
| Server.BenchmarkDataOf | dashboard/server.py:46-74 | with no results file the baseline is empty; every successful read carries the fixed optimisation table and the clock reading |
| Server.GetBenchmarkData | dashboard/server.py:46-74 | the line loop returns exactly what `BenchmarkDataOf` specifies, including the error of the first line that raises |
| Server.LineOutcome | dashboard/server.py:60-65 | what one line does to the baseline, on the text of the line: a line without a colon or `GFLOPS` leaves it unchanged; a blank value between the first and second colons raises; otherwise the trimmed label before the first colon is set to `float()` of the first word after it, or the step raises where `float()` rejects that word |
| Server.ReadLine | dashboard/server.py:60-65 | one loop step, computed with `strip()`, `split(':')`, `split()[0]` and `float()`, has exactly the outcome `LineOutcome` states |
| Server.LineContribution | dashboard/server.py:60-65 | the contribution `AddEntry` gives a classified line has that same outcome |
| Server.LineOutcomeUnique | dashboard/server.py:60-65 | any two results that are both the outcome of the same line are equal |
| Server.OutcomeIsContribution | dashboard/server.py:60-65 | a result is the outcome of a line exactly when it is the contribution of the classified line, which ties the loop to the fold `BaselineFrom` |
| Server.LoopStep | dashboard/server.py:59-65 | a loop step whose outcome is the contribution of line `i` extends the read of the lines before it by that line |
| Server.AddEntry | dashboard/server.py:64-65 | a successful step never removes a label and adds at most one |
| Server.BaselineFrom | dashboard/server.py:59-65 | the fold of the line contributions from an empty baseline; a successful read has no more labels than lines |
| Server.BaselineOf | dashboard/server.py:57-65 | the baseline read from the lines of the file has no more labels than the file has lines |
| Server.BaselineSnoc | dashboard/server.py:59-65 | reading one more line applies its contribution to the result so far, or keeps the earlier error |
| Server.Qualifies | dashboard/server.py:60 | a line is looked at exactly when it holds a colon and `GFLOPS` occurs in it at some position |
| Server.ParseLine | dashboard/server.py:60 | a line is skipped exactly when it lacks a colon or `GFLOPS`; a token found for it is non-empty and contains no whitespace |
| Server.ParseFields | dashboard/server.py:61-64 | a stripped line that holds a colon is never skipped; its token is non-empty and contains no whitespace |
| Server.Segment | dashboard/server.py:61-64 | `parts[1]` of `split(':')`: the text right after the first colon, up to the next colon or the end, with no colon in it |
| Server.ParseFieldsSpec | dashboard/server.py:61-64 | in terms of the text: the label is the trimmed text before the first colon; the token is the first word of the text between the first and second colons; there is no token exactly when that text is blank |
| Server.ParseLineFields | dashboard/server.py:60-64 | the same for a qualifying line, about its stripped form |
| Server.SplitPieces | dashboard/server.py:61-62 | `split(':')` of a text with a colon has at least two pieces: the text before the first colon, then the text up to the second colon |
| Server.Classify | dashboard/server.py:59-60 | the classification of every line of the file, in order |
| Server.MapLinesAppend | dashboard/server.py:59 | classifying two runs of lines one after the other is classifying their concatenation |
| Server.ClassifyAppend | dashboard/server.py:59 | the same for the summary's own classification |
| Server.BaselineFailureSticks | dashboard/server.py:59-65 | once a prefix of the lines raises, the whole read raises with the same error: nothing after the raising line is read |
| Server.BaselineRaises | dashboard/server.py:64-65 | the read raises exactly when some line raises on its own, and then with the error of the first such line |
| Server.AddEntrySuccess | dashboard/server.py:64-65 | a line that does not raise either leaves the map unchanged (a skipped line) or sets its label to the parsed value of its token; a blank value always raises |
| Server.BaselineKeys | dashboard/server.py:65 | after a successful read, a label is a key of the baseline exactly when some line carries it |
| Server.BaselineValues | dashboard/server.py:65 | after a successful read, each label maps to the parsed token of the last line carrying it |
| Server.LastLineWins | dashboard/server.py:65 | a final line overrides any earlier value for its label |
| Server.BaselineIgnoresSkipped | dashboard/server.py:60 | a skipped line anywhere in the file changes nothing |
| Server.BaselineIgnoresUnqualified | dashboard/server.py:60 | inserting a line without a colon or without `GFLOPS` anywhere in the file changes neither the result nor the error |
| Server.WellFormedFields | dashboard/server.py:61-64 | `label: value rest`, with a whitespace-free value and `rest` empty or starting with whitespace, gives the trimmed label and exactly that value |
| Server.TokenOfSegment | dashboard/server.py:64 | the first token of blank padding, a word, and text starting with whitespace is that word |
| Server.WellFormedSegment | dashboard/server.py:61-64 | for `label:` followed by padding, value and rest, the text before the first colon is the label, and the text up to the second colon is the padding, the value and a piece of rest that starts as rest does |
| Server.SegmentAfter | dashboard/server.py:61 | in `label:` followed by further text, the first colon is the one after the label |
| Server.ColonPast | dashboard/server.py:61 | in padding, value and rest, the first colon lies past the value |
| Server.WellFormedLine | dashboard/server.py:60-65 | a `GFLOPS` line whose stripped form is `label: value rest` contributes the trimmed label and exactly that value |
| Server.BlankValueRaises | dashboard/server.py:64 | a `GFLOPS` line whose text after the first colon is blank (up to a second colon) makes the whole read fail |
| Server.IsModelNameLine | dashboard/server.py:87 | `'model name' in line.lower()`; such a line has at least ten characters |
| Server.IsProcessorLine | dashboard/server.py:89 | `line.startswith('processor')`: `processor` occurs at position 0 |
| Server.IsCoreLine | dashboard/server.py:87-90 | the `elif` condition: a line starts with `processor` and is not a model-name line |
| Server.ClassifyCpuLine | dashboard/server.py:87-90 | a line is a model-name line exactly when its lower-cased form contains `model name`; a core line exactly when it starts with `processor` and is not a model-name line; a model-name line has no name exactly when it lacks a colon |
| Server.ClassifyCpu | dashboard/server.py:86 | the classification of every descriptor line, in order |
| Server.ClassifyCpuPrefix | dashboard/server.py:86 | classifying a prefix of the lines gives a prefix of the classification |
| Server.SystemInfoOf | dashboard/server.py:76-98 | the fallback record is exactly `Neoverse System` with 16 cores; a reported record carries the clock reading; an unreadable descriptor gives the fallback |
| Server.GetSystemInfo | dashboard/server.py:76-98 | the scanning loop returns exactly what `SystemInfoOf` specifies, leaving as soon as a model-name line without a colon raises |
| Server.ScanLine | dashboard/server.py:87-90 | one line of the scan: only a model-name line can raise; the core count grows by at most one; a line that is not a model-name line keeps the processor |
| Server.ScanFrom | dashboard/server.py:83-90 | the scan over the classified lines from `Unknown` and no cores; a successful scan counts no more cores than lines |
| Server.ScanCpuInfo | dashboard/server.py:83-90 | the scan over the lines of the descriptor; a successful scan counts no more cores than lines |
| Server.ScanLoopStep | dashboard/server.py:86-90 | a loop step with the effect of classified line `i` extends the scan of the lines before it by that line |
| Server.ScanLoopRaises | dashboard/server.py:86-88 | a line of the loop that raises makes the whole scan raise |
| Server.ScanFailureSticks | dashboard/server.py:86-90 | once a prefix of the lines raises, so does the whole scan |
| Server.ScanStep | dashboard/server.py:86-90 | the scan after one more line is that line's effect on the scan before it |
| Server.ScanFromRaises | dashboard/server.py:87-88 | the classified scan fails exactly when some model-name line has no name |
| Server.ScanRaises | dashboard/server.py:86-88 | the scan raises exactly when some model-name line has no colon |
| Server.FallbackIff | dashboard/server.py:78-98 | a readable descriptor gives the fallback record exactly when one of its lines is a model-name line with no colon |
| Server.CountCoreLines | dashboard/server.py:89-90 | there are no more core lines than lines |
| Server.ScanFromCores | dashboard/server.py:84-90 | the core count of a successful classified scan is the number of core lines |
| Server.CountCoresOfLines | dashboard/server.py:89-90 | counting classified core lines is counting core lines of the text |
| Server.ScanCores | dashboard/server.py:84-90 | after a successful scan the core count is the number of lines that start with `processor` and are not model-name lines, so at most the number of lines |
| Server.CoresBounded | dashboard/server.py:84-95 | a reported record counts exactly those lines of the descriptor text, and no more than its number of lines |
| Server.ScanFromUnknown | dashboard/server.py:83 | a classified scan without model-name lines reports `Unknown` |
| Server.ScanUnknown | dashboard/server.py:83-88 | a descriptor without model-name lines reports the processor as `Unknown` |
| Server.ScanFromLastModel | dashboard/server.py:87-88 | the reported processor is the name of the last model-name line |
| Server.ModelNameOf | dashboard/server.py:88 | `line.split(':')[1].strip()`: the trimmed text between the first and second colons, which holds no colon and is shorter than the line |
| Server.ScanLastModel | dashboard/server.py:86-88 | after a successful scan, the processor is the trimmed text between the first and second colons of the last model-name line |
| PyStr.IsSpace | dashboard/server.py:61-64 | the characters for which `str.isspace()` holds, which `strip()` and `split()` remove and split on: U+0009 to U+000D, U+001C to U+0020, U+0085, U+00A0, U+1680, U+2000 to U+200A, U+2028, U+2029, U+202F, U+205F and U+3000 |
| PyStr.TrimLeft | dashboard/server.py:61-64 | `lstrip()` removes exactly the leading whitespace: a suffix of the input, everything removed is whitespace, and the result starts with non-whitespace |
| PyStr.TrimRight | dashboard/server.py:61-64 | `rstrip()` removes exactly the trailing whitespace |
| PyStr.Strip | dashboard/server.py:61-64 | `strip()` gives text that neither starts nor ends with whitespace, and is empty exactly when the input is all whitespace |
| PyStr.StripKeeps | dashboard/server.py:60-61 | stripping keeps a non-whitespace character such as the colon exactly when the input holds it |
| PyStr.TrimLeftKeeps | dashboard/server.py:60-61 | the same for the leading half of `strip()` |
| PyStr.TrimRightKeeps | dashboard/server.py:60-61 | the same for the trailing half of `strip()` |
| PyStr.StartsWith | dashboard/server.py:89 | `s.startswith(prefix)` holds exactly when `prefix` is no longer than `s` and agrees with it character by character |
| PyStr.Contains | dashboard/server.py:60 | `sub in s`: a prefix occurs in the text, and an occurring `sub` is no longer than the text |
| PyStr.ContainsIff | dashboard/server.py:60 | the substring test `sub in s` holds exactly when `sub` occurs at some position of `s` |
| PyStr.LowerChar | dashboard/server.py:87 | an ASCII capital becomes its small letter; every other character is unchanged |
| PyStr.Lower | dashboard/server.py:87 | `lower()` keeps the length and lower-cases each character |
| PyStr.IndexOf | dashboard/server.py:61 | the position of the first occurrence of a character, or the length when there is none |
| PyStr.FirstAfter | dashboard/server.py:61 | in `a`, then the character, then `t`, with `a` free of that character, the first occurrence is right after `a` |
| PyStr.Split | dashboard/server.py:86-88 | `split(c)` gives at least one piece, and no piece contains `c` |
| PyStr.SplitJoin | dashboard/server.py:86 | joining the pieces of `split(c)` with `c` gives back the input |
| PyStr.JoinSplit | dashboard/server.py:86 | splitting a join of `c`-free pieces gives back the pieces |
| PyStr.SplitOfSeparatorFree | dashboard/server.py:88 | a text without `c` splits into itself alone |
| PyStr.SplitHasTwoPieces | dashboard/server.py:88 | `split(c)` has a second piece exactly when the input contains `c`, which is why `[1]` raises only without a colon |
| PyStr.SplitFields | dashboard/server.py:61-64 | the first piece is the text before the first `c`; the rest are the pieces of the text after it |
| PyStr.Word | dashboard/server.py:64 | the leading run of non-whitespace |
| PyStr.Tokens | dashboard/server.py:64 | `split()` gives non-empty whitespace-free tokens, and none exactly when the input is all whitespace; with `TokensAreWords` the tokens are the successive words |
| PyStr.TokensAreWords | dashboard/server.py:64 | `split()` of a text that is not blank is the first word after its leading whitespace, followed by `split()` of what comes after that word |
| PyStr.FirstToken | dashboard/server.py:64 | the first token of `split()` is the first word after the leading whitespace |
| PyStr.TrimLeftIdle | dashboard/server.py:64 | text that starts with non-whitespace is unchanged by `lstrip()` |
| PyStr.TrimRightIdle | dashboard/server.py:64 | text that ends with non-whitespace is unchanged by `rstrip()` |
| PyStr.TrimLeftPad | dashboard/server.py:64 | `lstrip()` of whitespace padding before a word drops exactly the padding |
| PyStr.WordOfPrefix | dashboard/server.py:64 | the first word of a prefix of `u`, where the rest of `u` is whitespace, ends in `u` at whitespace or at the end |
| PyStr.WordUnique | dashboard/server.py:64 | a whitespace-free prefix that ends at whitespace or at the end is the first word |
| OptimizedMatrix.SizeFor | src/optimized_matrix.c:26-33 | `micro`, `small`, `medium` and `large` select 64, 512, 2048 and 8192; no argument or any other argument selects 512 |
| OptimizedMatrix.SizeFits | src/optimized_matrix.c:26-42 | every selectable side is positive, and `N * N` fits in a 32-bit signed `int` |
| OptimizedMatrix.IndexInRange | src/optimized_matrix.c:12-14 | `i * N + k`, `k * N + j` and `i * N + j` with indices below `N` lie inside the buffer |
| OptimizedMatrix.Product | src/optimized_matrix.c:7-17 | the product of two `N x N` matrices has `N * N` cells |
| OptimizedMatrix.ProductCell | src/optimized_matrix.c:8-15 | cell `(i, j)` of the product, at `i * N + j`, is the full dot product of row `i` of `A` with column `j` of `B` (the helper lemmas `RowCol`, `NoMultipleBetween` and `RowInRange` recover the row and column of a flat index for the definition of `Product`; the C code itself never divides) |
| OptimizedMatrix.Dot | src/optimized_matrix.c:10-13 | the sum of the first `k` products of row `i` of `A` with column `j` of `B`, the value `sum` holds after `k` inner iterations; its values are stated by `RowTimesColumn`, `ProductCell` and `DotOfConstants` |
| OptimizedMatrix.RowTimesColumn | src/optimized_matrix.c:10-13 | the inner loop's `sum` is the dot product of row `i` with column `j` |
| OptimizedMatrix.MatrixMultiply | src/optimized_matrix.c:7-17 | `C` becomes the matrix product of `A` and `B`, whatever it held before; `A` and `B` are unchanged |
| OptimizedMatrix.Initialize | src/optimized_matrix.c:45-49 | every cell of `A` is 1, every cell of `B` is 2 and every cell of `C` is 0 |
| OptimizedMatrix.DotOfConstants | src/optimized_matrix.c:10-13 | with all ones times all twos, `k` terms of a dot product add up to `2 * k` |
| OptimizedMatrix.ProductOfConstants | src/optimized_matrix.c:45-64 | every cell of the product of the initialised matrices is `2 * N`, the value the result check expects |
| OptimizedMatrix.RunCheck | src/optimized_matrix.c:25-64 | after the warm-up and the timed multiplication, `C[0]` equals the expected `2 * N` for the selected side |

## Left out

- HTTP serving, socket binding, threads, the subprocess that runs the benchmark script, and the static file server are not modelled. Routing ends in a value (`StaticFileRoute`, `NotFound(404)`) and `send_api_response` is not modelled.
- `run_benchmark` (dashboard/server.py:100-115) is modelled only by its return value. The background script launch is fire-and-forget and does not change the acknowledgement.
- `json.loads`, `Content-Length` and UTF-8 decoding are abstracted as `PostBody`: either an object with an optional string `type`, or `Malformed`, on which the handler raises. A `type` member that is not a string is not modelled.
- HandlePost: a request body that is not JSON makes `do_POST` raise at dashboard/server.py:32; it is not acknowledged, and the model returns `HandlerRaised` for it.
- `time.time()` is the parameter `now`. The file system is reduced to an optional list of lines for the summary and an optional text for the CPU descriptor.
- `float()` is the parameter `parse`. Python's float grammar and rounding are not modelled, and GFLOPS values are `real`.
- The lines of the summary are taken as the file object yields them, including any line terminator. Only the line's characters enter the model; how the file is broken into lines is not modelled.
- Lower: only ASCII capitals are lowered. Python lowers all of Unicode. This does not change the `'model name' in line.lower()` test, because no non-ASCII character lowers to one of the letters of `model name` or to a space.
- ParseFieldsSpec: the value token comes from `parts[1]` only, the text between the first and second colons, so a value containing a further colon is cut at it.
- BaselineRaises: not every malformed qualifying line is skipped: a blank value raises `IndexError` and a non-numeric token raises `ValueError`. Either stops `get_benchmark_data`; the model returns `Failure(NoValueToken)` or `Failure(NotANumber(token))`.
- ScanLastModel: the code overwrites `processor` on every model-name line, so the last one wins.
- `print`, `main`, the port constant and `KeyboardInterrupt` handling of the server are not modelled.
- MatrixMultiply: elements are unbounded integers rather than `float`, so the rounding of single-precision sums is not modelled. For the initialised ones and twos, every partial sum (at most 2 * 8192) is exact in `float` too.
- MatrixMultiply requires `C` to be a different buffer from `A` and `B`, as `main` allocates three buffers. Aliased calls are not modelled.
- `printf`, `malloc`/`free`, `clock_gettime`, the timing and the GFLOPS and memory arithmetic of `main` are not modelled. `RunCheck` returns the two numbers that the result-check line prints.
