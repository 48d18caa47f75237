# hashcat benchmark driver, modelled in Dafny

`benchmark.py` runs `hashcat -b -m <mode> --force` three times for each
selected hash algorithm. Each run becomes one record `{name, mode,
speed_raw, speed_hps, duration}`. The records are read like this:

- The first line of hashcat's standard output that contains `Speed.#` goes
  to `parse_speed`.
- That function takes the text between the line's first and second colon
  (or its end), strips it and reads its first two words as a number and a
  unit (`H/s` … `TH/s`).
- The number times the unit's multiplier, rounded to two decimals, is the
  speed in hashes per second.
- A run whose hashcat call raises (the program is missing, the 90-second
  timeout expires, …) gives `("Error", None, None)`.
- A run whose hashcat call completes has a duration, whatever the exit
  code and whether or not a speed line was found (unless one of the two
  progress messages printed inside the `try` fails; see "Left out").

Before running anything, the main block asks which algorithms to
benchmark. A blank answer keeps them all. Otherwise the answer is read as
comma-separated 1-based numbers, which become a set of 0-based positions.
The list is filtered in its own order, so repeated numbers collapse, and
`0`, negative numbers and numbers past the end select nothing.

The model has six modules:

- `Wrappers`: `Option`.
- `Text`: the parts of Python's `str` that the program uses.
  - `strip()`, with Python's `isspace` set.
  - `split(sep)` and `split()`.
  - `splitlines()`, with Python's line-break set; `\r\n` is one break.
  - Substring search.
- `Numerals`: `int(t)` and `str(n)` for integers.
- `SpeedParser`: `parse_speed` and `convert_to_hps`.
- `Benchmark`:
  - `run_benchmark`, as the method `RunBenchmark` with its loop.
  - The loop that concatenates the runs of every algorithm, as the method
    `RunAll`.
  - Their specification functions `Trial`, `Runs` and `Suite`.
- `Selection`: the choice of algorithms (`Select`) and the whole main block
  after loading (`Session`).

Abstract parts of the model:

- **Floats.** `float(s)` and `round(x, 2)` are the two fields of a
  `FloatOps` value. The model relies on nothing about them.
- **The hashcat call.** It is a `Tool`: a function from the command line,
  the timeout and the run number to either
  - `Some(Invocation(stdout, exitCode, elapsed))`, or
  - `None`, when `subprocess.run` raised.

  The clock reading is the elapsed time inside the invocation.

`str.split(":")` splits at every colon, so `parse_speed` reads the text
between the first and the second colon of the line, not the rest of the
line. The model follows the code. On a real hashcat line such as
`Speed.#1.........:  1234.5 MH/s (12.34ms) @ Accel:128 Loops:1024`, the
reported text is therefore `1234.5 MH/s (12.34ms) @ Accel`. The number and
the unit are still read correctly (`SpeedParser.ReadsBetweenFirstTwoColons`,
`SpeedParser.ReadsNumberAndUnit`).

## Model

| member | source | states |
|---|---|---|
| SpeedParser.ParseSpeed | benchmark.py:20-45 | A missing or empty line, or a line with no colon, gives `("N/A", None)`. A speed is present only if the line exists and has a colon. |
| SpeedParser.ReadsBetweenFirstTwoColons | benchmark.py:24-28 | For a line `tag:mid` or `tag:mid:rest`, the reported text is `mid` stripped, and the value depends only on the words of `mid`. `tag` and everything from the second colon on are ignored. |
| SpeedParser.ReadsNumberAndUnit | benchmark.py:29-45 | If `mid` reads `number unit …` with any whitespace around, the value is absent when `float(number)` fails. Otherwise it is `round(float(number) * multiplier(unit), 2)`. |
| SpeedParser.ValueOfPair | benchmark.py:29-45 | For the tokens `[number, unit, …]`, the value is `round(float(number) * multiplier(unit), 2)`, or absent when `float(number)` fails. |
| SpeedParser.ValueOfFirstTwo | benchmark.py:30 | Only the first two tokens of the reported text affect the value. |
| SpeedParser.SpeedUnitTable | benchmark.py:36-44 | The multipliers are 1e3, 1e6, 1e9 and 1e12 for kH/s, MH/s, GH/s and TH/s, and 1 for `H/s` and for any unknown unit. |
| SpeedParser.ValueOf | benchmark.py:29-33 | Fewer than two tokens give no value. A value exists exactly when there are at least two tokens and `float` accepts the first one. |
| SpeedParser.ConvertToHps | benchmark.py:48-50 | `convert_to_hps` scales exactly as `parse_speed` does for every unit except `TH/s`. A `TH/s` value is only rounded, because that table lacks `TH/s`. |
| Text.StripPadded | benchmark.py:28 | `strip()` removes exactly the surrounding whitespace: a body that does not start or end with whitespace comes back unchanged from any blank padding. |
| Text.TrimStart | benchmark.py:28 | The result is a suffix of the input, and it does not start with whitespace. |
| Text.TrimStartSpaces | benchmark.py:28 | What `lstrip` drops from the front is all whitespace. |
| Text.TrimEnd | benchmark.py:28 | The result is a prefix of the input, and it does not end with whitespace. |
| Text.TrimEndSpaces | benchmark.py:28 | What `rstrip` drops from the back is all whitespace. |
| Text.StripBlankAround | benchmark.py:102 | Blank text on either side of a string does not change what `strip()` leaves. |
| Text.StripParts | benchmark.py:28 | Every string is its `strip()` with blank text on each side. |
| Text.SplitHasNoSep | benchmark.py:24 | No part of `s.split(c)` contains `c`. |
| Text.JoinSplit | benchmark.py:24 | Joining the parts of `s.split(c)` with `c` gives back `s`: splitting loses no text. |
| Text.SplitJoin | benchmark.py:102 | Splitting parts that contain no `c`, after joining them with `c`, gives back the parts. |
| Text.SplitWhole | benchmark.py:102 | A string without `c` splits into itself alone. |
| Text.SplitPrepend | benchmark.py:102 | Text without `c` in front of a string becomes part of its first part; the other parts are unchanged. |
| Text.SplitAppend | benchmark.py:102 | Text without `c` behind a string becomes part of its last part; the other parts are unchanged. |
| Text.SplitAround | benchmark.py:99-102 | Blank text around a string leaves the number of its parts and every stripped part unchanged, for a separator that is not whitespace. |
| Text.SplitStrip | benchmark.py:99-102 | Stripping a string before splitting it at a non-whitespace separator leaves the number of parts and every stripped part unchanged. |
| Text.SplitCount | benchmark.py:24-26 | `s.split(c)` has at least two parts exactly when `c` occurs in `s`. |
| Text.SplitSecond | benchmark.py:24-28 | In `tag:mid` or `tag:mid:rest`, the second part of the split at `:` is `mid`. |
| Text.WordsAreWords | benchmark.py:30 | Every token of `split()` is nonempty and has no whitespace. |
| Text.WordsBlank | benchmark.py:30 | A blank string has no tokens. |
| Text.WordsCons | benchmark.py:30 | Leading whitespace, a word and then whitespace or the end give that word, followed by the tokens of the rest. |
| Text.WordsPair | benchmark.py:30 | Whitespace, a word, whitespace and a word, then whitespace or the end, give those two words first. |
| Text.WordsStrip | benchmark.py:28-30 | Stripping does not change the tokens of `split()`. |
| Text.LinesHaveNoBreaks | benchmark.py:68 | No line from `splitlines()` contains a line-break character. |
| Text.LinesUnlines | benchmark.py:68 | Break-free lines, each ended by `\n`, split back into the same lines. |
| Numerals.IntRoundTrip | benchmark.py:60 | `str(mode)` is an integer token, and `int(str(mode)) == mode`. |
| Benchmark.Command | benchmark.py:59-64 | The command line is `hashcat -b -m <mode> --force`, and its fourth word reads back as `mode`. |
| Benchmark.FirstContaining | benchmark.py:68 | The result is `None` exactly when no line contains the marker. Otherwise it is one of the lines and contains the marker. |
| Benchmark.FirstContainingAt | benchmark.py:68 | The first line with the marker is the one picked, whatever later lines hold. |
| Benchmark.Trial | benchmark.py:57-81 | A record keeps the algorithm's name and mode. The duration is absent exactly when the hashcat call raised. A raised call gives `"Error"` with no speed, and a speed exists only for a completed run that has a speed line. |
| Benchmark.ExitCodeIgnored | benchmark.py:59-69 | Two completed runs that differ only in exit code give the same record. |
| Benchmark.ReadsFirstSpeedLine | benchmark.py:65-69 | For any output whose `splitlines()` are `lines`, if line `k` is the first with `Speed.#`, the record holds `parse_speed(line k)` and a duration of `round(elapsed, 2)`. |
| Benchmark.NoSpeedLine | benchmark.py:65-69 | A completed run with no speed line gives `"N/A"`, no speed and still a duration. |
| Benchmark.RunBenchmark | benchmark.py:52-82 | Exactly `REPEATS` records. Record `i` is the record of the `i`-th hashcat call for this mode, with a 90-second timeout. |
| Benchmark.RunAll | benchmark.py:105-107 | The collected records are the session `Suite(algos)`, and there are `len(algos) * REPEATS` of them. |
| Benchmark.SuiteLength | benchmark.py:105-107 | A session has `len(algos) * REPEATS` records. |
| Benchmark.SuiteAt | benchmark.py:105-107 | Record `a * REPEATS + i` of a session is run `i` of algorithm `a`, so records are grouped by algorithm in list order. |
| Selection.Values | benchmark.py:102 | There is one number per comma-separated entry of the answer. |
| Selection.Named | benchmark.py:102 | Position `i` is named exactly when the number `i + 1` was typed. |
| Selection.Pick | benchmark.py:103 | The filtered list is no longer than the list. |
| Selection.Select | benchmark.py:99-103 | The chosen algorithms are never more than the listed ones. |
| Selection.Session | benchmark.py:99-107 | The records are the session over `Select(algos, answer)`, with `REPEATS` records per chosen algorithm. |
| Selection.PositionsSpec | benchmark.py:103 | The kept positions are in range and strictly increasing (list order, no repeats). They are exactly the in-range members of the index set. |
| Selection.PickPositions | benchmark.py:103 | The filter returns the elements at the kept positions, in that order. |
| Selection.PickInRange | benchmark.py:103 | Index sets that agree on the list's positions give the same result: out-of-range and negative indices do not matter. |
| Selection.PickAll | benchmark.py:103 | Naming every position keeps the whole list. |
| Selection.PickNone | benchmark.py:103 | Naming no position of the list keeps nothing. |
| Selection.EmptyChoiceRejected | benchmark.py:100-102 | The empty string is not a list of numbers, so an answer of numbers never takes the "all algorithms" branch. |
| Selection.SameEntries | benchmark.py:102 | Answers whose entries strip to the same texts are both lists of numbers or both not, and then read as the same numbers. |
| Selection.StripAnswer | benchmark.py:99-102 | Stripping the whole answer first changes neither whether it is a list of numbers nor the numbers read. An answer of numbers is never blank. |
| Selection.SelectByValues | benchmark.py:99-103 | Any answer of numbers, with any signs and spacing, is accepted and chooses the algorithms at positions `v - 1` for the numbers `v` it lists. |
| Selection.BlankKeepsAll | benchmark.py:99-101 | A blank answer keeps every algorithm. |
| Selection.CoveringAllKeepsAll | benchmark.py:99-103 | An answer listing every number from 1 to `len(algos)`, in any order and with any repeats, keeps every algorithm. |
| Selection.SameNumbersSameChoice | benchmark.py:99-103 | Two answers listing the same numbers, in another order, with repeats or with other spacing, choose the same algorithms. |
| Selection.OutOfRangeNumbersChooseNothing | benchmark.py:99-103 | An answer whose numbers are all below 1 (zero or negative) or above `len(algos)` chooses nothing. |
| Selection.NumeralShape | benchmark.py:102 | `str(v)` is nonempty, has no comma, and has no whitespace at either end. |
| Selection.EntryReadsBack | benchmark.py:102 | An entry typed as `str(v)` with blank text around it has no comma. Stripped, it is a token `int` accepts, and it reads back as `v`. |
| Selection.ValuesOfEntries | benchmark.py:102 | An answer whose stripped entries are integer tokens reading as `vs` is a list of numbers, and its numbers are `vs`. |
| Selection.TypedReadsBack | benchmark.py:102 | An answer typed as entries `str(v)` with blank text around each, joined by commas, is a list of numbers and reads back as the typed numbers in order. |
| Selection.SelectTyped | benchmark.py:99-103 | Such a typed answer chooses the algorithms at positions `v - 1` for the typed numbers `v`, whatever their signs and spacing. |

## Left out

- `load_algorithms` (YAML file, `sys.exit` when it is missing), `write_csv`, the `print` calls and `input()`. The algorithm list and the typed answer are parameters, and the records are the result.
- `plot_results.py` (pandas grouping and float means) and `config_loader.py` are not part of this model.
- Python's `float()` and `round()`, and IEEE-754 arithmetic in general, are abstract (`FloatOps`). Multipliers and values are `real`.
- The hashcat process, `subprocess.run`, its timeout and the clock are the abstract `Tool`. Its answer depends only on the command line, the timeout and the run number, so the model does not capture state carried between calls.
- Exceptions that are not `Exception` (such as `KeyboardInterrupt`) are not modelled. They would abort the whole program.
- Selection.WellFormedChoice: an answer whose entries `int()` rejects makes the program crash with `ValueError`, so the model requires entries that `int()` accepts. This model of `int()` takes an optional sign and ASCII digits. It does not cover underscores between digits or non-ASCII decimal digits, which Python also accepts.
- Text models only what the program uses from `str`: `strip()`, `split(sep)`, `split()`, `splitlines()` and `in`. It has no Unicode normalisation.
- SpeedParser.ParseSpeed: its own contract states only the `"N/A"` cases. Its full behaviour is stated by `ReadsBetweenFirstTwoColons` and `ReadsNumberAndUnit`.
- Selection.Pick: its own contract bounds only the length. Its contents are stated by `PickPositions` with `PositionsSpec`.
- Benchmark.Trial: the two progress messages printed inside the `try` (lines 67 and 70) are treated as unable to fail. In Python a failing `print` (for instance a `UnicodeEncodeError` on the console) is caught by the same `except`, so a completed run would become an `("Error", None, None)` record. Printing is not part of this model.
