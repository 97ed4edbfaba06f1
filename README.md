# GC content analyzer — a Dafny model

This project models `tutorials/gc_content_analyzer.py`, a small interactive
tool that reports the GC content of DNA sequences typed one per line. It
has two parts:

- **The GC calculator** (`calculate_gc_content`). It upper-cases a sequence,
  counts its `G` and `C` characters, and returns `count / length * 100`. For
  the empty sequence it returns 0 instead of dividing by zero. It does not
  check the alphabet: any other character adds to the length but not to the
  count.
- **The read-evaluate-print loop** (`main`). Each line is stripped of
  surrounding whitespace and upper-cased. A line equal to `EXIT` ends the
  loop. This check comes before validation, even though `EXIT` holds letters
  outside the alphabet. A line with any character outside {A, C, G, T} is
  reported as invalid and the loop goes on. Every other line, the empty line
  included, is passed to the calculator and its percentage is reported.

Modules, one per concern:

- `AsciiText` (`ascii_text.dfy`): Python's `str.upper()`, `str.lstrip()`,
  `str.rstrip()` and `str.strip()` as the script uses them, over ASCII.
  Whitespace is exactly what `str.isspace()` accepts among ASCII characters:
  codes 9–13 and 28–32.
- `GcCalculator` (`gc_content.dfy`): `Count`, `GcCount`, `GcContent`. The
  percentage is an exact `real`.
- `AnalyzerLoop` (`analyzer_loop.dfy`): the per-line decision `Classify`,
  which returns an `Outcome` (`Exit | Invalid | Gc(percent)`). `Session` is
  the specification of the whole loop. `RunSession` is the loop itself: a
  method that walks a sequence of input lines, appends one outcome per line
  read, and stops right after the first exit line.

The input is a given `seq<string>` and the printed reports are a
`seq<Outcome>`. The pure parts are functions. The loop is a `while` loop,
proved against `Session`.

Where the code and its description differ, the model follows the code. For
the empty sequence, `calculate_gc_content` returns the integer `0`, not a
float. The model returns the real `0.0`. The two print the same way.

## Model

| member | source | states |
|---|---|---|
| `AsciiText.UpperChar` | tutorials/gc_content_analyzer.py:7 | upper-casing one ASCII character yields no lower-case letter, maps `a`..`z` to `A`..`Z`, leaves every other character alone, and keeps whitespace whitespace |
| `AsciiText.Upper` | tutorials/gc_content_analyzer.py:7 | `upper()` keeps the length and leaves no lower-case letter |
| `AsciiText.UpperFixesUpperCase` | tutorials/gc_content_analyzer.py:7 | `upper()` changes nothing in a string without lower-case letters |
| `AsciiText.UpperIdempotent` | tutorials/gc_content_analyzer.py:7 | upper-casing twice is upper-casing once (the loop upper-cases before the calculator upper-cases again) |
| `AsciiText.UpperKeepsTrimmed` | tutorials/gc_content_analyzer.py:22 | upper-casing a stripped line leaves it stripped |
| `AsciiText.TrimStartShape` | tutorials/gc_content_analyzer.py:22 | the leading half of `strip()` keeps a suffix, drops only whitespace, and leaves no leading whitespace |
| `AsciiText.TrimEndShape` | tutorials/gc_content_analyzer.py:22 | the trailing half of `strip()` keeps a prefix, drops only whitespace, and leaves no trailing whitespace |
| `AsciiText.StripMargins` | tutorials/gc_content_analyzer.py:22 | `strip()` returns the middle slice between two all-whitespace margins, with no whitespace at either end |
| `AsciiText.TrimStartPadded` | tutorials/gc_content_analyzer.py:22 | stripping leading whitespace from `pre + rest` gives exactly `rest` |
| `AsciiText.TrimEndPadded` | tutorials/gc_content_analyzer.py:22 | stripping trailing whitespace from `rest + post` gives exactly `rest` |
| `AsciiText.StripPadded` | tutorials/gc_content_analyzer.py:22 | `strip()` of `pre + w + post` is `w` when the margins are whitespace and `w` has none at its ends; an all-whitespace line strips to "" |
| `AsciiText.StripTrimmed` | tutorials/gc_content_analyzer.py:22 | a string with no whitespace at its ends strips to itself |
| `GcCalculator.Count` | tutorials/gc_content_analyzer.py:8 | `count(c)` never exceeds the length |
| `GcCalculator.CountPairBound` | tutorials/gc_content_analyzer.py:8-10 | `count('G') + count('C')` is at most the length; it equals the length exactly when every character is G or C, and is 0 exactly when none is |
| `GcCalculator.CountIsMultiplicity` | tutorials/gc_content_analyzer.py:8 | `count(c)` equals the multiplicity of `c` in the multiset of characters |
| `GcCalculator.CountUpper` | tutorials/gc_content_analyzer.py:7-8 | counting a letter after upper-casing counts both of its cases in the original |
| `GcCalculator.GcCount` | tutorials/gc_content_analyzer.py:7-8 | the G+C count never exceeds the sequence length |
| `GcCalculator.GcCountCaseInsensitive` | tutorials/gc_content_analyzer.py:7-8 | the G+C count is the number of `G`, `g`, `C`, `c` in the original sequence |
| `GcCalculator.GcContent` | tutorials/gc_content_analyzer.py:3-11 | the result always lies in [0, 100]; the empty sequence gives 0, with no division by zero |
| `GcCalculator.PercentBounds` | tutorials/gc_content_analyzer.py:10 | `(part / whole) * 100` times `whole` is `100 * part`; it lies in [0, 100] when `part <= whole`; it is 100 exactly when `part == whole` and 0 exactly when `part == 0` |
| `GcCalculator.GcContentFormula` | tutorials/gc_content_analyzer.py:8-10 | for a non-empty sequence, result × length = 100 × (number of G/C bases in either case) |
| `GcCalculator.GcContentOfUpper` | tutorials/gc_content_analyzer.py:7 | the result for `upper(s)` is the result for `s` |
| `GcCalculator.GcContentIgnoresCase` | tutorials/gc_content_analyzer.py:7 | two sequences equal up to case have the same GC content |
| `GcCalculator.GcCountAll` | tutorials/gc_content_analyzer.py:8 | the G+C count is the full length exactly for all-G/C input and 0 exactly when there is no G/C base |
| `GcCalculator.GcContentIsHundred` | tutorials/gc_content_analyzer.py:8-10 | the result is 100 exactly for a non-empty sequence of only G/C bases (either case) |
| `GcCalculator.GcContentIsZero` | tutorials/gc_content_analyzer.py:8-10 | the result is 0 exactly when no character is a G/C base, the empty sequence included |
| `GcCalculator.AllGcExample` | tutorials/gc_content_analyzer.py:3-11 | `"GCGC"` gives 100 |
| `GcCalculator.AllAtExample` | tutorials/gc_content_analyzer.py:3-11 | `"atat"` gives 0 |
| `GcCalculator.HalfExample` | tutorials/gc_content_analyzer.py:3-11 | `"ACGT"` gives 50 |
| `AnalyzerLoop.NormalizeShape` | tutorials/gc_content_analyzer.py:22 | a normalised line has no whitespace at either end and no lower-case letter |
| `AnalyzerLoop.NormalizeFixesNormal` | tutorials/gc_content_analyzer.py:22 | a line that is already stripped and upper-case normalises to itself |
| `AnalyzerLoop.NormalizeIdempotent` | tutorials/gc_content_analyzer.py:22 | normalising twice is normalising once |
| `AnalyzerLoop.ClassifyDecision` | tutorials/gc_content_analyzer.py:22-30 | a line exits exactly when it normalises to `EXIT`; it is invalid exactly when it does not and has a character outside {A, C, G, T}; otherwise it reports the GC content of the stripped line, whatever its case, and that value lies in [0, 100] |
| `AnalyzerLoop.ExitPrecedesValidation` | tutorials/gc_content_analyzer.py:23-28 | every exit line would fail the alphabet check, so only the order of the checks lets it end the loop |
| `AnalyzerLoop.PaddedExit` | tutorials/gc_content_analyzer.py:22-25 | any casing of `exit`, with any surrounding whitespace, ends the loop |
| `AnalyzerLoop.ExitLine` | tutorials/gc_content_analyzer.py:22-25 | a line ends the loop if and only if it is a casing of `exit` between two whitespace margins |
| `AnalyzerLoop.BlankLine` | tutorials/gc_content_analyzer.py:22-30 | a blank line passes validation and reports 0 |
| `AnalyzerLoop.InvalidLine` | tutorials/gc_content_analyzer.py:26-28 | a non-whitespace character outside {A, C, G, T} in either case makes a non-exit line invalid |
| `AnalyzerLoop.DnaLineReportsGc` | tutorials/gc_content_analyzer.py:26-30 | a stripped line of A/C/G/T letters in either case reports its GC content |
| `AnalyzerLoop.TakeThroughExit` | tutorials/gc_content_analyzer.py:21-25 | the kept outcomes are a prefix of the input; no `Exit` comes before the last; anything dropped comes after an `Exit` |
| `AnalyzerLoop.Session` | tutorials/gc_content_analyzer.py:21-30 | one outcome per line read, each the line's classification; no exit before the last outcome; fewer outcomes than lines only when the last one is `Exit` |
| `AnalyzerLoop.SessionDetermined` | tutorials/gc_content_analyzer.py:21-30 | any outcome sequence with those four properties is the session's |
| `AnalyzerLoop.SessionStopsAtExit` | tutorials/gc_content_analyzer.py:23-25 | once a line exits, lines appended after it change nothing |
| `AnalyzerLoop.ExitEndsSession` | tutorials/gc_content_analyzer.py:21-25 | whatever non-exit lines came before, an exit line ends the session with `Exit`, one outcome per line |
| `AnalyzerLoop.SessionExtend` | tutorials/gc_content_analyzer.py:21-30 | before any exit, reading one more line adds exactly that line's outcome |
| `AnalyzerLoop.RunSession` | tutorials/gc_content_analyzer.py:21-30 | the loop's outputs are `Session(lines)`; the number of outcomes equals the number of lines read; it stops early only right after an `Exit` |
| `AnalyzerLoop.AllGcLine` | tutorials/gc_content_analyzer.py:22-30 | the line `GCGC` reports 100 |
| `AnalyzerLoop.AllAtLine` | tutorials/gc_content_analyzer.py:22-30 | the line `atat` reports 0 |
| `AnalyzerLoop.HalfLine` | tutorials/gc_content_analyzer.py:22-30 | the line `ACGT` reports 50 |
| `AnalyzerLoop.ExitAndInvalidExamples` | tutorials/gc_content_analyzer.py:22-28 | `  exit  ` exits; `ACGX`, `ACGTN` and `xyz` are invalid |

## Left out

- Floating point: the percentage is an exact real. The model does not
  capture binary rounding of `gc_count / total_length`, or the two-decimal
  `:.2f` formatting of the report.
- Console I/O: the banner, the prompt, the goodbye message and the report
  lines are not modelled. The input is a given sequence of lines. The
  output is the sequence of outcomes.
- End of input: `input()` raises at end of input, and the script does not
  handle it. The model has a finite sequence of lines, and `RunSession`
  simply returns when the lines run out without an exit line.
- Unicode: `upper()` and `strip()` are modelled on ASCII only. A non-ASCII
  character is never whitespace and upper-cases to itself. Python would strip
  the Unicode spaces and case-map the non-ASCII letters. Some of those
  mappings change the length (`ß` becomes `SS`).
- The `__main__` entry point (lines 32-33) only calls `main`.
