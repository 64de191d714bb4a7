# verify_jars in Dafny

`omero/verify_jars.py` checks whether the jars in one or more directories are
signed. For each jar it runs `jarsigner -verify` and reads the printed text
line by line. Each recognised line sets one field of a `Status` record. The
script can print each status as one line, and it always prints a summary that
counts the flags over all jars.

This project models the pure core of that script and proves what it does:

- `PyStr.dfy`: the Python string operations the core relies on. It covers
  `str.strip()` over Python 2's whitespace set, `str.split('\n')` with its
  inverse `Join`, `startswith`, and the `%d` rendering of natural numbers
  together with a reader for it.
- `JarStatus.dfy`: the `Status` record, with one `Option<bool>` per
  tri-state field, and `Status.__str__`. `Str` is a method that builds the
  string by appending, as the source does. `Render` is its specification, and
  `ReadRendering` reads a rendering back.
- `JarsignerParse.dfy`: `parse_jarsigner_verify`. The source's `if/elif`
  chain becomes a table of eight rules, one per diagnostic, kept in the
  source's order. `Classify`, `Apply` and `Run` specify one line, one turn of
  the loop, and the whole loop. `HandleLine` and `ParseJarsignerVerify` are
  the imperative loop body and loop, proved equal to that specification.
- `ParseFacts.dfy`: what the parser guarantees. It states when it succeeds,
  what the resulting fields are, why it fails, which lines are inert, and
  worked examples.
- `StatusSummary.dfy`: `summarise_statuses`. It is a method with six
  counters, proved equal to `SummaryLine(Tally(...))`. Beside it are lemmas
  on counting, on order independence and on reading the summary back.
- `CommandLine.dfy`: the argument checks at the start of `main`.
- `Wrappers.dfy`: `Option` and `Result`.

## Model

| member | source | states |
|---|---|---|
| PyStr.TrimStartShape | omero/verify_jars.py:58 | `strip()`'s left half removes only whitespace from the front and leaves a suffix that is empty or starts with a non-space |
| PyStr.TrimEndShape | omero/verify_jars.py:58 | `strip()`'s right half removes only whitespace from the back and leaves a prefix that is empty or ends with a non-space |
| PyStr.StripOf | omero/verify_jars.py:58 | stripping whitespace-only margins off a trimmed text gives back exactly that text |
| PyStr.StripParts | omero/verify_jars.py:58 | a stripped line is trimmed, and it is a slice of the line with only whitespace on either side |
| PyStr.StripEmptyIff | omero/verify_jars.py:58-60 | a line strips to the empty string exactly when it is all whitespace, which is when the loop skips it |
| PyStr.StripIdempotent | omero/verify_jars.py:58 | stripping twice is the same as stripping once |
| PyStr.Split | omero/verify_jars.py:56 | `out.split('\n')` gives at least one piece, no piece contains a newline, and joining the pieces with newlines gives `out` back |
| PyStr.SplitJoin | omero/verify_jars.py:56 | splitting the newline-join of newline-free pieces gives those pieces back, so split and join are inverse |
| PyStr.SplitAfterPiece | omero/verify_jars.py:56 | splitting a newline-free text followed by more text extends the first piece of the rest |
| PyStr.Decimal | omero/verify_jars.py:150-153 | `%d` of a count is a non-empty string of digits, with no leading zero unless the count is zero |
| PyStr.DecimalValue | omero/verify_jars.py:150-153 | the digits `%d` writes have the value of the count written |
| PyStr.ReadDecimal | omero/verify_jars.py:150-153 | reading digits from `%d` of `n` followed by a non-digit gives `n` and the rest of the text |
| JarStatus.Status.Set | omero/verify_jars.py:61-84 | an assignment `s.<field> = v` gives that field `v` and keeps the name and every other field |
| JarStatus.NewStatus | omero/verify_jars.py:29-36 | a new Status carries the jar name, and all six fields are unset (`None`) |
| JarStatus.Str | omero/verify_jars.py:38-50 | `__str__`, appending as the source does, yields `Render(s)`: the name, a space, Signed or Unsigned, then each truthy flag's word in the fixed order |
| JarStatus.WordsInOrder | omero/verify_jars.py:40-49 | the flag words come in the order warning, unknown-cert, no-timestamp, no-manifest, expire-soon, each present only when its flag is truthy |
| JarStatus.RenderUnflagged | omero/verify_jars.py:39 | with no truthy flag the rendering is just the name and the verdict |
| JarStatus.UnsetRendersUnsigned | omero/verify_jars.py:39 | an unset `verified` renders exactly as `False` does, that is, as `Unsigned` |
| JarStatus.WordsIgnoreVerdict | omero/verify_jars.py:40-49 | the flag words do not depend on `verified` |
| JarStatus.WordsDiffer | omero/verify_jars.py:40-49 | no flag word is a prefix of text that starts with a different flag word |
| JarStatus.ReadWordsOfWords | omero/verify_jars.py:40-49 | reading the flag words back recovers exactly the set of truthy flags |
| JarStatus.RenderReadsBack | omero/verify_jars.py:38-50 | the rendering can be read back into the verdict and the set of truthy flags, so it loses nothing that it shows |
| JarsignerParse.ClassifyInSourceOrder | omero/verify_jars.py:59-89 | the rule table classifies a stripped line exactly as the source's `if/elif` chain does, with the same literals, the same exact-versus-prefix tests and the same order |
| JarsignerParse.RulesExclusive | omero/verify_jars.py:61-87 | no line matches two of the eight diagnostics, so the order of the chain never decides between them |
| JarsignerParse.ClassifyByRule | omero/verify_jars.py:61-87 | a line that matches a diagnostic is classified as that diagnostic |
| JarsignerParse.UnrecognisedIffNoRule | omero/verify_jars.py:88-89 | a line reaches the final `else` exactly when it is not blank and matches no diagnostic |
| JarsignerParse.HandleLine | omero/verify_jars.py:58-89 | one turn of the loop skips a blank or Re-run line, sets the matched field if it is unset, and fails on a set field or an unrecognised line |
| JarsignerParse.ParseJarsignerVerify | omero/verify_jars.py:53-91 | the loop over the split lines returns the status, or stops at the first failing line with the error that line causes, as `Parse` specifies |
| JarsignerParse.ParseStopsWith | omero/verify_jars.py:88-89 | when the loop fails at a line, the whole parse fails with that line's error, and `Unexpected` carries the jar name and all the lines |
| ParseFacts.RunSucceeds | omero/verify_jars.py:57-91 | the loop finishes exactly when every line is recognised and no field is assigned more often than its starting state allows |
| ParseFacts.RunValue | omero/verify_jars.py:57-91 | after a finished loop each field holds the value of the line that assigned it, or keeps its old value if no line did |
| ParseFacts.RunFails | omero/verify_jars.py:61-89 | the loop fails on an unrecognised line only if some line is unrecognised, and on a field only if that field is assigned twice |
| ParseFacts.RunAppend | omero/verify_jars.py:57 | running the loop over two runs of lines is running it over the first and then over the second |
| ParseFacts.InertLine | omero/verify_jars.py:56-87 | inserting a whitespace-only line or a Re-run line anywhere in the output changes neither the returned Status nor the fault the loop stops with (the `Unexpected` error still lists every line, blank ones included) |
| ParseFacts.SurroundingSpaceIgnored | omero/verify_jars.py:58 | whitespace around a line does not change how it is classified |
| ParseFacts.DiagnosticSetsItsField | omero/verify_jars.py:61-84 | each of the seven setting diagnostics sets exactly its own field to its value and leaves the name and every other field alone, or fails as a duplicate if its field is already set |
| ParseFacts.VerdictLines | omero/verify_jars.py:61-66 | any line that strips to `jar verified.` sets `verified` to True, and any line whose stripped text starts with `jar is unsigned.`, whatever follows, sets it to False |
| ParseFacts.ParseSucceedsIff | omero/verify_jars.py:53-91 | parsing returns a Status exactly when every line is recognised and no field is named by two lines |
| ParseFacts.ParseResult | omero/verify_jars.py:53-91 | a returned Status carries the jar name, and each field holds the value of the line that names it, or `None` |
| ParseFacts.ParseFailures | omero/verify_jars.py:61-89 | `Unexpected` is raised only when some line is unrecognised, and it carries the name and the lines; `Duplicate(f)` only when two lines name `f` |
| ParseFacts.BothVerdictsRejected | omero/verify_jars.py:61-66 | an output with two verdict lines is always rejected, and as a duplicate when all of its lines are recognised |
| ParseFacts.ParseSingleDiagnostic | omero/verify_jars.py:56-91 | an output of one diagnostic line and a final newline gives a new Status with just that field set |
| ParseFacts.VerifiedJarRendersSigned | omero/verify_jars.py:61-63 | the output `jar verified.` parses to a verified Status that renders as `<name> Signed` |
| ParseFacts.UnsignedJarRendersUnsigned | omero/verify_jars.py:64-66 | the output `jar is unsigned.` parses to an unverified Status that renders as `<name> Unsigned` |
| ParseFacts.WarningOnlyLeavesVerdictUnset | omero/verify_jars.py:67-69 | an output of only `Warning:` is accepted with `verified` left unset, and it renders as `<name> Unsigned warning` |
| ParseFacts.BothVerdictsExample | omero/verify_jars.py:61-66 | an output with `jar verified.` and then `jar is unsigned.` fails as a duplicate of `verified` |
| StatusSummary.Count | omero/verify_jars.py:136-148 | a counter is never larger than the number of statuses |
| StatusSummary.CountIsNumberOfHolders | omero/verify_jars.py:136-148 | each counter equals the number of statuses whose field is True |
| StatusSummary.Tally | omero/verify_jars.py:134-148 | `total` is the number of statuses, and every other counter is at most `total` |
| StatusSummary.CountAppend | omero/verify_jars.py:136-148 | the count over two lists of statuses is the sum of their counts |
| StatusSummary.CountPermutation | omero/verify_jars.py:136-148 | a counter does not depend on the order of the statuses |
| StatusSummary.SummariseStatuses | omero/verify_jars.py:127-153 | the loop with six counters returns the summary line of the tally of its input |
| StatusSummary.SummaryOrderIndependent | omero/verify_jars.py:127-153 | the counts, and so the summary line, are the same for any reordering of the statuses |
| StatusSummary.SummaryReadsBack | omero/verify_jars.py:150-153 | the summary line can be read back into the seven numbers it was made from |
| StatusSummary.SummaryLineInjective | omero/verify_jars.py:150-153 | two different tallies never give the same summary line |
| StatusSummary.FiveJarSummary | omero/verify_jars.py:127-153 | four signed jars out of five, one of them with a warning and one with an unknown certificate, give `4/5 signed 1 warn 1 unknown-cert 0 not-timestamped 0 no-manifest 0 expire-soon` |
| CommandLine.From | omero/verify_jars.py:161 | Python's `xs[k:]` is the rest of `xs` after `k` items, or empty past the end |
| CommandLine.MainArgs | omero/verify_jars.py:156-166 | the argument checks of `main`: a failure is always the usage error with status 1 |
| CommandLine.MainArgsMeaning | omero/verify_jars.py:156-166 | a command line is accepted exactly when it names at least one directory after an optional `-v`, and it is rebuilt from the program name, the flag and the directories |
| CommandLine.AsWrittenAgreesOnArgv | omero/verify_jars.py:159-164 | when `main` receives `sys.argv` itself, as the script's entry point passes it, the code as written behaves as intended |
| CommandLine.AsWrittenIgnoresArgs | omero/verify_jars.py:159-164 | called with an argument list other than `sys.argv`, the code as written takes its directories from the wrong list |

## Left out

- `jarverify` (omero/verify_jars.py:94-111) runs the external `jarsigner` process and checks its exit code and stderr. The model takes its standard output as the `out` parameter of `Parse`.
- `verify_jar_directory` (omero/verify_jars.py:114-124) does filesystem lookups (`isdir`, `glob`) and prints statuses. It is I/O and not modelled; its output is the list that `SummariseStatuses` takes.
- The loop of `main` over the directories, its `print`, and the `__main__` block (omero/verify_jars.py:168-180) are process and console plumbing. `CommandLine` models only the argument checks before them.
- The `usage()` text and the `logging` call carry no behaviour and are not modelled.
- ParseJarsignerVerify: the `Stop(2, ...)` message text is not formatted. `Unexpected` carries the jar name and the list of lines that the message is built from.
- ParseJarsignerVerify: a second assignment to a field is a Python `assert`. In the source it raises `AssertionError`, which `except Stop` does not catch, so the script ends with a traceback rather than a `Stop` status. The model returns `Duplicate(field)` for it. Running Python with `-O` would drop the asserts; that mode is not modelled.
- ParseJarsignerVerify: the code does not require a verdict line, so an output without one is accepted with `verified` left unset, and the model follows the code (`WarningOnlyLeavesVerdictUnset`). The design intent that such output should be reported is not what the code does.
- `Status` is modelled as an immutable record that the parse loop threads from line to line, not as an object updated in place. The source creates it inside `parse_jarsigner_verify` and never aliases it during the loop, so nothing observable is lost.
- Text is modelled as a sequence of characters. Python 2 byte strings and their encoding are not modelled, and `strip()` removes exactly the six ASCII whitespace characters.
- The summary counters are natural numbers. Python integers do not overflow, so nothing is lost.

## Findings

| source | as written | input that shows it | evidently intended | confidence | as-written member | corrected member |
|---|---|---|---|---|---|---|
| omero/verify_jars.py:159-164 | `main(args)` checks `args` but takes the directories from `sys.argv` | `main(["verify_jars.py", "lib"])` while `sys.argv == ["verify_jars.py"]` stops with the usage error (status 1) | the directories come from `args`, so this call verifies `lib` | not executed | CommandLine.AsWrittenIgnoresArgs | CommandLine.MainArgs |
