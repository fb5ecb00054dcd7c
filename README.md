# Loganizer single-file analyzer, in Dafny

Loganizer checks a list of log files. For each file it first checks that the
file exists, can be opened, and reports its size. It then reads the file and
scans its lines for the markers `INVALID_LINE` and `cannot be parsed`. The
outcome is an analysis result: the log's identifier and path, the status `OK`
or `FAILED`, a French summary message, and error details.

This project models that per-file classification, `AnalyzeLog`, and the error
renderer `HandleError`. The file system is an input. An `Observation` records
what each file-system call returned for the path:

- the existence check's error and whether it means "does not exist";
- the open error;
- the size-query error and the size;
- the read error and the content.

The file's size comes from the open handle and its content from a separate
read by path, so the model treats the two as independent.

- `wrappers.dfy`: `Option`.
- `strings.dfy`: Go's `strings.Split` on a one-character separator and
  `strings.Contains`, with `Join` as the inverse of `Split`. Lemmas show that
  splitting and joining undo each other. They also show that a substring
  without a separator occurs in a text exactly when it occurs in one of the
  text's pieces.
- `analyzer.dfy`: the result record, the observation record, the decision
  ladder as a specification function `Analysis`, and the method `AnalyzeLog`.
  The method builds the result field by field, returns early, and scans the
  lines in a loop. It is proved equal to `Analysis`. The lemmas about
  `Analysis` state the ladder's properties. The file also holds the error
  kinds and `HandleError`.

The messages are the code's French literals. The existence check fails only
on a "does not exist" error; any other error from that check is ignored
(internal/analyzer/analyzer.go:32).

## Model

| member | source | states |
|---|---|---|
| `Strings.IndexOf` | internal/analyzer/analyzer.go:79 | the position found holds the separator and nothing before it does; None only when the text has no separator |
| `Strings.Split` | internal/analyzer/analyzer.go:79 | splitting gives at least one piece, and no piece contains the separator |
| `Strings.JoinSplit` | internal/analyzer/analyzer.go:79 | joining the pieces with the separator gives back the original content, so no character is lost or reordered |
| `Strings.SplitJoin` | internal/analyzer/analyzer.go:79 | splitting a join of separator-free pieces gives back exactly those pieces |
| `Strings.Contains` | internal/analyzer/analyzer.go:81 | true exactly when the substring occurs at some position of the text |
| `Strings.ContainsAroundSeparator` | internal/analyzer/analyzer.go:79-81 | a separator-free substring occurs in `a + sep + b` iff it occurs in `a` or in `b` |
| `Strings.ContainsInSomePiece` | internal/analyzer/analyzer.go:79-81 | a separator-free substring occurs in the content iff it occurs in some piece of the split |
| `Analyzer.ErrorText` | internal/analyzer/analyzer.go:11-15 | each of the three sentinel errors has a non-empty text; any other error's text is the text it carries |
| `Analyzer.SentinelsNotUnknown` | internal/analyzer/analyzer.go:117-125 | none of the three sentinel messages begins with the unknown-error prefix "Erreur inconnue: " |
| `Analyzer.HandleError` | internal/analyzer/analyzer.go:116-127 | every rendering starts with "Erreur"; it starts with "Erreur inconnue: " iff the error is not one of the three sentinels, and then the rest is the error's text |
| `Analyzer.HandleErrorInjective` | internal/analyzer/analyzer.go:116-127 | different errors are rendered as different messages |
| `Analyzer.ParsingDetailsPrefix` | internal/analyzer/analyzer.go:84 | the details of a parsing failure begin with the parsing sentinel's text and ": ", that is "parsing failed: " |
| `Analyzer.NotFound` | internal/analyzer/analyzer.go:32 | the existence check reports "not found" only for an actual error that the system classifies as "does not exist"; when there is no error the file is never reported as not found |
| `Analyzer.HasMarker` | internal/analyzer/analyzer.go:81 | a line signals a parsing failure iff "INVALID_LINE" or "cannot be parsed" occurs at some position of it; such a line is at least as long as the shorter marker |
| `Analyzer.Lines` | internal/analyzer/analyzer.go:79 | the content splits into at least one line, no line holds a newline, and joining the lines with newlines gives back the content |
| `Analyzer.FirstMarkerLine` | internal/analyzer/analyzer.go:80-86 | returns the index of the first line holding either marker, with no earlier line holding one; None only when no line holds one |
| `Analyzer.Analysis` | internal/analyzer/analyzer.go:25-92 | the result keeps the log's identifier and path unchanged; the status is always "OK" or "FAILED"; an "OK" result has empty error details |
| `Analyzer.AnalyzeLog` | internal/analyzer/analyzer.go:25-92 | the field-by-field construction with early returns and the line loop yields exactly the result the ladder specifies |
| `Analyzer.FailureOrder` | internal/analyzer/analyzer.go:31-76 | the checks apply in this order: not found, open error, size-query error, then read error for a non-empty file. The first that applies gives "FAILED", its own message, and that error's text as details |
| `Analyzer.OtherStatErrorIgnored` | internal/analyzer/analyzer.go:32-37 | an existence-check error that is not "does not exist" leaves the result as if the check had succeeded |
| `Analyzer.EmptyFileSkipsContent` | internal/analyzer/analyzer.go:58-62 | a zero-size file that passed the first three checks gives "OK" with "Fichier vide - aucune analyse nécessaire.", whatever its content and read error |
| `Analyzer.MarkerInSomeLine` | internal/analyzer/analyzer.go:79-81 | some line holds a marker iff the whole content holds one |
| `Analyzer.ContentScanOutcome` | internal/analyzer/analyzer.go:78-91 | after the I/O checks pass on a non-empty file, the result is "FAILED" iff the content holds a marker. A failure carries "Erreur de parsing détectée." and details "parsing failed: " + L, where L is the first marker line and contains no newline. Otherwise the result is "OK" with "Analyse terminée avec succès." |

## Left out

- The file-system calls (existence check, open, size query through the handle, whole-file read, close) are replaced by the `Observation` input. Closing the handle on every exit path has no effect on the result and is not modelled.
- The random delay before the read (seeding, drawing 50 to 200 ms, sleeping) is left out. It uses global random state and the clock, and it does not affect the result.
- The `logType` parameter of `AnalyzeLog` is left out because the code never uses it.
- `AnalyzeLogsConcurrently` and the goroutine and channel fan-out in the command are left out. Their point is concurrency, and their result order depends on completion order. Their one order-free fact is that exactly one result is collected per entry.
- The command-line wiring, the console printing, the success tally, the JSON configuration loading and the JSON export are left out. They are I/O plumbing over libraries that are not part of this model.
- The file content is modelled as a string of characters rather than raw bytes. The byte-to-string conversion is not modelled.
- `Strings.Split` models `strings.Split` for a one-character separator only, which is the only way the analyzer calls it.
- Analyzer.HandleError: the error is one of a closed set of kinds. Go's `errors.Is` also looks through wrapped errors. In the model, a wrapped sentinel is that sentinel's kind. An error that wraps several sentinels, and a nil error, are not modelled.
