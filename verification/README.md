# Fanuc drill-file adjuster, modelled in Dafny

The adjuster rewrites the drilling files of plug plates ("plFanuc" files) so
that a systematic error of the drilling machine is compensated. Every line
that holds an `X… Y…` position has that position replaced by the inverse of a
quadrupole distortion model. All other lines are copied. A comment line
recording the model is inserted before the third line. A file that already
carries that comment is refused. The repository holds two revisions of the
per-file routine `processFile`, and both are modelled:

- the current one, `processFile` in `python/adjustFanucFiles/adjustFanucFilesWdg.py`:
  - it skips files whose name looks adjusted and files whose output already exists;
  - it names the output by turning every "FanucUnadjusted" of the base name into
    "FanucAdjusted", or by appending "Adjusted" to a base name without one, and adds `.txt`;
  - it builds the whole output in memory and writes it only when every line converted;
- the legacy one, `AdjustFanucFilesWdg.processFile` in `python/adjustFanucFiles/adjustFanucFiles.py`:
  - it accepts only `.par` files and names the output `<base>Adjusted<ext>`;
  - it recognises only `G60 X… Y…` lines and uses 4 digits instead of 5;
  - it writes line by line, so a refusal part-way leaves a partial file.

Modules:

- `Wrappers`: `Option`.
- `Text`: the Python string operations used:
  - `str.lower` (ASCII), `str.lstrip` and `str.isspace`;
  - `startswith`/`endswith`, the `in` test and `str.replace`, with lemmas about them.
- `Pattern`: both position regexes, `^(.* )X([-0-9.]+) +Y([-0-9.]+)( .*)?$`
  and `^(.* )?G60 X([-0-9.]+) +Y([-0-9.]+)( .*)?$`, modelled as one
  decomposition of a line, parameterised by a `Dialect`:
  - `Render` spells a decomposition out;
  - `Match` is the backtracking matcher: greedy prefix, tried from the longest prefix down;
  - `Match` is proved sound, complete and maximal against the declarative reading (`MatchIff`).
- `Pipeline`: the per-line step (marker test, match, inverse transform, rewrite) and the conversion loop:
  - the annotation goes before the third line;
  - the loop stops at the first line that is marked or cannot be transformed;
  - the loop counts the rewritten lines.
- `Adjuster`: the current `processFile`.
- `LegacyAdjuster`: the legacy `processFile`.

The quadrupole model is a value with a magnitude, an angle and an inverse
transform. The inverse transform is a function from the two captured number
texts to `Option<Point>`; `None` stands for the transform raising. Float
formatting (`%0.*f`, `%s`) is a pair of functions in `Formatter`. Whether the
output file already exists is a predicate `present` on file names. The input
file is the sequence of its lines, each with its line end.

Three behaviours of the code a reader might not expect:

- The output name comes from a case-sensitive `str.replace` of
  "FanucUnadjusted" (python/adjustFanucFiles/adjustFanucFilesWdg.py:76). The
  case-insensitive `fileNameSubRE` substitution on line 75 is commented out.
  The name filter on lines 70-71 does lower-case the name.
  `Adjuster.UnadjustedInLower` and `Adjuster.OutputNameSkipped` show how
  the two interact.
- The annotation is appended when the third input line is reached (lines
  98-99), so it is the third output line.
- A rewritten line always ends in `"\n"` (line 108), even when it was a last
  line without one. Line ends are therefore not always preserved.

## Model

| member | source | states |
|---|---|---|
| Text.LStrip | python/adjustFanucFiles/adjustFanucFilesWdg.py:100 | `lstrip()` returns a suffix of the line; everything removed is whitespace and what remains does not start with whitespace |
| Text.ReplaceAbsent | python/adjustFanucFiles/adjustFanucFilesWdg.py:76-77 | `replace` leaves a name without "FanucUnadjusted" unchanged, so the "nothing changed" branch is taken exactly for such names |
| Text.ReplaceShrinks | python/adjustFanucFiles/adjustFanucFilesWdg.py:76 | replacing with a shorter text never lengthens the name, and strictly shortens a name that holds the pattern |
| Text.ReplacePlain | python/adjustFanucFiles/adjustFanucFilesWdg.py:76 | `replace` copies every character before the first occurrence of the pattern unchanged |
| Text.ReplaceFirst | python/adjustFanucFiles/adjustFanucFilesWdg.py:76 | the first occurrence becomes the replacement, the text before it is kept, and the rest is replaced in turn; with `ReplaceAbsent` this fixes `replace` on every text |
| Text.ReplaceLeavesNone | python/adjustFanucFiles/adjustFanucFilesWdg.py:76 | when pattern and replacement start with a character found nowhere else in either, and neither is a prefix of the other, no occurrence of the pattern is left after `replace` |
| Text.LowerCases | python/adjustFanucFiles/adjustFanucFilesWdg.py:70 | `lower()` leaves no upper-case ASCII letter, turns each into the lower-case letter at the same place in the alphabet, and keeps every other character |
| Text.LowerIdempotent | python/adjustFanucFiles/adjustFanucFilesWdg.py:70 | lower-casing an already lower-cased name changes nothing |
| Text.OccurrenceOf | python/adjustFanucFiles/adjustFanucFilesWdg.py:71 | `p in s` means `p` occurs at some position of `s` |
| Text.NoOccurrence | python/adjustFanucFiles/adjustFanucFilesWdg.py:71 | when `p` occurs at no position of `s`, `p in s` is false |
| Pattern.ParseTailSound | python/adjustFanucFiles/adjustFanucFilesWdg.py:43 | what the anchored part of the pattern after the prefix group accepts is a well-formed X number, blank gap, Y number, postfix and line end that spell the text out |
| Pattern.ParseTailComplete | python/adjustFanucFiles/adjustFanucFiles.py:74 | every well-formed tail is accepted again, with the same groups |
| Pattern.MatchSound | python/adjustFanucFiles/adjustFanucFilesWdg.py:104-106 | a match decomposes the line into groups that meet their sub-patterns |
| Pattern.MatchGreedy | python/adjustFanucFiles/adjustFanucFiles.py:107-109 | a line with any decomposition matches, and no decomposition has a longer prefix group than the match |
| Pattern.MatchIff | python/adjustFanucFiles/adjustFanucFilesWdg.py:43 | the match is exactly the decomposition with the longest prefix group |
| Pipeline.MarkerLine | python/adjustFanucFiles/adjustFanucFilesWdg.py:100 | a line starting with "(Adjusted" is taken as already adjusted by both revisions' test |
| Pipeline.RewriteKeepsEnds | python/adjustFanucFiles/adjustFanucFilesWdg.py:106-109 | a rewritten line starts with the prefix group and the lead, and ends with the postfix group and a newline |
| Pipeline.RewriteRematches | python/adjustFanucFiles/adjustFanucFilesWdg.py:104-109 | a rewritten line matches the pattern again, with the same prefix and postfix groups, the formatted numbers and a one-blank gap |
| Pipeline.StepOf | python/adjustFanucFiles/adjustFanucFilesWdg.py:100-112 | one line stops the loop iff it carries the marker, or matches with a failing transform; otherwise it is rewritten iff it matches, and copied verbatim iff it does not |
| Pipeline.StepRematches | python/adjustFanucFiles/adjustFanucFiles.py:107-112 | the text a matched line becomes matches again with its prefix and postfix and the formatted numbers |
| Pipeline.Run | python/adjustFanucFiles/adjustFanucFilesWdg.py:96-112 | the loop from any line on either finishes with every line's text in order, the annotation at position 2, and the count of rewritten lines, or stops at the first line that emits nothing, with what was emitted before it |
| Pipeline.Convert | python/adjustFanucFiles/adjustFanucFilesWdg.py:91-112 | the conversion finishes iff every line emits; the output is the input's texts in order with the annotation before the third line when there is one; the count equals the number of matching lines; otherwise it stops at the first non-emitting line, for the marker reason iff that line carries the marker |
| Adjuster.OutBaseName | python/adjustFanucFiles/adjustFanucFilesWdg.py:74-78 | the output base name differs from the input's; it is the input plus "Adjusted" iff the input has no "FanucUnadjusted"; otherwise it is shorter |
| Adjuster.OutBaseNameFirst | python/adjustFanucFiles/adjustFanucFilesWdg.py:76 | the first "FanucUnadjusted" of a name becomes "FanucAdjusted", the text before it is kept, and the rest of the name is rewritten the same way |
| Adjuster.OutBaseNameClean | python/adjustFanucFiles/adjustFanucFilesWdg.py:76-78 | no output base name contains "FanucUnadjusted", whether it came from the replacement or from appending "Adjusted" |
| Adjuster.AdjustedAppended | python/adjustFanucFiles/adjustFanucFilesWdg.py:77-78 | appending "Adjusted" to a name without "FanucUnadjusted" creates none |
| Adjuster.OutputNeverInput | python/adjustFanucFiles/adjustFanucFilesWdg.py:67-79 | for any split of the input file name into base and extension, the `.txt` output name never equals the input name |
| Adjuster.ExampleName | python/adjustFanucFiles/adjustFanucFilesWdg.py:74-79 | `plNorthFanucUnadjusted-0050` gives `plNorthFanucAdjusted-0050.txt` |
| Adjuster.UnadjustedInLower | python/adjustFanucFiles/adjustFanucFilesWdg.py:70-76 | a name the replacement can change always holds "unadjusted" once lower-cased, so the name filter never skips it |
| Adjuster.OutputNameSkipped | python/adjustFanucFiles/adjustFanucFilesWdg.py:68-78 | for a name without "unadjusted" in any case, the output's base name is skipped by the name filter iff the name does not end in "un" |
| Adjuster.ProcessFile | python/adjustFanucFiles/adjustFanucFilesWdg.py:57-117 | no model: nothing happens; an adjusted-looking name or an existing output: skipped; otherwise the output is written iff every line emits, with the laid-out lines and the count of matching lines; else it is abandoned at the first stopping line and nothing is written |
| Adjuster.AnnotationMarked | python/adjustFanucFiles/adjustFanucFilesWdg.py:91-100 | the annotation line carries the marker that the guard tests for |
| Adjuster.RerunRejected | python/adjustFanucFiles/adjustFanucFilesWdg.py:96-103 | an output of three or more lines, fed back in, is never written again |
| LegacyAdjuster.OutFileName | python/adjustFanucFiles/adjustFanucFiles.py:90 | the output name starts with the base name, ends with the extension and differs from the input name |
| LegacyAdjuster.ProcessFile | python/adjustFanucFiles/adjustFanucFiles.py:79-116 | a non-`.par` extension is refused first; then a missing model; otherwise the run completes iff every line emits, and an abort leaves every line emitted before the stopping line, annotation included once reached |
| LegacyAdjuster.AnnotationMarked | python/adjustFanucFiles/adjustFanucFiles.py:96-105 | the legacy annotation carries the marker its guard tests for |
| LegacyAdjuster.RerunAborts | python/adjustFanucFiles/adjustFanucFiles.py:101-106 | rerunning on a completed output of three or more lines aborts by its third line |
| LegacyAdjuster.PartialOutput | python/adjustFanucFiles/adjustFanucFiles.py:98-106 | a marker on the third line aborts with exactly the first two converted lines and the annotation left in the output |
| LegacyAdjuster.IndentedMarkerMissed | python/adjustFanucFiles/adjustFanucFiles.py:105 | an indented "(Adjusted" line is caught by the current revision's guard but not by the legacy one |

## Left out

- `getModel` (python/adjustFanucFiles/adjustFanucFilesWdg.py:45-55) and the legacy constructor's configuration reading: INI parsing and a file check. A model is either given (`Some`) or absent (`None`, the falsy model or the missing attribute).
- The quadrupole model's arithmetic (`setMagnitudeAngle`, `applyOne`, `getMagnitudeAngle`): floating-point trigonometry in a library that is not part of this model. The inverse is an arbitrary function, and no law about it is claimed.
- Float-to-text conversion (`%0.5f`, `%0.*f`, `%s`): arbitrary functions. The re-match property assumes that the formatted numbers consist of `[-0-9.]` characters.
- File I/O and `os.path`:
  - the directory part, `splitext`, `exists` and reading lines become parameters (base name, extension, `present`, the line sequence);
  - the `"rU"` newline translation is taken as already done;
  - writing the output becomes the `contents` of the outcome.
- Log messages and the Tk widgets of both files, including the constructor's undefined `qpMag`/`qpAngle` at python/adjustFanucFiles/adjustFanucFilesWdg.py:155.
- Exceptions: each raise becomes an outcome (`BadExtension`, `NoModel`, `Aborted`, `Abandoned`) rather than a Python exception.
- Adjuster.ProcessFile: `Abandoned` does not carry the discarded in-memory buffer, because nothing of it reaches the disk.
- Text.Lower: only ASCII letters are lowered. Non-ASCII case mappings of Python 3 `str.lower` are not modelled. The markers tested are ASCII.
- The unused `fileNameSubRE` and the commented-out case-insensitive substitution (python/adjustFanucFiles/adjustFanucFilesWdg.py:42, 75).
- The legacy revision overwriting an existing output file: it never checks for one, and the model has no file system to overwrite.
- bin/adjustFanucScript.py, bin/runAdjustFanucFiles.py and BuildForMac/setup.py: argument handling, launching and packaging.
