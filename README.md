# Security Log Analyzer — the suspicious-line filter

This project models `analyze_log` of the Security Log Analyzer in Dafny. The function reads a log file line by line. It reports a line when the lower-cased line contains one of four fixed keywords. The keywords are "failed password", "error", "invalid user" and, spelled as in the program, "unathorized". Each reported line is printed as `[WARNING] Suspicious Entry:`, then one space, then the line with its surrounding whitespace stripped.

The model has two modules.

- `Text` (text.dfy) holds the string primitives the filter uses:
  - `ToLower` models `str.lower()` on ASCII letters.
  - `Strip` models `str.strip()` over Python's `str.isspace()` characters.
  - `Occurs` models the substring test `k in s`.
  - `AnyOccurs` models `any(...)` over a keyword list.

  Each primitive is specified independently and proved against that specification: `IsStripOf`, `OccursAt` and `SameIgnoringCase`.
- `LogParser` (log_parser.dfy) holds the keyword list, the per-line test `IsFlagged`, the warning text `Warning`, and the whole report as a function (`Report`, built from the generic filter `Select`). It also holds the loop `AnalyzeLog`, proved equal to `Report`, plus lemmas about what gets reported:
  - A line is reported exactly when some keyword matches it, ignoring case, at some position.
  - Matching is case-insensitive and does not depend on the whitespace that stripping removes.
  - A keyword is found inside longer words ("Errors", "terror").
  - The misspelled keyword means "unauthorized" is never reported.
  - Each line gives at most one warning, in input order, and empty input gives no output.
  - A warning is the tag, one space and the stripped line.

The file is modelled as the sequence of lines its iteration yields, each still carrying its line terminator. Standard output is modelled as the sequence of printed lines, without the newline `print` appends.

## Model

| member | source | states |
|---|---|---|
| Text.LowerChar | log_parser/main.py:5 | lower-casing one character never yields a capital; it changes only 'A'..'Z', maps each to the matching 'a'..'z' letter, and keeps whitespace as whitespace |
| Text.ToLower | log_parser/main.py:5 | `line.lower()` keeps the length and lower-cases every character in place |
| Text.ToLowerIgnoresCase | log_parser/main.py:5 | two strings have the same lower-case form exactly when they differ only in the case of their letters |
| Text.ToLowerOfLower | log_parser/main.py:5 | a string without capitals is its own lower-case form (the keywords are unchanged by lowering) |
| Text.ToLowerConcat | log_parser/main.py:5 | lower-casing distributes over concatenation |
| Text.LeadingSpace | log_parser/main.py:6 | the count of leading characters that `strip()` removes: all whitespace, followed by a non-whitespace character or the end |
| Text.TrailingSpace | log_parser/main.py:6 | the count of trailing characters that `strip()` removes: all whitespace, preceded by a non-whitespace character or the start |
| Text.Strip | log_parser/main.py:6 | `line.strip()` is a contiguous piece of the line with only whitespace around it and no whitespace at either end |
| Text.IsSpace | log_parser/main.py:6 | the characters `strip()` removes: Python's `str.isspace()` set, the ASCII controls and separators 9-13 and 28-32 and the Unicode spaces listed in its doc comment |
| Text.StripUnique | log_parser/main.py:6 | that description fixes the stripped form uniquely |
| Text.StripBounds | log_parser/main.py:6 | a non-empty stripped form starts after all leading whitespace and ends before all trailing whitespace |
| Text.StrippedSplits | log_parser/main.py:6 | a line is its leading whitespace, then its stripped form, then its trailing whitespace |
| Text.StripIdempotent | log_parser/main.py:6 | stripping a stripped line changes nothing |
| Text.Occurs | log_parser/main.py:5 | `keyword in s` holds exactly when the keyword appears as a contiguous substring at some index |
| Text.OccursShift | log_parser/main.py:5 | after a mismatch at the front, the search continues one character further without losing an occurrence |
| Text.AnyOccurs | log_parser/main.py:5 | `any(...)` over the keywords holds exactly when some keyword of the list occurs |
| Text.OccursAround | log_parser/main.py:5 | when `k` overlaps `u` consistently at no offset, `k in p + u + q` holds exactly when `k in p` or `k in q` |
| Text.OccurrenceBesideMiddle | log_parser/main.py:5 | such an occurrence in `p + u + q` lies wholly inside `p` or wholly inside `q` |
| Text.OccursAtBefore | log_parser/main.py:5 | an occurrence in `a` is one in `a + b` at the same index |
| Text.OccursAtAfter | log_parser/main.py:5 | an occurrence in `b` is one in `a + b`, shifted by the length of `a` |
| Text.AnyOccursAround | log_parser/main.py:5 | the same for `any(...)` over a keyword list |
| Text.OccursInContext | log_parser/main.py:5 | a keyword is found whatever surrounds it: plain substring matching, not whole words |
| LogParser.SourceKeywordsWellFormed | log_parser/main.py:2 | each of the program's four keywords is non-empty, lower-case, and neither starts nor ends with whitespace |
| LogParser.IsFlagged | log_parser/main.py:5 | the per-line test for a given keyword list: some keyword occurs in the lower-cased line; its meaning is pinned by `FlaggedIffMatches` |
| LogParser.IsSuspicious | log_parser/main.py:2-5 | the per-line test with the program's four keywords; see `SuspiciousWhenContains`, `ErrorInsideWordsReported`, `MisspelledKeywordMissesUnauthorized` |
| LogParser.Warning | log_parser/main.py:6 | the printed text: tag, one space, stripped line; see `WarningStripsLine` |
| LogParser.Report | log_parser/main.py:4-6 | everything a run prints: the warning of every flagged line, in input order; see `ReportSelectsFlaggedLines` |
| LogParser.Select | log_parser/main.py:4-6 | filtering lines yields at most one output per input line |
| LogParser.AnalyzeLog | log_parser/main.py:1-6 | the scan loop prints exactly the report: one warning per flagged line, in input order |
| LogParser.OccursInLowerAt | log_parser/main.py:5 | a keyword occurs in the lower-cased line at index i exactly when the line matches it there, ignoring case |
| LogParser.FlaggedIffMatches | log_parser/main.py:2-5 | a line is flagged exactly when some keyword of the list matches it, ignoring case, at some index |
| LogParser.FlaggedIgnoresCase | log_parser/main.py:5 | lines that differ only in letter case get the same verdict |
| LogParser.FlaggedByKeywordInside | log_parser/main.py:5 | a line that contains a lower-case keyword in any capitalisation, anywhere, is flagged |
| LogParser.FlaggedGrows | log_parser/main.py:5 | adding text around a flagged line keeps it flagged |
| LogParser.FlaggedIgnoresStrip | log_parser/main.py:5-6 | for keywords without surrounding whitespace, testing the raw line or its stripped form gives the same verdict |
| LogParser.FlaggedIffStrippedFlagged | log_parser/main.py:5-6 | the same equivalence, stated for a stripped form at a known offset |
| LogParser.FlaggedLineFlagsStrip | log_parser/main.py:5-6 | a flagged line's stripped form is flagged too, when no keyword has whitespace at either end |
| LogParser.MatchInsideStrip | log_parser/main.py:5-6 | a match of such a keyword in the raw line lies wholly inside the stripped part |
| LogParser.SuspiciousWhenContains | log_parser/main.py:2-5 | any line containing one of the program's keywords, in any capitalisation, is reported |
| LogParser.ErrorInsideWordsReported | log_parser/main.py:2-5 | lines containing "Errors" or "terror" are reported: "error" is matched inside words |
| LogParser.MisspelledKeywordMissesUnauthorized | log_parser/main.py:2-5 | with the keyword list as written, the word "unauthorized" in any capitalisation changes nothing: a line `p + word + q` is suspicious exactly when `p` or `q` is, and gets no warning when neither is (so "Unauthorized\n" and "Unauthorized access from 10.0.0.1\n" are not reported) |
| LogParser.NoSourceKeywordOverlaps | log_parser/main.py:2-5 | none of the four keywords agrees with "unauthorized" at any offset where they overlap: none lies inside the word, contains it, or shares an end of itself with a start of the word or the other way round |
| LogParser.FlaggedAround | log_parser/main.py:5 | a word that no keyword overlaps, in any capitalisation, leaves the verdict to the text around it |
| LogParser.IntendedReportsUnauthorized | log_parser/main.py:2-5 | with the corrected keyword "unauthorized", a line containing the word in any capitalisation is flagged and reported with one warning |
| LogParser.SelectAppend | log_parser/main.py:4-6 | filtering two runs of lines one after the other gives the two results concatenated |
| LogParser.ReportAppend | log_parser/main.py:4-6 | the report of two runs of lines is the two reports concatenated |
| LogParser.ReportStep | log_parser/main.py:4-6 | one more line adds its warning to the report if and only if it is flagged |
| LogParser.Kept | log_parser/main.py:4-5 | the indices of the flagged lines, strictly increasing, containing an index exactly when that line is flagged |
| LogParser.SelectFrom | log_parser/main.py:4-6 | the filtered output is, position by position, the rendering of the kept lines in their order |
| LogParser.ReportSelectsFlaggedLines | log_parser/main.py:4-6 | the report holds exactly one warning per flagged line and none for other lines, in input order |
| LogParser.OneWarningPerLine | log_parser/main.py:5-6 | a line matching two different keywords still yields a single warning |
| LogParser.WarningStripsLine | log_parser/main.py:6 | the warning is the tag, one space and the line without its surrounding whitespace |

## Left out

- Opening the file, UTF-8 decoding, newline translation and splitting into lines: the model takes the lines as given, each with its terminator.
- Writing to standard output: the output is the sequence of printed lines without `print`'s trailing newline.
- The command-line entry point run.py: the argument count check, the usage message, `sys.exit(1)` and the call into `analyze_log`.
- Text.ToLower: models `str.lower()` on ASCII letters only and leaves every other character unchanged. For the program's keywords, and for the corrected list, this gives Python's verdict on every line. The only non-ASCII characters whose lower-case form contains ASCII are U+0130 (lowered to "i" followed by U+0307) and U+212A (lowered to "k"). No keyword contains "k", and every "i" in a keyword is followed by a letter. For an arbitrary keyword list the model can differ from Python: a keyword containing "k" is not found where the line spells it with U+212A.
- Errors from a missing or undecodable file: these come from the file layer, which is outside the model.

## Findings

| source | as written | input that shows it | evidently intended | confidence | as-written member | corrected member |
|---|---|---|---|---|---|---|
| log_parser/main.py:2 | the fourth keyword is "unathorized" | "Unauthorized access from 10.0.0.1\n" is not reported; "unauthorized" in any capitalisation never makes a line suspicious | the keyword "unauthorized" | high; not executed | LogParser.MisspelledKeywordMissesUnauthorized | LogParser.IntendedReportsUnauthorized |

Every lemma stated over an arbitrary keyword list applies to both `SourceKeywords` and `IntendedKeywords`. `AnalyzeLog` keeps the program's spelling, because it models the code as written.
