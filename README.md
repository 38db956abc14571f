# atol-grade-scraper in Dafny

This project models the text-processing core of `grades.py`, a command-line
scraper. The scraper logs in to the AtoL lab server, lists the student
accounts of a lab, fetches each student's score page, and writes one line per
student: the account, the exercise scores and the final score, joined by a
chosen separator.

The network is not modelled. Each response body is a parameter. What the
model covers is what the scraper does with those bodies and with its options:

- `text.dfy` (module `Text`) holds the Python string operations the scraper
  relies on: `in`, `str.replace`, `str.split` and `str.join` with a
  one-character separator, and ASCII digits and blanks.
- `regex.dfy` (module `Regex`) models `re.findall` for the scraper's two
  lookbehind patterns. It is a left-to-right scanner, proved to return
  exactly the greedy matches, in document order.
- `grades.dfy` (module `Grades`) covers the login check, the account listing
  and the score page, which becomes a record or an error.
- `output.dfy` (module `Output`) covers the output loop of `main`: the
  exercise-list option, denominator stripping, field selection and order, and
  the join. The loop is an imperative method proved against the `Entry`
  function.
- `wrappers.dfy` (module `Wrappers`) holds `Option` and `Result`.

## Model

| member | source | states |
|---|---|---|
| Grades.LoginSucceeded | grades.py:26 | login succeeds exactly when the marker "Unable to sign in." occurs nowhere in the response body |
| Grades.ShortBodyLogsIn | grades.py:26 | a body shorter than the marker, the empty body included, counts as a successful login |
| Grades.MarkerMeansFailure | grades.py:26 | a body containing the marker anywhere is a failed login |
| Text.Contains | grades.py:26 | `pat in s`, a left-to-right scan, holds exactly when `pat` occurs at some index of `s` |
| Text.FreeOfChar | grades.py:86-87 | a one-character pattern occurs nowhere exactly when that character is not in the string |
| Grades.CAccounts | grades.py:47 | every listed account ID has the form `c` followed by at least one digit |
| Grades.CAccountsAreAllCells | grades.py:47 | the account IDs are the texts of all `<td>c<digits>` matches of the page, in document order, duplicates kept |
| Grades.NoCellNoAccounts | grades.py:47 | a page without any account match lists no account |
| Regex.MatchEnd | grades.py:35 | a match found at an index ends after it and within the page |
| Regex.MatchEndIff | grades.py:35 | the one-position matcher returns end `b` exactly when `s[a..b]` is the greedy match with the lookbehind satisfied, for both patterns |
| Regex.FindSpans | grades.py:47 | every span the scan reports is a greedy match at or after its start, and the spans are in order without overlap |
| Regex.FindSpansComplete | grades.py:47 | every match at or after the start index is reported |
| Regex.FindSpansExact | grades.py:35 | the scan lists all matches and only matches, in order, and any other such list equals it |
| Regex.NoMatchInside | grades.py:35 | no match of either pattern can start inside another, because both lookbehinds need a `>` that no match contains |
| Regex.FindAll | grades.py:35 | every text `findall` returns is in the pattern's language |
| Grades.Normalize | grades.py:34 | after the replacement, no `- - - - - -` placeholder is left in the page |
| Text.Replace | grades.py:34 | every character of `s.replace(pat, rep)` is a character of `s` or of `rep` |
| Text.ReplaceFirst | grades.py:34 | the first occurrence of the pattern becomes the replacement, the text before it is kept, and replacing resumes after it, so occurrences do not overlap |
| Grades.NormalizeFirstPlaceholder | grades.py:34 | the first `- - - - - -` on the page becomes `0 / 0`, the text before it is kept, and the rest of the page is normalized on its own |
| Text.ReplaceLeavesNone | grades.py:34 | `str.replace` leaves no occurrence of the pattern when the replacement cannot form one, which covers `"0 / 0"` for the placeholder and `""` for `" "` |
| Text.ReplaceFree | grades.py:34 | `str.replace` returns a string without the pattern unchanged |
| Grades.NormalizeKeepsCleanPage | grades.py:34 | a page without placeholders is not changed |
| Grades.NormalizeIdempotent | grades.py:34 | replacing the placeholders twice gives the same page as replacing them once |
| Grades.NoAttemptReadsAsZero | grades.py:34-35 | the one page `>- - - - - -<` yields exactly one score, `0 / 0` |
| Grades.ScoreMatches | grades.py:34-35 | every score found on the normalized page has the shape digits, blank, `/`, blank, digits |
| Grades.ScoresAreAllMatches | grades.py:34-35 | the scores are the texts of all score matches of the normalized page, in document order, duplicates kept |
| Grades.Scores | grades.py:34-36 | a record exists exactly when the page has at least one score; it keeps the account, and its exercise scores followed by its final score are exactly the page's scores in order |
| Grades.ScoresHaveScoreShape | grades.py:35-36 | every exercise score and the final score of a record have the score shape |
| Grades.ScoresOfNormalizedPage | grades.py:34-36 | an already-normalized page yields the same record as the raw page |
| Output.ToIndices | grades.py:68 | the conversion succeeds exactly when every piece is a numeral, then gives each number less one; otherwise it names the first piece that is not a numeral |
| Output.ExerciseIndices | grades.py:68 | `-e` gives one index per comma-separated piece; an argument without a comma is accepted exactly when it is a numeral, and then gives its number less one, so the empty argument is refused |
| Output.ExerciseIndicesOfList | grades.py:68 | a comma-joined list of numerals converts back to those numbers less one, in order |
| Output.ExerciseZeroIsLast | grades.py:68 | `-e 0` becomes index -1, which selects the last exercise |
| Text.SplitJoin | grades.py:68 | splitting a join gives the fields back when no field holds the separator |
| Text.JoinSplit | grades.py:68 | joining the pieces of a split gives the original string back |
| Text.Split | grades.py:68 | `s.split(sep)` always gives at least one piece |
| Text.Join | grades.py:104 | `sep.join(fields)` of one field is that field; with more fields the line starts with the first field and the separator |
| Text.SplitHead | grades.py:82-83 | the first piece of `split` is the longest prefix without the separator |
| Output.Numerator | grades.py:82-83 | `score.split(' ')[0]` is a prefix of the score without spaces that runs to the end or to the first space |
| Output.Compact | grades.py:86-87 | `score.replace(" ", "")` equals the independent space filter `DropSpaces`: every space removed, every other character (tabs included) kept in order |
| Output.ReplaceDropsSpaces | grades.py:86-87 | replacing `" "` by `""` in any string gives the same result as the space filter |
| Output.StripScore | grades.py:81-87 | a score `n / d` becomes `n` when denominators are dropped and `n/d` otherwise |
| Output.StripExample | grades.py:81-87 | `8 / 10` becomes `8` or `8/10` |
| Output.Strip | grades.py:81-87 | either way of handling the denominator leaves no space and adds no character the score does not have |
| Output.StripAll | grades.py:81-87 | each exercise score is handled on its own, in order |
| Output.Fields | grades.py:89-102 | the account comes first unless suppressed, the handled final score comes last unless suppressed, and the exercises fill the rest |
| Output.FieldsExercises | grades.py:93-98 | after the account come the exercises at the user's indices, in the user's order with repeats and Python's negative indexing, or all exercises in page order when none are chosen |
| Output.Position | grades.py:96 | a Python index from `-n` to `n - 1` names the position in range that agrees with it modulo `n` |
| Output.Pick | grades.py:94-96 | the selection has one score per index, and its k-th element is the score at the k-th index read as a Python index |
| Output.Entry | grades.py:104 | the line joined with the chosen separator splits back into its fields when there is at least one and none contains the separator |
| Output.ScrapedFieldsAvoid | grades.py:14-18 | no field of a scraped record contains a comma, nor a space once stripped |
| Output.ScrapedEntrySplitsIntoFields | grades.py:14-18 | with the comma or space separator, the line of any scraped record with at least one field splits back into exactly its fields |
| Output.AppendSelected | grades.py:94-96 | appending `scores[ex]` for each selected `ex` extends the entry by the selected scores in selection order |
| Output.FormatEntry | grades.py:78-104 | the loop body for one record builds exactly the line `Entry` specifies |
| Output.FormatRecords | grades.py:75-104 | the output list has one line per record, in record order, each the record's `Entry` |

## Left out

- Network access (`aiohttp`, `async`, `fetch_grades`, `BASE_URL`) is not modelled. Each page body is a parameter of the function that reads it.
- `html.unescape` (grades.py:34) is not modelled. `Grades.Normalize` and `Grades.ScoreMatches` take the body as already unescaped.
- Argument parsing (`argparse`), reading credentials from standard input, printing, and copying to the clipboard through pandas are I/O and are not modelled. `Output.Options` holds the parsed option values; argparse's default separator, the first key of the separator table, is not modelled, so `Options.separator` is always given.
- The failed-login path of `fetch_grades` is not modelled: it prints a message and returns `None`, and `main` then fails iterating over it.
- `\d` and `\s` stand for ASCII digits and the six ASCII blanks (space, tab, newline, carriage return, vertical tab, form feed). Python's `\s` on text also accepts the separators U+001C to U+001F and Unicode blanks, and `\d` accepts other Unicode digits; those are not modelled.
- Output.ToIndices: reads a piece as a number only when it is a run of ASCII digits. Python's `int()` also accepts surrounding blanks, a sign, underscores and non-ASCII Unicode decimal digits; those inputs are not modelled.
- Output.FormatRecords: requires every selected index to lie in `-n .. n-1` for a record with `n` exercises. Python raises `IndexError` for other indices; that crash is not modelled. Negative indices are modelled as Python reads them.
- Grades.Scores: `scores[-1]` on a page without any score raises `IndexError` in Python; the model returns `Failure(NoScoreFound)` instead.
- Output.ScrapedEntrySplitsIntoFields: needs at least one field: with `-u` and `-f`, a record without exercise scores and no `-e` gives an empty line, which splits into `[""]`, not into no fields. It is also stated for the comma and space separators only. A score may contain a tab as its blank, so a tab-separated line need not split back into its fields.
- The commented-out block at the end of `grades.py` is dead code and is not modelled.
