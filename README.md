# fix_rsv_dates, modelled in Dafny

`ingest/format_downloaded_genomes.py` prepares an RSV genome download for the
rest of the ingest. Every FASTA record's identifier is a `|`-separated header
whose field 3 is the collection date, as the upstream repository deposits it:
`YYYY`, `YYYY_MM` or `YYYY_MM_DD`, or `NA`, or the known-bad literal
`May_2016/Dec_2017`. `fix_rsv_dates` makes one pass over the records:

- it drops a record whose date is `NA` or the bad literal;
- for any other record it parses the year from the first four characters and
  lowers the running minimum year `min_year` if needed;
- it brings the date to `YYYY-MM-DD`, with `XX` for an unknown month or day;
- it replaces every occurrence of the raw date in the identifier by the
  formatted date and uses the new identifier as the description;
- it collects the record in input order.

A record without field 3, or with a year that is not a number, raises an
exception. The run then aborts before anything is written.

The project has three modules:

- `Text` (`text.dfy`) models the two Python string builtins involved:
  - `str.split` with a one-character separator, with its `join` inverse;
  - `str.replace`, which rewrites every non-overlapping occurrence, scanning
    left to right, including Python's behaviour for an empty pattern.
- `Dates` (`dates.dfy`) models the date-formatting branch, and the deposited
  and normalised date shapes as a `CollectionDate` datatype.
- `FormatDownloadedGenomes` (`fix_dates.dfy`) models the pass itself:
  - `Judge` is the per-record verdict (error, drop, or keep with date and
    year);
  - `Rewrite` is the identifier rewrite;
  - `Edited` and `MinYear` are the list and the minimum after a prefix of the
    records;
  - the method `FixRsvDates` is the loop, proved against those functions.

The identifier rewrite on line 50 is Python's `str.replace`, which replaces
every occurrence of the date, not only the one in field 3. The model follows
the code: `RewriteFields` states that every field
gets the replacement. `RewriteOnlyDateField` and `DepositedRecordRewritten`
give the conditions under which only field 3 changes.

## Model

| member | source | states |
|---|---|---|
| Text.Split | ingest/format_downloaded_genomes.py:37 | splitting the identifier on the field separator: there is always at least one field; empty fields are kept |
| Text.SplitFieldsFree | ingest/format_downloaded_genomes.py:37 | no field produced by the split contains the separator |
| Text.JoinSplit | ingest/format_downloaded_genomes.py:37 | joining the fields of a text with the separator gives the text back |
| Text.SplitJoin | ingest/format_downloaded_genomes.py:37 | splitting the join of separator-free fields gives those fields back (round trip in the other direction) |
| Text.SplitWithoutSep | ingest/format_downloaded_genomes.py:37 | a text without the separator is a single field |
| Text.SplitAround | ingest/format_downloaded_genomes.py:37 | the fields of `a + sep + b` are the fields of `a` followed by those of `b` |
| Text.ReplaceAll | ingest/format_downloaded_genomes.py:46-50 | Python's `str.replace`. For a non-empty pattern, the leftmost occurrence is replaced and the scan resumes after it, so later occurrences are found left to right without overlap (`ReplaceAllLeftmost`); a text with no occurrence is unchanged (`ReplaceAllAbsent`). An empty pattern inserts the replacement before every character and at the end (`ReplaceAllEmptySnoc`, `ReplaceAllEmptyLength`). Further properties: `ReplaceAllWhole`, `ReplaceAllChar`, `ReplaceAllWithout`, `ReplaceAllAround` and `SplitReplaceAll` |
| Text.ReplaceAllLeftmost | ingest/format_downloaded_genomes.py:50 | when the leftmost occurrence of a non-empty pattern starts at `i`, the result is the text before `i`, then the replacement, then the rest after that occurrence, replaced in its turn; e.g. with pattern `2020`, `202020` becomes the replacement followed by `20` |
| Text.ReplaceAllEmptySnoc | ingest/format_downloaded_genomes.py:50 | with an empty pattern, appending a character to the text appends that character and one more replacement to the result |
| Text.ReplaceAllEmptyLength | ingest/format_downloaded_genomes.py:50 | with an empty pattern, the result has the text's length plus one replacement per character and one more |
| Text.ReplaceAllAbsent | ingest/format_downloaded_genomes.py:50 | `str.replace` leaves a text in which the pattern does not occur unchanged |
| Text.ReplaceAllWhole | ingest/format_downloaded_genomes.py:50 | a text that is exactly the pattern becomes the replacement |
| Text.ReplaceAllWithout | ingest/format_downloaded_genomes.py:50 | a character in neither the text nor the replacement is not in the result |
| Text.ReplaceAllChar | ingest/format_downloaded_genomes.py:46 | replacing one character by another keeps the length and changes exactly the positions holding that character |
| Text.ReplaceAllAround | ingest/format_downloaded_genomes.py:50 | a pattern free of the separator never matches across it: replacing in `a + sep + b` replaces in `a` and in `b` separately |
| Text.ReplaceAllJoin | ingest/format_downloaded_genomes.py:50 | replacing in a joined text is joining the fields, each replaced |
| Text.SplitReplaceAll | ingest/format_downloaded_genomes.py:37-50 | if neither pattern nor replacement contains the separator, the replaced text has the same fields as the original, each with every occurrence replaced |
| Text.OccursInField | ingest/format_downloaded_genomes.py:50 | an occurrence inside a field is an occurrence in the joined text, at the field's offset |
| Text.ReplaceOnlyField | ingest/format_downloaded_genomes.py:50 | if a field equals the pattern and the pattern occurs only once in the text, replacing changes that field to the replacement and no other field |
| Dates.FormatDate | ingest/format_downloaded_genomes.py:42-49 | the date formatting of the loop body; its contract is carried by `FormatDateShape` (every input), `FormatDateDeposited` (the three deposited shapes) and `FormatDateNormalised` (idempotence) |
| Dates.FormatDateShape | ingest/format_downloaded_genomes.py:42-49 | a 4-character date becomes `date + "-XX-XX"`; any other date keeps every character except `_`, which becomes `-`; it has no `_`; `-XX` is appended exactly when the length is not 10; no field separator is introduced |
| Dates.FormatYearMonth | ingest/format_downloaded_genomes.py:45-49 | `YYYY_MM` is formatted to `YYYY-MM-XX` |
| Dates.FormatYearMonthDay | ingest/format_downloaded_genomes.py:45-48 | `YYYY_MM_DD` is formatted to `YYYY-MM-DD` |
| Dates.NormalisedWellFormed | ingest/format_downloaded_genomes.py:42-49 | every normalised form of a valid date is ten characters in `YYYY-MM-DD` shape, with `XX` parts, and starts with the year |
| Dates.FormatDateDeposited | ingest/format_downloaded_genomes.py:42-49 | each of the three deposited shapes is formatted to its normalised form: ten characters, well formed, keeping the four year characters |
| Dates.FormatDateNormalised | ingest/format_downloaded_genomes.py:42-49 | formatting leaves an already normalised date unchanged (idempotence) |
| FormatDownloadedGenomes.DateField | ingest/format_downloaded_genomes.py:37 | field 3 exists exactly when the identifier has at least four fields, and then the value is field 3 of the split and contains no field separator; otherwise the result is an `IndexError` |
| Dates.DigitsValue | ingest/format_downloaded_genomes.py:40 | the decimal value of a string of ASCII digits, the reference for what `int()` returns; stated by `DigitsValueFour` and `DigitsValueBound` |
| Dates.DigitsValueFour | ingest/format_downloaded_genomes.py:40 | a four-digit numeral is worth its digits weighted by 1000, 100, 10 and 1 |
| Dates.DigitsValueBound | ingest/format_downloaded_genomes.py:40 | `n` decimal digits have a value below `10^n` |
| FormatDownloadedGenomes.YearText | ingest/format_downloaded_genomes.py:40 | `date[0:4]`, which stops at the end of a shorter date; its use is stated by `ParseYear` |
| FormatDownloadedGenomes.ParseYear | ingest/format_downloaded_genomes.py:40-41 | `int(date[0:4])` succeeds exactly when the (clamped) first four characters are one to four digits, and the year is then their decimal value (`DigitsValue`), in `0..9999`; otherwise a `ValueError` carrying that text |
| FormatDownloadedGenomes.ParseYearDeposited | ingest/format_downloaded_genomes.py:40-41 | the year of a deposited date is the value of its four year digits |
| FormatDownloadedGenomes.Judge | ingest/format_downloaded_genomes.py:37-41 | what the loop body decides for one record: `IndexError`, `ValueError`, drop, or keep with date and year; its properties are stated by `ExcludedIsDropped`, `KeptUnlessExcluded`, `DepositedRecordRewritten` and, for the whole run, `FixRsvDates` |
| FormatDownloadedGenomes.ExcludedIsDropped | ingest/format_downloaded_genomes.py:39 | a record whose field 3 is `NA` or `May_2016/Dec_2017` is dropped, with no error |
| FormatDownloadedGenomes.KeptUnlessExcluded | ingest/format_downloaded_genomes.py:39 | a record that raises no error is kept exactly when its date is not excluded |
| FormatDownloadedGenomes.Rewrite | ingest/format_downloaded_genomes.py:50-53 | the new record of a kept record; stated by `RewriteFields`, `RewriteOnlyDateField` and `DepositedRecordRewritten` |
| FormatDownloadedGenomes.RewriteFields | ingest/format_downloaded_genomes.py:50-53 | the new identifier has the old fields, each with every occurrence of the raw date formatted; field 3 is exactly the formatted date; description equals identifier; the sequence is unchanged |
| FormatDownloadedGenomes.RewriteOnlyDateField | ingest/format_downloaded_genomes.py:50 | if the raw date occurs once in the identifier, only field 3 changes, to the formatted date |
| FormatDownloadedGenomes.DepositedRecordRewritten | ingest/format_downloaded_genomes.py:37-53 | an identifier with a deposited date in field 3 and in no other field gives a kept record: the year is that date's four digits, and the written record's identifier and description are the identifier with field 3 normalised |
| FormatDownloadedGenomes.KeptIndices | ingest/format_downloaded_genomes.py:39 | the kept positions, strictly increasing and in range: a position is listed exactly when its record is kept |
| FormatDownloadedGenomes.Emitted | ingest/format_downloaded_genomes.py:50-53 | the records the loop body appends for one record; stated through `EditedLength`, `EditedAt` and `DroppedContributesNothing` |
| FormatDownloadedGenomes.Edited | ingest/format_downloaded_genomes.py:34-53 | `edited_records` after a prefix of the input; stated by `EditedAppend`, `EditedInOrder`, `OutputCount` and `ExcludedRecordIgnored`, and tied to the loop by `FixRsvDates` |
| FormatDownloadedGenomes.EditedAppend | ingest/format_downloaded_genomes.py:34-53 | the output for `a + b` is the output for `a` followed by the output for `b`: records are only appended |
| FormatDownloadedGenomes.EditedLength | ingest/format_downloaded_genomes.py:53 | there is one output record per kept input record |
| FormatDownloadedGenomes.EditedAt | ingest/format_downloaded_genomes.py:53 | the j-th output record is the rewrite of the j-th kept input record |
| FormatDownloadedGenomes.EditedInOrder | ingest/format_downloaded_genomes.py:34-53 | the output is the kept records, rewritten, in input order, with their sequences and with description equal to identifier |
| FormatDownloadedGenomes.OutputCount | ingest/format_downloaded_genomes.py:36-53 | on a run without errors, the output count is the number of records whose date is neither `NA` nor the bad literal |
| FormatDownloadedGenomes.DroppedContributesNothing | ingest/format_downloaded_genomes.py:39 | a dropped record adds no output and leaves the minimum year alone |
| FormatDownloadedGenomes.ExcludedRecordIgnored | ingest/format_downloaded_genomes.py:38-39 | removing a record dated `NA` or the bad literal changes neither the output nor the final minimum year |
| FormatDownloadedGenomes.Lowered | ingest/format_downloaded_genomes.py:40-41 | `min_year` after the loop body has seen one record; stated through `MinYearIsMinimum` and `DroppedContributesNothing` |
| FormatDownloadedGenomes.MinYear | ingest/format_downloaded_genomes.py:34-41 | `min_year` after a prefix of the input; stated by `MinYearIsMinimum`, `MinYearStaysAtSeed`, `MinYearNonIncreasing`, `MinYearAppend` and `ExcludedRecordIgnored`, and tied to the loop by `FixRsvDates` |
| FormatDownloadedGenomes.MinYearAppend | ingest/format_downloaded_genomes.py:40-41 | the minimum over `a + b` is the minimum over `b`, seeded with the minimum over `a` |
| FormatDownloadedGenomes.MinYearIsMinimum | ingest/format_downloaded_genomes.py:40-41 | the final `min_year` is at most the seed and at most every kept year, and it is the seed or one of those years |
| FormatDownloadedGenomes.MinYearStaysAtSeed | ingest/format_downloaded_genomes.py:40-41 | the final `min_year` equals the seed exactly when no kept record has a year below it |
| FormatDownloadedGenomes.MinYearNonIncreasing | ingest/format_downloaded_genomes.py:40-41 | `min_year` never increases as the loop proceeds |
| FormatDownloadedGenomes.CleanAll | ingest/format_downloaded_genomes.py:36-41 | the loop's running "no error so far" predicate holds exactly when no record of the prefix raises |
| FormatDownloadedGenomes.FirstFailure | ingest/format_downloaded_genomes.py:36-41 | when the records before position `i` raise nothing and the record at `i` raises, every record before `i` succeeds and not every record of the input succeeds |
| FormatDownloadedGenomes.FixRsvDates | ingest/format_downloaded_genomes.py:31-55 | the run succeeds exactly when no record raises; on failure it reports the error of the first raising record; on success it returns the rewritten kept records in order and the final minimum year |

## Left out

- Reading and writing FASTA (lines 32, 36 and 55) are not modelled. `FixRsvDates` takes the parsed records as a sequence. It returns the records that would be written, or the exception that would stop the run before writing. How Biopython derives the identifier from the header line is not part of this model.
- `parse_args` and `main` (lines 14-28 and 57-65) are left out. `main`'s seed 2000 (line 61) is not fixed in the model: `FixRsvDates` and the lemmas about `MinYear` take the seed as a parameter, so they hold for 2000 in particular.
- The `pandas` and `numpy` imports are unused by this code and are left out.
- `FixRsvDates` returns the final `min_year`. The source computes it but never uses it after the loop.
- Records are values (`Record`). The source assigns `virus.id` and `virus.description` on the parsed record before copying them into a new `SeqRecord`. That parsed record is not visible to any caller, so only the copy is modelled. Other `SeqRecord` attributes (name, annotations) are not modelled.
- FormatDownloadedGenomes.ParseYear: models Python's `int()` only on one to four ASCII digits. The leniencies of `int()` are not modelled: surrounding whitespace, a sign, `_` between digits, and non-ASCII digits. A date whose first four characters use them is a `ValueError` in the model, though Python would accept some of them.
- Text.ReplaceAll: models Python's empty-pattern case. The loop never reaches it, because an empty date fails the year parse first.
