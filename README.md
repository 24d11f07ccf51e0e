# Review tracker: a verified model of the review-ID and report logic

The review tracker is a GitHub Action. On a pull request it reads the review
comments and the commit details from the GitHub REST API. It then appends rows
to two Google Sheets: one row per review comment to `CodeReviewComments`, and
one summary row per run to `CodeReviewSummary`. Both kinds of row carry the
same review ID, of the shape `CD_RV_NN`.

This project models the logic of `index.js` that sits between those calls. The
REST responses and the rows already in the summary sheet are inputs.

- `ReviewId` (`review_id.dfy`) models `getNextCodeReviewId`. The backward scan
  over the sheet's rows is a method with a loop, proved against the function
  `LastIdCell`. The increment and padding of the ID suffix (`split`, `Number`,
  `padStart`) is the function `NextReviewId`. Spreadsheet cells are
  `Option<string>`, where `None` stands for `undefined`/`null`. A cell read
  past the end of a row is `None`.
- `Decimal` (`decimal.dfy`) and `Strings` (`strings.dfy`) model the JavaScript
  primitives the allocator relies on: `String(n)`, the decimal part of
  `Number(s)`, `indexOf`, `split(sep)[1]` and `padStart`.
- `CommitStats` (`commit_stats.dfy`) models the aggregation in
  `fetchGithubCommitDetails`. The nested `forEach` that sums `additions`,
  `deletions` and `changes` and pushes file names is a method with two loops.
  `[...new Set(names)]` is the function `Dedupe`. The `GIT Revision` template is
  the function `GitRevision`.
- `ReviewComments` (`review_comments.dfy`) models the `forEach` in
  `fetchGitHubReviewComments`. It builds the comment rows and overwrites
  `reviewer` with each comment's author.
- `Report` (`report.dfy`) builds the summary record literal and composes one
  run. The run allocates the ID, then builds the comment rows, then builds the
  summary row.

Errors the source throws, and the NaN it computes from a bad suffix, are `Result` values:
- UndefinedIdCell: the row found by the scan has no third cell, so
  `undefined.split` throws.
- NotANumber: the ID suffix is not a decimal number.
- NoFirstFile: `fileResult[0][0].sha` or `fileResult[last][0].sha` reads a
  missing commit or an empty file list.

The code writes the comment rows before it fetches the commit details. So a
`NoFirstFile` error loses only the summary row, and the comment rows are already
written. The model follows the code here: `Written.summary` is a `Result` next
to the comment rows, although a design that writes nothing on a failed
aggregation is also conceivable.

## Model

| member | source | states |
|---|---|---|
| `ReviewId.Cell` | index.js:29-31 | reading past the end of a row's raw data gives `undefined` |
| `ReviewId.ScanLastReviewId` | index.js:27-35 | the backward loop (with `break`) yields exactly `LastIdCell(rows)`; with fewer than 3 rows nothing is examined and the initial `""` stays |
| `ReviewId.ScanFrom` | index.js:28-34 | the value of `lastCodeReviewId` once the loop has started at `index`: either the initial `""` or the third cell of a row at or below `index` (and above 0) whose first cell is defined |
| `ReviewId.LastIdCell` | index.js:27-35 | the value of `lastCodeReviewId` after the loop: `""` when there are fewer than 3 rows, and otherwise either `""` or the third cell of some examined row whose first cell is defined |
| `ReviewId.ScanFindsNothing` | index.js:28-34 | scanning from any index down to 1 without a defined first cell leaves `""` |
| `ReviewId.ScanFindsHighestMarked` | index.js:28-34 | scanning from any index returns the third cell of the highest marked row at or below it |
| `ReviewId.LastIdCellNothingMarked` | index.js:27-35 | if no row among indices `length-2` down to 1 has a defined first cell, the result is the initial `""` |
| `ReviewId.LastIdCellHighestMarked` | index.js:28-34 | the result is the third cell of the highest-indexed examined row whose first cell is defined; every examined row above it has an undefined first cell |
| `ReviewId.ScanIgnoresEnds` | index.js:28 | rows 0 and `length-1` are never read: sheets that agree on the examined rows give the same result |
| `ReviewId.ScanAgrees` | index.js:28-34 | two scans from the same index over sheets that agree on the examined rows give the same value |
| `ReviewId.ParseSuffix` | index.js:39-40 | `Number(id.split("CD_RV_")[1])` is NaN when the prefix does not occur |
| `ReviewId.FormatId` | index.js:42 | the ID starts with `CD_RV_`, its suffix is all digits, at least 2 long, and has no leading zero once wider than 2 |
| `ReviewId.DigitsLackPrefix` | index.js:39 | a digit string never contains `CD_RV_`, so splitting a formatted ID finds exactly its suffix |
| `ReviewId.ParseFormatId` | index.js:39-42 | parsing the ID formatted from `n` gives back `n` (round trip through `padStart` and `Number`) |
| `ReviewId.FormatIdInjective` | index.js:42 | distinct numbers give distinct IDs |
| `ReviewId.NextReviewId` | index.js:36-45 | `undefined` throws; a non-numeric suffix is NaN; otherwise the result is `CD_RV_` followed by at least 2 digits, with no leading zero once wider than 2, and parses to the prior number plus one (to 1 after `""`); exact for suffixes below 2^53 only, see "Left out" |
| `ReviewId.NextOfNothing` | index.js:43-44 | nothing found (`""`) yields exactly `CD_RV_01`, the ID numbered 1 |
| `ReviewId.NextOfDecimal` | index.js:39-42 | for any decimal suffix `d`, `CD_RV_` + `d` is followed by the formatted ID of `Value(d) + 1` |
| `ReviewId.NextOfFormatted` | index.js:39-42 | the ID formatted from `n` is followed by the ID formatted from `n + 1` |
| `ReviewId.NextOfSeven` | index.js:39-42 | `CD_RV_07` is followed by `CD_RV_08` |
| `ReviewId.ValueSeven` | index.js:40 | `Number("07")` is 7 |
| `ReviewId.FormatEight` | index.js:42 | 8 formats as `CD_RV_08`, padded with one `0` |
| `ReviewId.NextOfNinetyNine` | index.js:42 | `CD_RV_99` is followed by `CD_RV_100`, so the suffix widens and is not truncated |
| `ReviewId.ValueNinetyNine` | index.js:40 | `Number("99")` is 99 |
| `ReviewId.FormatHundred` | index.js:42 | 100 formats as `CD_RV_100` |
| `ReviewId.GetNextCodeReviewId` | index.js:27-46 | the allocator is the scan followed by the increment; with fewer than 3 rows it returns `CD_RV_01` |
| `ReviewId.AllocateAfterStored` | index.js:28-42 | when the highest marked row holds the ID numbered `n`, the allocator returns the ID numbered `n + 1` |
| `ReviewId.LastRowIdRepeated` | index.js:28 | the newest row is never read: on a sheet whose three rows hold IDs 1, 2 and 3, the allocator returns ID 3 again |
| `Decimal.Dec` | index.js:42 | `String(n)` is a non-empty digit string with no leading zero, one digit exactly when `n < 10` (for `n` below 10^21, see "Left out") |
| `Decimal.Value` | index.js:40 | the number a digit string denotes is below 10 to the power of its length |
| `Decimal.ShortDigitsAreSafe` | index.js:40-42 | a suffix of at most 15 digits stays below 2^53 after `+ 1`, so there JavaScript's double arithmetic agrees with the model exactly |
| `Decimal.JsNumber` | index.js:40 | `Number(s)` is a number exactly for digit strings, 0 for `""`, and the positional value of the digits otherwise (exact below 2^53, see "Left out") |
| `Decimal.JsNumberOfDec` | index.js:40-42 | reading back the decimal text of `n` gives `n`: `Number(String(n)) == n` |
| `Decimal.ValueOfDec` | index.js:40-42 | parsing undoes `String(n)` |
| `Decimal.DecOfValue` | index.js:40-42 | `String` undoes parsing for digit strings without a leading zero |
| `Decimal.ValuePositive` | index.js:40 | a digit string that does not start with `0` is at least 1 |
| `Decimal.ValueLeadingZero` | index.js:40 | a leading `0` does not change the number, so `Number("07")` is 7 |
| `Strings.IndexOf` | index.js:39 | the first occurrence of the separator, or none exactly when it does not occur |
| `Strings.SecondField` | index.js:39-40 | `split(sep)[1]` is `undefined` exactly when `sep` does not occur; otherwise it holds no `sep`, starts right after the first `sep`, and runs up to the next `sep` (the first one starting after it) or to the end of the string |
| `Strings.FirstField` | index.js:39 | the text up to the first `sep` (or all of it): it opens the string, no `sep` starts inside it, and it is followed by `sep` or the end |
| `Strings.Repeat` | index.js:42 | `n` copies of the pad character |
| `Strings.PadStart` | index.js:42 | `padStart` keeps the string as its suffix, pads on the left up to the width, and never truncates |
| `Strings.SecondFieldOfPrefixed` | index.js:39-40 | splitting `sep + field` gives back `field` when `field` holds no `sep` |
| `CommitStats.Flatten` | index.js:131-133 | the outer and inner `forEach` visit the file entries commit after commit; the first entry visited is the first commit's first file |
| `CommitStats.TotalsOf` | index.js:134-136 | the counters summed over a file list: each sum is at least every single file's counter (`TotalsAppend` and `TotalsOfPair` fix the sums) |
| `CommitStats.Names` | index.js:138-139 | one file name per file entry, in order |
| `CommitStats.AccumulateStats` | index.js:113-141 | the nested loops leave `additions`, `deletions`, `changes` equal to the sums of those fields over every file of every commit, and push every file name in order |
| `CommitStats.PushFile` | index.js:133-139 | handling one more file adds its three counters and pushes its name |
| `CommitStats.FlattenStep` | index.js:131-133 | after commit `i` its files follow those of the commits before it |
| `CommitStats.FlattenAppend` | index.js:131-133 | the files of two commit lists are the files of the first, then of the second |
| `CommitStats.TotalsAppend` | index.js:134-136 | the sums over two file lists add up |
| `CommitStats.TotalsOfCommitsAppend` | index.js:131-136 | the sums over two commit lists add up |
| `CommitStats.RemoveCommitMultiset` | index.js:105-106 | taking one commit out of the pushed list takes it out of the multiset of commits |
| `CommitStats.RemoveCommitTotals` | index.js:131-136 | taking one commit out subtracts exactly its files' counters |
| `CommitStats.TotalsOrderIndependent` | index.js:92-107 | the totals are the same whatever order `Promise.all` pushes the commit details in |
| `CommitStats.FlattenMember` | index.js:131-133 | a file entry is visited exactly when some commit lists it |
| `CommitStats.Dedupe` | index.js:143-144 | `[...new Set(names)]` holds exactly the input's names, each once, and is no longer than the input |
| `CommitStats.DedupeFirstSeenOrder` | index.js:143-144 | the de-duplicated names are in first-seen (Set insertion) order |
| `CommitStats.FilesReviewedSpec` | index.js:131-144 | a name is listed exactly when some commit touches it, each name once, never more names than file entries |
| `CommitStats.FilesReviewedOrderIndependent` | index.js:92-107 | which files are listed does not depend on the commits' completion order |
| `CommitStats.FlattenExample` | index.js:131-133 | the two-commit example (with any SHAs) flattens to its four file entries |
| `CommitStats.TotalsOfPair` | index.js:134-136 | the counters of two file entries are their sums |
| `CommitStats.ExampleTotals` | index.js:131-141 | commits `a.js` (+10 -2, 12 changes) with `b.js`, and `b.js` (+5 -1, 6 changes) with `c.js`, sum to 15 added, 3 deleted, 18 changed; so Modified is 21 and Reviewed is 36 |
| `CommitStats.ExampleFiles` | index.js:138-144 | the same example lists `a.js`, `b.js`, `c.js` |
| `CommitStats.GitRevision` | index.js:126-128 | the range is defined exactly when there is a commit and the first and last file lists are non-empty; otherwise reading `[0].sha` throws |
| `CommitStats.RangeEnds` | index.js:126-128 | splitting a range at its first `...` gives two ends that rebuild it |
| `CommitStats.GitRevisionEnds` | index.js:126-128 | when the first commit's first-file SHA holds no `.` (as no hexadecimal SHA does), the range splits back into the first commit's and the last commit's first-file SHA |
| `ReviewComments.LastAuthor` | index.js:196-197 | the value `reviewer` is left with: `""` or the author of one of the comments |
| `ReviewComments.LastAuthorAppend` | index.js:196-197 | the last author of two batches of comments is that of the second batch, unless it is empty; it is the author of the very last comment |
| `ReviewComments.BuildCommentRows` | index.js:194-204 | one row per comment, in response order, each stamped with the same ID, carrying that comment's body and path; the reviewer is the last comment's author, or `""` when there are none |
| `Report.BuildSummaryRow` | index.js:113-164 | the summary is defined exactly when the revision range is; `LOC Added` is the sum of additions, `LOC Modified` is changes + deletions, `Lines Of Code Reviewed` is additions + changes + deletions, so Reviewed = Added + Modified; files are de-duplicated in first-seen order |
| `Report.BuildReport` | index.js:50-212 | a run fails exactly when ID allocation fails; otherwise it writes one comment row per comment with the allocated ID, and a summary (when the range exists) with the same ID, the comment count, the last commenter as reviewer, the summed counters, the de-duplicated file list, the revision range and the sprint constant |

## Left out

- HTTP: the `fetch` calls to the GitHub REST API (index.js:50-80, 94-104, 176-183) are network I/O. Their JSON results are the inputs `comments` and `fileResult`.
- Google Sheets: authentication, `loadInfo`, `sheetsByTitle`, `setHeaderProps`, `getRows` and `addRows` (index.js:11-25, 215-253) are remote I/O. The rows read are the input `summaryRows`, and the rows written are the `Written` result. Read-then-append is not atomic, so two concurrent runs can allocate the same ID. That race is not modelled.
- `Promise.all` (index.js:92-107): the order in which commit details are pushed, and which `committer` ends up last, depend on completion order. The model takes `fileResult` in a given order and `developer` as a parameter. `TotalsOrderIndependent` and `FilesReviewedOrderIndependent` show that the totals and the set of listed files do not depend on that order. The file order and the revision range do depend on it.
- `statResult` is collected but never used, so it is not modelled.
- `Date of Review` is clock and locale formatting, so it is not modelled. That covers `toLocaleString` in Asia/Kolkata (index.js:162) and `new Date().toTimeString()` (index.js:269).
- The action wiring is not modelled: `core.getInput`, `core.setOutput` and `core.setFailed` (index.js:256-291). The `Sprint` constant and the branch-name `TaskID` are plain copies; the summary row carries them unchanged.
- Report.BuildSummaryRow: `List of Files Reviewed` is kept as the list of names, not the text `fileNames.join("\n")`.
- NextReviewId: for a suffix that is not a decimal number, the model reports `NotANumber`. The source goes on and writes the ID `CD_RV_NaN`, because `String(NaN + 1)` is `"NaN"`.
- NextReviewId: the model adds one on unbounded naturals. JavaScript computes `Number(...) + 1` in doubles, which is exact only below 2^53. From a suffix of 2^53 (`CD_RV_9007199254740992`) the source writes the same ID again, and from `CD_RV_9007199254740993` it writes a smaller one. From 10^21 on, `String` writes exponent form (`CD_RV_1e+21`). `ShortDigitsAreSafe` shows that every suffix of at most 15 digits is in the exact range.
- Decimal.JsNumber: JavaScript `Number()` also accepts surrounding whitespace, a sign, hexadecimal, exponents and fractions. The model treats all of these as NaN and accepts only `""` and decimal digit strings. It also returns the exact value of every digit string, where JavaScript rounds values above 2^53 to the nearest double.
- Decimal.Dec: JavaScript `String(n)` writes numbers of 10^21 or more in exponent form (`1e+21`). The model always writes plain decimal digits, so it agrees with `String` only below 10^21.
- AccumulateStats: counters are unbounded naturals. JavaScript numbers are doubles, exact only up to 2^53.
- BuildCommentRows: a comment whose `user` is `null` (a deleted account) would make `d.user.login` throw. Comments are modelled with a present author.
- GitRevision: the source uses the SHA of each commit's first file entry, not the commit SHA. The model keeps that behaviour as written.
