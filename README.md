# repo_miner — a verified model of its fetch and summary logic

`repo_miner` mines a hosted repository's history through the GitHub API:
`fetch_commits` turns the commit listing into rows
`(sha, author, email, date, message)`, `fetch_issues` turns the issue
listing into issue rows while skipping pull requests, and
`merge_and_summarize` reports the five most frequent committers, the issue
close rate and the mean time issues stayed open.

This project models those three functions with the API client replaced by
plain inputs:

- the `GITHUB_TOKEN` environment variable is an `Option<string>` parameter;
- the repository's commit and issue listings are sequences of raw records
  (`RawCommit`, `RawIssue`) in the order the API yields them;
- instants are whole seconds since the epoch (`Timestamp`), and the clock
  that open issues are measured against is a `now` parameter, one instant
  for the whole fetch;
- the saved tables are sequences of rows (`CommitRecord`, `IssueRecord`);
- the close rate and the average duration are exact `real` quotients.

Modules, one per component of `src/repo_miner.py`:

- `Common` (`common.dfy`): `Option`, `Result`, the missing-token error, the
  cap arithmetic shared by both fetch loops, and whole-day flooring.
- `Text` (`text.dfy`): `str.split('\n')` and the first line of a message,
  with the round trip `Join(Split(s)) == s`. The first-line properties follow
  from that round trip.
- `Commits` (`commits.dfy`): `FetchCommits`, an imperative loop with a
  counter, an early `break` and a growing list, proved against its contract.
- `Issues` (`issues.dfy`): `FetchIssues`, the same kind of loop with the
  pull-request filter. It is proved against `NonPullRequests`, a reference
  filter over the listing, and `FirstIssues`, which takes the first capped
  part of the filtered listing.
- `Summary` (`summary.dfy`): `value_counts().head(5)`, modelled as tally,
  sort by descending count, and take five; the closed count with its
  set-cardinality reference; the close rate; the average duration, with a
  proof that it is a true mean.

The model follows the code in three places where a more defensive reading is possible:

- The code reads `author.name` and `author.email` without a null check
  (src/repo_miner.py:39-40), so authors are not nullable here.
- The code does not guard its divisions (src/repo_miner.py:108, 117), so
  "at least one issue" and "at least one closed issue" are preconditions,
  not error results.
- For an open issue the code stores a raw time difference, not a day count
  (src/repo_miner.py:76-77). The model keeps that inconsistency visible as
  `Duration.Elapsed(seconds)` beside `Duration.Days(days)`.

## Model

| member | source | states |
|---|---|---|
| `Common.HasToken` | src/repo_miner.py:14-16 | `if not token`: an unset variable and the empty string both fail, any other string passes |
| `Common.Cap` | src/repo_miner.py:26-29 | Number of rows a capped loop keeps when `k` items pass its filter: all `k` without a cap, none for a cap of 0 or less, otherwise the cap or `k`, whichever is smaller |
| `Common.FloorDays` | src/repo_miner.py:71-72 | `timedelta.days`: the whole number of days `d` with `d*86400 <= seconds < (d+1)*86400`, so it rounds down, also for negative spans |
| `Text.Split` | src/repo_miner.py:42 | `split('\n')` yields at least one piece, and no piece contains a newline |
| `Text.JoinSplit` | src/repo_miner.py:42 | Joining the pieces with newlines gives back the original message |
| `Text.FirstLine` | src/repo_miner.py:42 | The kept message `split('\n')[0]` contains no newline |
| `Text.FirstLineIsPrefix` | src/repo_miner.py:42 | The first line is a prefix of the message; it is either the whole message or is followed by a newline |
| `Text.FirstLineBeforeNewline` | src/repo_miner.py:42 | If the first newline is at index `k`, the first line is exactly the `k` characters before it |
| `Text.FirstLineOfSingleLine` | src/repo_miner.py:42 | A message without a newline is kept whole |
| `Text.FirstLineIdempotent` | src/repo_miner.py:42 | Cutting a message to its first line a second time changes nothing |
| `Text.FirstLineExample` | tests/test_repo.py:80-87 | "Initial commit\nDetails" is stored as "Initial commit" |
| `Commits.ToRecord` | src/repo_miner.py:37-43 | A commit row copies sha, author name, author email and date; its message is a newline-free prefix of the commit message that is either all of it or stops just before a newline |
| `Commits.FetchCommits` | src/repo_miner.py:7-49 | Fails with the missing-token error exactly when the token is absent or empty. Otherwise returns `Cap(max, k)` rows for `k` listed commits. Row `i` copies sha, author name, author email and date from listed commit `i`, and its message is that commit's first line, which holds no newline |
| `Issues.ToRecord` | src/repo_miner.py:70-90 | An issue row copies id, number, title, user, state, creation time and comment count. A closed issue keeps its closing time and gets the whole days it was open, rounded down. Any other issue gets no closing time and the seconds elapsed up to `now` |
| `Issues.NonPullRequests` | src/repo_miner.py:79 | The filtered listing is no longer than the listing, and none of its items is a pull request |
| `Issues.NonPullRequestsMembers` | src/repo_miner.py:79-93 | An item survives the filter if and only if it is listed and is not a pull request |
| `Issues.NonPullRequestsAppend` | src/repo_miner.py:66-93 | Filtering a concatenation is the concatenation of the filtered parts, so the listing's order is kept |
| `Issues.FirstIssues` | src/repo_miner.py:64-93 | The issues a capped fetch keeps are a prefix of the filtered listing of length `Cap(max, #non-pull-requests)`; the cap applies after the filter |
| `Issues.FetchIssues` | src/repo_miner.py:51-95 | Fails with the missing-token error exactly when the token is absent or empty. Otherwise returns one row per issue of `FirstIssues(listing, max)`, in order, each the `ToRecord` of that issue at `now` |
| `Issues.FetchedRowsComeFromIssues` | src/repo_miner.py:79-93 | Every row of a fetch is the row of some listed item that is not a pull request |
| `Summary.Count` | src/repo_miner.py:98 | An author's row count is at most the number of rows, and it is positive exactly when the author occurs |
| `Summary.Distinct` | src/repo_miner.py:98 | The grouped authors are exactly the authors of the column, each listed once |
| `Summary.Tally` | src/repo_miner.py:98 | The tally holds exactly the pairs (author of the column, that author's row count), one per author |
| `Summary.Insert` | src/repo_miner.py:98 | Inserting into the ranking adds exactly one copy of the new entry and keeps every old one with its multiplicity |
| `Summary.InsertKeepsOrder` | src/repo_miner.py:98 | Inserting into a ranking ordered by descending count keeps it ordered |
| `Summary.InsertKeepsAuthorsDistinct` | src/repo_miner.py:98 | Inserting an entry for an author not yet ranked keeps the authors distinct |
| `Summary.SortByCount` | src/repo_miner.py:98 | Sorting is a permutation: the same entries with the same multiplicities |
| `Summary.SortByCountOrders` | src/repo_miner.py:98 | The sorted list is ordered by descending count, and distinct authors stay distinct |
| `Summary.Ranked` | src/repo_miner.py:98 | The full `value_counts` result: exactly the pairs (author of the column, that author's row count), ordered by descending count, each author once |
| `Summary.TopAuthors` | src/repo_miner.py:98 | `head(5)`: a prefix of the ranking, five lines long, or the whole ranking when it has fewer than five |
| `Summary.TopCommitters` | src/repo_miner.py:98 | At most five lines, each naming an author of some row of the commits table |
| `Summary.LeftOutAuthors` | src/repo_miner.py:98 | An author missing from the first `n` ranked lines appears further down, so its count is no larger than line `n`'s |
| `Summary.TopAuthorsOrdered` | src/repo_miner.py:98 | `head(5)` gives at most five lines, counts never increase, and no author is listed twice |
| `Summary.TopAuthorsCounted` | src/repo_miner.py:98 | Every listed author occurs in the column, and the listed count is that author's number of rows |
| `Summary.TopAuthorsLeaveOutNoLarger` | src/repo_miner.py:98 | With five lines, no author left out has more rows than the fifth line; with fewer than five lines, every author is listed |
| `Summary.TopCommittersSpec` | src/repo_miner.py:98 | The facts of the three lemmas above for the `author` column of the commits table, including both halves of the left-out bound |
| `Summary.TopAuthorsExample` | src/repo_miner.py:98 | Authors [A, A, B, C, C, C] rank as C with 3, A with 2, B with 1 |
| `Summary.ClosedCount` | src/repo_miner.py:106 | The closed count is at most the number of issues |
| `Summary.ClosedCountIsCardinality` | src/repo_miner.py:106 | The closed count equals the number of rows whose state is "closed" |
| `Summary.CloseRate` | src/repo_miner.py:104-108 | With at least one issue, the close rate lies in [0, 1], and multiplied by the number of issues it gives the closed count |
| `Summary.CloseRateExample` | src/repo_miner.py:104-108 | Two closed and two open issues give a close rate of 0.5 |
| `Summary.DurationSum` | src/repo_miner.py:114-117 | `delta.sum()`: `closed - created` added up over the rows that have a closing time; a table with no closing time sums to 0, since every difference is NaT and skipped |
| `Summary.DurationSumAppend` | src/repo_miner.py:114-117 | The sum of a table split in two is the sum of the parts' sums |
| `Summary.DurationSumOfRow` | src/repo_miner.py:114-117 | A one-row table sums to `closed - created` when the row has a closing time and to 0 (NaT skipped) when it has none; with `DurationSumAppend` this fixes the sum of every table |
| `Summary.AverageDuration` | src/repo_miner.py:111-117 | With at least one closed issue, the average multiplied by the closed count gives the sum of `closed - created` over the rows that have a closing time |
| `Summary.FetchedRowConsistent` | src/repo_miner.py:70-75 | A fetched issue row has a closing time exactly when its state is "closed" |
| `Summary.DurationSumBounds` | src/repo_miner.py:114-117 | On such rows, if every closed duration lies in [lo, hi], the summed durations lie between `closed count * lo` and `closed count * hi` |
| `Summary.AverageWithinBounds` | src/repo_miner.py:111-117 | On such rows the average lies between any lower and any upper bound of the closed durations, so it is a true mean |
| `Summary.Summarize` | src/repo_miner.py:97-118 | The report lists at most five committers and has a close rate in [0, 1] |

## Left out

- The GitHub client, `os.getenv`, `Github(token)`, `get_repo`, `get_commits` and `get_issues` are external I/O. The token is a parameter, and each listing is an input sequence. The repository name and the issue `state` filter only choose what the API lists, so they are not parameters.
- Pagination is not modelled: the listing is already a complete sequence.
- Building the pandas `DataFrame`, CSV reading and writing, and `isoformat`/`pd.to_datetime` conversions are not modelled. Dates stay integer seconds. This also leaves out the zero-column table that a cap of 0 produces.
- `main`, the argparse dispatch and all `print` output are not modelled; `Summarize` returns the printed values as a `Report`.
- `round(closed_rate, 2)` and pandas' nanosecond `Timedelta` division are not modelled: the close rate and the average are exact quotients.
- Behaviour on zero issues or zero closed issues (NaN, infinity or NaT in pandas) is not modelled: `CloseRate`, `AverageDuration` and `Summarize` require non-zero denominators.
- Issues.RawIssue: `closedAt` is a plain instant that is read only for closed items. A closed item with no closing time, which would make the code raise a `TypeError`, cannot be expressed.
- Issues.ToRecord: the open-issue duration is the seconds elapsed up to a `now` parameter, not the wall clock and not a `timedelta` object.
- Issues.FetchIssues: the code reads `datetime.now` once per open item inside the loop (src/repo_miner.py:77), so two open issues of one fetch are measured against slightly different instants. The model measures every open issue of a fetch against the same `now`.
- Timestamps are whole seconds, so sub-second parts of API instants are not modelled.
- Summary.TopAuthorsOrdered: the order of authors with equal counts is not stated. The model's sort puts an earlier-seen author first, but `value_counts` does not document an order for ties.
- Summary.Summarize: its contract states only the bounds of the report. The properties of each part are proved on `TopAuthors`, `CloseRate` and `AverageDuration`, which it returns unchanged.
- Nullable authors and `value_counts` dropping missing authors are not modelled, because the code dereferences `author.name` without a check.
- The stray `test_fetch_issues_basic` at the end of `src/repo_miner.py` refers to undefined names and is not modelled.
