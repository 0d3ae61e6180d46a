/** The summarizer over the two saved tables: the five most frequent commit
    authors with their commit counts (`value_counts().head(5)`), the share
    of issues in the closed state, and the mean time from creation to
    closing over closed issues. */
module Summary {
  import opened Common
  import opened Commits
  import opened Issues

  /** One line of the top-committers list. */
  datatype AuthorCount = AuthorCount(author: string, commits: nat)

  /** The `author` column of the commits table. */
  function AuthorColumn(rows: seq<CommitRecord>): (authors: seq<string>)
    ensures |authors| == |rows|
    ensures forall i :: 0 <= i < |rows| ==> authors[i] == rows[i].author
  {
    seq(|rows|, i requires 0 <= i < |rows| => rows[i].author)
  }

  /** How many entries of `authors` are `a`. */
  function Count(authors: seq<string>, a: string): (n: nat)
    ensures n <= |authors|
    ensures n > 0 <==> a in authors
  {
    if authors == [] then 0
    else Count(authors[..|authors| - 1], a) + if authors[|authors| - 1] == a then 1 else 0
  }

  /** Each author once, in order of first appearance. */
  function Distinct(authors: seq<string>): (d: seq<string>)
    ensures forall a :: a in d <==> a in authors
    ensures forall i, j :: 0 <= i < j < |d| ==> d[i] != d[j]
  {
    if authors == [] then []
    else
      var seen := Distinct(authors[..|authors| - 1]);
      var last := authors[|authors| - 1];
      if last in seen then seen else seen + [last]
  }

  /** Every author with its number of rows: what `value_counts` counts. */
  function Tally(authors: seq<string>): (t: seq<AuthorCount>)
    ensures forall x :: x in t <==> x.author in authors && x.commits == Count(authors, x.author)
    ensures DistinctAuthors(t)
  {
    var d := Distinct(authors);
    var t := seq(|d|, i requires 0 <= i < |d| => AuthorCount(d[i], Count(authors, d[i])));
    assert forall x :: x in t ==> x.author in d;
    assert forall x: AuthorCount :: x.author in d && x.commits == Count(authors, x.author) ==> x in t by {
      forall x: AuthorCount | x.author in d && x.commits == Count(authors, x.author)
        ensures x in t
      {
        var i :| 0 <= i < |d| && d[i] == x.author;
        assert t[i] == x;
      }
    }
    t
  }

  ghost predicate DistinctAuthors(s: seq<AuthorCount>) {
    forall i, j :: 0 <= i < j < |s| ==> s[i].author != s[j].author
  }

  /** Counts never increase along the list. */
  ghost predicate ByCountDescending(s: seq<AuthorCount>) {
    forall i, j :: 0 <= i < j < |s| ==> s[i].commits >= s[j].commits
  }

  /** Puts `p` after every entry whose count is at least its own. */
  function Insert(p: AuthorCount, s: seq<AuthorCount>): (r: seq<AuthorCount>)
    ensures |r| == |s| + 1
    ensures multiset(r) == multiset(s) + multiset{p}
    ensures forall x :: x in r <==> x == p || x in s
  {
    if s == [] then [p]
    else if s[0].commits >= p.commits then
      assert s == [s[0]] + s[1..];
      [s[0]] + Insert(p, s[1..])
    else [p] + s
  }

  /** Inserting into a list ordered by descending count keeps it ordered. */
  lemma {:induction false} InsertKeepsOrder(p: AuthorCount, s: seq<AuthorCount>)
    requires ByCountDescending(s)
    ensures ByCountDescending(Insert(p, s))
  {
    if s != [] && s[0].commits >= p.commits {
      var rest := Insert(p, s[1..]);
      InsertKeepsOrder(p, s[1..]);
      forall k | 0 <= k < |rest|
        ensures s[0].commits >= rest[k].commits
      {
        assert rest[k] in rest;
        if rest[k] != p {
          var m :| 1 <= m < |s| && s[m] == rest[k];
        }
      }
    }
  }

  /** Inserting an entry for a new author keeps the authors distinct. */
  lemma {:induction false} InsertKeepsAuthorsDistinct(p: AuthorCount, s: seq<AuthorCount>)
    requires DistinctAuthors(s)
    requires forall x :: x in s ==> x.author != p.author
    ensures DistinctAuthors(Insert(p, s))
  {
    if s != [] && s[0].commits >= p.commits {
      var rest := Insert(p, s[1..]);
      InsertKeepsAuthorsDistinct(p, s[1..]);
      forall k | 0 <= k < |rest|
        ensures s[0].author != rest[k].author
      {
        assert rest[k] in rest;
        if rest[k] != p {
          var m :| 1 <= m < |s| && s[m] == rest[k];
        }
      }
    }
  }

  /** Sorts by descending count, one insertion at a time. */
  function SortByCount(s: seq<AuthorCount>): (r: seq<AuthorCount>)
    ensures |r| == |s|
    ensures multiset(r) == multiset(s)
    ensures forall x :: x in r <==> x in s
  {
    if s == [] then []
    else
      var init := s[..|s| - 1];
      assert s == init + [s[|s| - 1]];
      assert forall x :: x in init ==> x in s;
      Insert(s[|s| - 1], SortByCount(init))
  }

  /** The sorted list is ordered by descending count, and its authors stay
      distinct when they were. */
  lemma {:induction false} SortByCountOrders(s: seq<AuthorCount>)
    ensures ByCountDescending(SortByCount(s))
    ensures DistinctAuthors(s) ==> DistinctAuthors(SortByCount(s))
  {
    if s != [] {
      var init := s[..|s| - 1];
      var last := s[|s| - 1];
      SortByCountOrders(init);
      InsertKeepsOrder(last, SortByCount(init));
      if DistinctAuthors(s) {
        assert DistinctAuthors(init);
        forall x | x in SortByCount(init)
          ensures x.author != last.author
        {
          var m :| 0 <= m < |init| && init[m] == x;
        }
        InsertKeepsAuthorsDistinct(last, SortByCount(init));
      }
    }
  }

  /** Every author with its count, by descending count. */
  function Ranked(authors: seq<string>): (r: seq<AuthorCount>)
    ensures forall x :: x in r <==> x.author in authors && x.commits == Count(authors, x.author)
    ensures ByCountDescending(r)
    ensures DistinctAuthors(r)
  {
    SortByCountOrders(Tally(authors));
    SortByCount(Tally(authors))
  }

  /** `value_counts().head(5)` over a column of authors: the first five
      lines of the ranking, or all of it when it is shorter. */
  function TopAuthors(authors: seq<string>): (top: seq<AuthorCount>)
    ensures top <= Ranked(authors)
    ensures |Ranked(authors)| < 5 ==> top == Ranked(authors)
    ensures |Ranked(authors)| >= 5 ==> |top| == 5
  {
    var ranked := Ranked(authors);
    if |ranked| <= 5 then ranked else ranked[..5]
  }

  /** `commits_df["author"].value_counts().head(5)`. */
  function TopCommitters(rows: seq<CommitRecord>): (top: seq<AuthorCount>)
    ensures |top| <= 5
    ensures forall x :: x in top ==> exists i :: 0 <= i < |rows| && rows[i].author == x.author
  {
    var authors := AuthorColumn(rows);
    assert forall x :: x in TopAuthors(authors) ==> x in Ranked(authors);
    TopAuthors(authors)
  }

  /** The authors a list of counts names. */
  function ListedAuthors(top: seq<AuthorCount>): set<string> {
    set x | x in top :: x.author
  }

  /** An author missing from the first `n` lines of the ranked list has a
      line further down, so no more rows than the `n`-th line. */
  lemma LeftOutAuthors(authors: seq<string>, n: nat)
    requires n <= |Ranked(authors)|
    ensures forall a :: a in authors && a !in ListedAuthors(Ranked(authors)[..n]) ==>
      n < |Ranked(authors)| && (0 < n ==> Count(authors, a) <= Ranked(authors)[n - 1].commits)
  {
    var ranked := Ranked(authors);
    SortByCountOrders(Tally(authors));
    forall a | a in authors && a !in ListedAuthors(ranked[..n])
      ensures n < |ranked| && (0 < n ==> Count(authors, a) <= ranked[n - 1].commits)
    {
      var x := AuthorCount(a, Count(authors, a));
      assert x in ranked;
      var k :| 0 <= k < |ranked| && ranked[k] == x;
      assert k >= n;
      assert 0 < n ==> ranked[n - 1].commits >= ranked[k].commits;
    }
  }

  /** The top list has at most five lines, its counts never increase, and
      no author appears on two lines. */
  lemma TopAuthorsOrdered(authors: seq<string>)
    ensures |TopAuthors(authors)| <= 5
    ensures ByCountDescending(TopAuthors(authors))
    ensures DistinctAuthors(TopAuthors(authors))
  {
    SortByCountOrders(Tally(authors));
    var ranked := Ranked(authors);
    assert TopAuthors(authors) == ranked[..|TopAuthors(authors)|];
  }

  /** Each line names an author of the column with the number of rows that
      author has. */
  lemma TopAuthorsCounted(authors: seq<string>)
    ensures forall x :: x in TopAuthors(authors) ==>
      x.author in authors && x.commits == Count(authors, x.author)
  {
    var ranked := Ranked(authors);
    assert forall x :: x in TopAuthors(authors) ==> x in ranked;
  }

  /** No author left out has more rows than the last line listed; when
      fewer than five lines are listed, no author is left out. */
  lemma TopAuthorsLeaveOutNoLarger(authors: seq<string>)
    ensures |TopAuthors(authors)| < 5 ==>
      forall a :: a in authors ==> a in ListedAuthors(TopAuthors(authors))
    ensures |TopAuthors(authors)| == 5 ==>
      forall a :: a !in ListedAuthors(TopAuthors(authors)) ==>
        Count(authors, a) <= TopAuthors(authors)[4].commits
  {
    var top := TopAuthors(authors);
    assert top == Ranked(authors)[..|top|];
    LeftOutAuthors(authors, |top|);
  }

  /** The same for the commits table's author column. */
  lemma TopCommittersSpec(rows: seq<CommitRecord>)
    ensures |TopCommitters(rows)| <= 5
    ensures ByCountDescending(TopCommitters(rows))
    ensures DistinctAuthors(TopCommitters(rows))
    ensures forall x :: x in TopCommitters(rows) ==>
      x.author in AuthorColumn(rows) && x.commits == Count(AuthorColumn(rows), x.author)
    ensures |TopCommitters(rows)| < 5 ==>
      forall a :: a in AuthorColumn(rows) ==> a in ListedAuthors(TopCommitters(rows))
    ensures |TopCommitters(rows)| == 5 ==>
      forall a :: a !in ListedAuthors(TopCommitters(rows)) ==>
        Count(AuthorColumn(rows), a) <= TopCommitters(rows)[4].commits
  {
    TopAuthorsOrdered(AuthorColumn(rows));
    TopAuthorsCounted(AuthorColumn(rows));
    TopAuthorsLeaveOutNoLarger(AuthorColumn(rows));
  }

  /** The authors [A, A, B, C, C, C] rank as C with 3, A with 2, B with 1. */
  lemma TopAuthorsExample()
    ensures TopAuthors(["A", "A", "B", "C", "C", "C"])
         == [AuthorCount("C", 3), AuthorCount("A", 2), AuthorCount("B", 1)]
  {
    TallyExample();
    SortExample();
  }

  lemma TallyExample()
    ensures Tally(["A", "A", "B", "C", "C", "C"])
         == [AuthorCount("A", 2), AuthorCount("B", 1), AuthorCount("C", 3)]
  {
    DistinctExample();
    CountExample();
  }

  lemma SortExample()
    ensures SortByCount([AuthorCount("A", 2), AuthorCount("B", 1), AuthorCount("C", 3)])
         == [AuthorCount("C", 3), AuthorCount("A", 2), AuthorCount("B", 1)]
  {
    var tally := [AuthorCount("A", 2), AuthorCount("B", 1), AuthorCount("C", 3)];
    SortPairExample();
    assert tally[..|tally| - 1] == [AuthorCount("A", 2), AuthorCount("B", 1)];
  }

  lemma SortPairExample()
    ensures SortByCount([AuthorCount("A", 2), AuthorCount("B", 1)])
         == [AuthorCount("A", 2), AuthorCount("B", 1)]
  {
    var pair := [AuthorCount("A", 2), AuthorCount("B", 1)];
    assert pair[..1] == [AuthorCount("A", 2)] && pair[..1][..0] == [];
    assert SortByCount(pair[..1]) == [AuthorCount("A", 2)];
    assert Insert(AuthorCount("B", 1), []) == [AuthorCount("B", 1)];
  }

  lemma DistinctExample()
    ensures Distinct(["A", "A", "B", "C", "C", "C"]) == ["A", "B", "C"]
  {
    var authors := ["A", "A", "B", "C", "C", "C"];
    assert authors[..1] == ["A"] && authors[..1][..0] == [];
    assert Distinct(authors[..1]) == ["A"];
    assert authors[..2][..1] == authors[..1];
    assert Distinct(authors[..2]) == ["A"];
    assert authors[..3][..2] == authors[..2];
    assert Distinct(authors[..3]) == ["A", "B"];
    assert authors[..4][..3] == authors[..3];
    assert Distinct(authors[..4]) == ["A", "B", "C"];
    assert authors[..5][..4] == authors[..4];
    assert Distinct(authors[..5]) == ["A", "B", "C"];
    assert authors[..5] == authors[..|authors| - 1];
  }

  lemma CountExample()
    ensures Count(["A", "A", "B", "C", "C", "C"], "A") == 2
    ensures Count(["A", "A", "B", "C", "C", "C"], "B") == 1
    ensures Count(["A", "A", "B", "C", "C", "C"], "C") == 3
  {
    var authors := ["A", "A", "B", "C", "C", "C"];
    assert authors[..1] == ["A"] && authors[..1][..0] == [];
    assert authors[..2][..1] == authors[..1];
    assert authors[..3][..2] == authors[..2];
    assert authors[..4][..3] == authors[..3];
    assert authors[..5][..4] == authors[..4];
    assert authors[..5] == authors[..|authors| - 1];
    assert Count(authors[..2], "A") == 2 && Count(authors[..2], "B") == 0;
    assert Count(authors[..2], "C") == 0;
    assert Count(authors[..3], "A") == 2 && Count(authors[..3], "B") == 1;
    assert Count(authors[..3], "C") == 0;
    assert Count(authors[..4], "C") == 1;
    assert Count(authors[..5], "C") == 2;
  }

  /** `(issues_df['state'] == 'closed').sum()`. */
  function ClosedCount(issues: seq<IssueRecord>): (n: nat)
    ensures n <= |issues|
  {
    if issues == [] then 0
    else ClosedCount(issues[..|issues| - 1]) + if IsClosed(issues[|issues| - 1].state) then 1 else 0
  }

  /** The rows whose state is "closed". */
  function ClosedRows(issues: seq<IssueRecord>): set<nat> {
    set i | 0 <= i < |issues| && IsClosed(issues[i].state)
  }

  /** The closed count is the number of rows in the closed state. */
  lemma {:induction false} ClosedCountIsCardinality(issues: seq<IssueRecord>)
    ensures ClosedCount(issues) == |ClosedRows(issues)|
  {
    if issues != [] {
      var n := |issues| - 1;
      var init := issues[..n];
      ClosedCountIsCardinality(init);
      if IsClosed(issues[n].state) {
        assert ClosedRows(issues) == ClosedRows(init) + {n};
      } else {
        assert ClosedRows(issues) == ClosedRows(init);
      }
    }
  }

  /** `total_closed / num_issues`, before rounding: a share in [0, 1] that
      times the number of issues gives the closed count. */
  function CloseRate(issues: seq<IssueRecord>): (rate: real)
    requires |issues| > 0
    ensures 0.0 <= rate <= 1.0
    ensures rate * (|issues| as real) == ClosedCount(issues) as real
  {
    ClosedCount(issues) as real / |issues| as real
  }

  /** No row of the table has a closing time. */
  predicate NoneClosedAt(issues: seq<IssueRecord>) {
    forall i :: 0 <= i < |issues| ==> issues[i].closedAt.None?
  }

  /** `closed - created` summed over the rows that have a closing time (the
      other rows give NaT, which the sum skips). */
  function DurationSum(issues: seq<IssueRecord>): (total: int)
    ensures NoneClosedAt(issues) ==> total == 0
  {
    if issues == [] then 0
    else
      var last := issues[|issues| - 1];
      DurationSum(issues[..|issues| - 1])
        + if last.closedAt.Some? then last.closedAt.value - last.createdAt else 0
  }

  /** Summing a table split in two sums each part: the total depends on the
      rows, not on where the table is cut. */
  lemma {:induction false} DurationSumAppend(a: seq<IssueRecord>, b: seq<IssueRecord>)
    ensures DurationSum(a + b) == DurationSum(a) + DurationSum(b)
    decreases |b|
  {
    if b == [] {
      assert a + b == a;
    } else {
      var init := b[..|b| - 1];
      DurationSumAppend(a, init);
      assert (a + b)[..|a + b| - 1] == a + init;
    }
  }

  /** A one-row table sums to that row's `closed - created`, or to 0 when
      it has no closing time. */
  lemma DurationSumOfRow(r: IssueRecord)
    ensures DurationSum([r]) == if r.closedAt.Some? then r.closedAt.value - r.createdAt else 0
  {
    assert [r][..0] == [];
  }

  /** `delta.sum() / total_closed`: the summed durations shared out over the
      closed issues. */
  function AverageDuration(issues: seq<IssueRecord>): (avg: real)
    requires ClosedCount(issues) > 0
    ensures avg * (ClosedCount(issues) as real) == DurationSum(issues) as real
  {
    DurationSum(issues) as real / ClosedCount(issues) as real
  }

  /** A row as the issue fetcher writes it: a closing time exactly when the
      state is "closed". */
  predicate Consistent(r: IssueRecord) {
    r.closedAt.Some? <==> IsClosed(r.state)
  }

  /** Every row the issue fetcher produces is consistent. */
  lemma FetchedRowConsistent(x: RawIssue, now: Timestamp)
    ensures Consistent(Issues.ToRecord(x, now))
  {
  }

  /** Over consistent rows the summed durations lie between the closed count
      times any lower bound and times any upper bound of the durations. */
  lemma {:induction false} DurationSumBounds(issues: seq<IssueRecord>, lo: int, hi: int)
    requires forall i :: 0 <= i < |issues| ==> Consistent(issues[i])
    requires forall i :: 0 <= i < |issues| && issues[i].closedAt.Some? ==>
      lo <= issues[i].closedAt.value - issues[i].createdAt <= hi
    ensures ClosedCount(issues) * lo <= DurationSum(issues) <= ClosedCount(issues) * hi
  {
    if issues != [] {
      var init := issues[..|issues| - 1];
      var last := issues[|issues| - 1];
      DurationSumBounds(init, lo, hi);
      var c := ClosedCount(init);
      var t := DurationSum(init);
      if IsClosed(last.state) {
        var d := last.closedAt.value - last.createdAt;
        assert ClosedCount(issues) == c + 1 && DurationSum(issues) == t + d;
        OneMoreWithinBounds(c, t, d, lo, hi);
      } else {
        assert ClosedCount(issues) == c && DurationSum(issues) == t;
      }
    }
  }

  /** Adding one duration within [lo, hi] to a sum of `c` such durations
      gives a sum of `c + 1` of them. */
  lemma OneMoreWithinBounds(c: int, t: int, d: int, lo: int, hi: int)
    requires c * lo <= t <= c * hi
    requires lo <= d <= hi
    ensures (c + 1) * lo <= t + d <= (c + 1) * hi
  {
    assert (c + 1) * lo == c * lo + lo && (c + 1) * hi == c * hi + hi;
  }

  /** A quotient of integers lies between the bounds its dividend lies
      between, scaled by the divisor. */
  lemma QuotientBounds(sum: int, n: int, lo: int, hi: int)
    requires n > 0
    requires n * lo <= sum <= n * hi
    ensures lo as real <= sum as real / n as real <= hi as real
  {
    var q := sum as real / n as real;
    var nr := n as real;
    assert q * nr == sum as real;
    assert (n * lo) as real == nr * lo as real;
    assert (n * hi) as real == nr * hi as real;
    assert (q - lo as real) * nr >= 0.0;
    assert (hi as real - q) * nr >= 0.0;
  }

  /** On the fetcher's rows the average is a true mean: it lies between the
      shortest and the longest time a closed issue stayed open. */
  lemma AverageWithinBounds(issues: seq<IssueRecord>, lo: int, hi: int)
    requires forall i :: 0 <= i < |issues| ==> Consistent(issues[i])
    requires forall i :: 0 <= i < |issues| && issues[i].closedAt.Some? ==>
      lo <= issues[i].closedAt.value - issues[i].createdAt <= hi
    requires ClosedCount(issues) > 0
    ensures lo as real <= AverageDuration(issues) <= hi as real
  {
    DurationSumBounds(issues, lo, hi);
    QuotientBounds(DurationSum(issues), ClosedCount(issues), lo, hi);
  }

  /** What `merge_and_summarize` prints. */
  datatype Report = Report(topCommitters: seq<AuthorCount>, closeRate: real, averageDuration: real)

  /** `merge_and_summarize`, on an issues table with at least one closed
      issue (the division by zero is not guarded). */
  function Summarize(commits: seq<CommitRecord>, issues: seq<IssueRecord>): (r: Report)
    requires ClosedCount(issues) > 0
    ensures |r.topCommitters| <= 5
    ensures 0.0 <= r.closeRate <= 1.0
  {
    Report(TopCommitters(commits), CloseRate(issues), AverageDuration(issues))
  }

  /** Two closed and two open issues give a close rate of one half. */
  lemma CloseRateExample(a: IssueRecord, b: IssueRecord, c: IssueRecord, d: IssueRecord)
    requires a.state == "closed" && b.state == "open" && c.state == "closed" && d.state == "open"
    ensures CloseRate([a, b, c, d]) == 0.5
  {
    var s := [a, b, c, d];
    assert [a][..0] == [];
    assert ClosedCount([a]) == 1;
    assert [a, b][..1] == [a];
    assert ClosedCount([a, b]) == 1;
    assert [a, b, c][..2] == [a, b];
    assert ClosedCount([a, b, c]) == 2;
    assert s[..3] == [a, b, c];
    assert ClosedCount(s) == 2;
  }
}
