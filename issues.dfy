/** The issue fetcher: walks the repository's issue listing, skips the pull
    requests the listing mixes in, stops once the cap is reached (counting
    real issues only), and flattens each issue into a record with its
    open duration. */
module Issues {
  import opened Common

  /** One item of the API's issue listing. `closedAt` is the closing instant,
      which the API reports for every closed item and which is read for
      closed items only. `pullRequest` is the pull-request reference the API
      attaches to items that are pull requests. */
  datatype RawIssue = RawIssue(
    id: int, number: int, title: string, user: string, state: string,
    createdAt: Timestamp, closedAt: Timestamp, comments: int,
    pullRequest: Option<string>)

  /** The `open_duration_day` column: whole days for a closed issue, but the
      raw elapsed time up to the moment of fetching for any other issue. */
  datatype Duration = Days(days: int) | Elapsed(seconds: int)

  /** One row of the issues table. */
  datatype IssueRecord = IssueRecord(
    id: int, number: int, title: string, user: string, state: string,
    createdAt: Timestamp, closedAt: Option<Timestamp>, openDuration: Duration,
    comments: int)

  /** The state test of the fetch loop, `issue.state == "closed"`. */
  predicate IsClosed(state: string) {
    state == "closed"
  }

  predicate IsPullRequest(x: RawIssue) {
    x.pullRequest.Some?
  }

  /** The row built for one listed issue fetched at instant `now`. A closed
      issue keeps its closing time and gets the number of whole days it was
      open, rounded down; any other issue gets no closing time and the
      seconds elapsed since it was created. */
  function ToRecord(x: RawIssue, now: Timestamp): (r: IssueRecord)
    ensures r.id == x.id && r.number == x.number && r.title == x.title && r.user == x.user
    ensures r.state == x.state && r.createdAt == x.createdAt && r.comments == x.comments
    ensures IsClosed(x.state) ==>
      && r.closedAt == Some(x.closedAt)
      && r.openDuration.Days?
      && r.openDuration.days * SecondsPerDay <= x.closedAt - x.createdAt
      && x.closedAt - x.createdAt < (r.openDuration.days + 1) * SecondsPerDay
    ensures !IsClosed(x.state) ==> r.closedAt == None && r.openDuration == Elapsed(now - x.createdAt)
  {
    var (closedAt, duration) :=
      if IsClosed(x.state) then (Some(x.closedAt), Days(FloorDays(x.closedAt - x.createdAt)))
      else (None, Elapsed(now - x.createdAt));
    IssueRecord(x.id, x.number, x.title, x.user, x.state, x.createdAt, closedAt, duration, x.comments)
  }

  /** The row that the fetch loop assembles from the closing time and the
      duration it has just computed is the row ToRecord describes. */
  lemma RecordOfIssue(x: RawIssue, now: Timestamp, closedAt: Option<Timestamp>, duration: Duration)
    requires IsClosed(x.state) ==>
      closedAt == Some(x.closedAt) && duration == Days(FloorDays(x.closedAt - x.createdAt))
    requires !IsClosed(x.state) ==> closedAt == None && duration == Elapsed(now - x.createdAt)
    ensures IssueRecord(x.id, x.number, x.title, x.user, x.state, x.createdAt, closedAt, duration,
                        x.comments) == ToRecord(x, now)
  {
  }

  /** The listing with its pull requests removed, order kept. */
  function NonPullRequests(s: seq<RawIssue>): (r: seq<RawIssue>)
    ensures |r| <= |s|
    ensures forall j :: 0 <= j < |r| ==> !IsPullRequest(r[j])
  {
    if s == [] then []
    else
      var last := s[|s| - 1];
      NonPullRequests(s[..|s| - 1]) + if IsPullRequest(last) then [] else [last]
  }

  /** An item survives the filter exactly when it is listed and is not a
      pull request. */
  lemma {:induction false} NonPullRequestsMembers(s: seq<RawIssue>, x: RawIssue)
    ensures x in NonPullRequests(s) <==> x in s && !IsPullRequest(x)
  {
    if s != [] {
      var init := s[..|s| - 1];
      NonPullRequestsMembers(init, x);
      assert s == init + [s[|s| - 1]];
    }
  }

  /** Filtering a listing split in two filters each part in turn: the order
      of the surviving issues is the listing's order. */
  lemma {:induction false} NonPullRequestsAppend(a: seq<RawIssue>, b: seq<RawIssue>)
    ensures NonPullRequests(a + b) == NonPullRequests(a) + NonPullRequests(b)
    decreases |b|
  {
    if b == [] {
      assert a + b == a;
    } else {
      var init := b[..|b| - 1];
      NonPullRequestsAppend(a, init);
      assert (a + b)[..|a + b| - 1] == a + init;
    }
  }

  /** One more listed item extends the issues kept so far by itself,
      unless it is a pull request. */
  lemma KeptStep(listing: seq<RawIssue>, pos: nat)
    requires pos < |listing|
    ensures NonPullRequests(listing[..pos + 1]) ==
      NonPullRequests(listing[..pos]) + if IsPullRequest(listing[pos]) then [] else [listing[pos]]
  {
    assert listing[..pos + 1] == listing[..pos] + [listing[pos]];
    assert [listing[pos]][..0] == [];
    NonPullRequestsAppend(listing[..pos], [listing[pos]]);
  }

  /** The issues kept from a prefix of the listing are the first ones kept
      from the whole listing. */
  lemma KeptPrefix(listing: seq<RawIssue>, pos: nat)
    requires pos <= |listing|
    ensures |NonPullRequests(listing[..pos])| <= |NonPullRequests(listing)|
    ensures NonPullRequests(listing[..pos])
         == NonPullRequests(listing)[..|NonPullRequests(listing[..pos])|]
  {
    assert listing == listing[..pos] + listing[pos..];
    NonPullRequestsAppend(listing[..pos], listing[pos..]);
  }

  /** The issues a fetch capped at `max` turns into rows: the first
      `Cap(max, k)` of the `k` listed items that are not pull requests. */
  function FirstIssues(listing: seq<RawIssue>, max: Option<int>): (kept: seq<RawIssue>)
    ensures |kept| == Cap(max, |NonPullRequests(listing)|)
    ensures kept <= NonPullRequests(listing)
  {
    var all := NonPullRequests(listing);
    all[..Cap(max, |all|)]
  }

  /** `fetch_issues`: the token is checked before anything else; then the
      result holds, in listing order, one row for each of the first
      `Cap(maxIssues, k)` items that are not pull requests, where `k` is how
      many such items the listing has. Pull requests neither produce a row
      nor count towards the cap. */
  method FetchIssues(token: Option<string>, listing: seq<RawIssue>, maxIssues: Option<int>,
                     now: Timestamp)
    returns (result: Result<seq<IssueRecord>, FetchError>)
    ensures result.Failure? <==> !HasToken(token)
    ensures result.Failure? ==> result.error == MissingToken
    ensures result.Success? ==> |result.value| == |FirstIssues(listing, maxIssues)|
    ensures result.Success? ==>
      forall j :: 0 <= j < |result.value| ==>
        result.value[j] == ToRecord(FirstIssues(listing, maxIssues)[j], now)
  {
    if !HasToken(token) {
      return Failure(MissingToken);
    }
    var issues: seq<IssueRecord> := [];
    var i := 0;
    var pos := 0;
    ghost var kept: seq<RawIssue> := [];
    while pos < |listing|
      invariant pos <= |listing|
      invariant kept == NonPullRequests(listing[..pos])
      invariant i == |issues| == |kept|
      invariant maxIssues.Some? ==> i == 0 || i <= maxIssues.value
      invariant forall j :: 0 <= j < |issues| ==> issues[j] == ToRecord(kept[j], now)
    {
      if maxIssues.Some? && i >= maxIssues.value {
        break;
      }
      var issue := listing[pos];
      var closedAt: Option<Timestamp>;
      var duration: Duration;
      if IsClosed(issue.state) {
        duration := Days(FloorDays(issue.closedAt - issue.createdAt));
        closedAt := Some(issue.closedAt);
      } else {
        closedAt := None;
        duration := Elapsed(now - issue.createdAt);
      }
      KeptStep(listing, pos);
      if issue.pullRequest == None {
        var record := IssueRecord(issue.id, issue.number, issue.title, issue.user, issue.state,
                                  issue.createdAt, closedAt, duration, issue.comments);
        RecordOfIssue(issue, now, closedAt, duration);
        issues := issues + [record];
        kept := kept + [issue];
        i := i + 1;
      }
      pos := pos + 1;
    }
    KeptPrefix(listing, pos);
    assert listing[..|listing|] == listing;
    return Success(issues);
  }

  /** No row of a successful fetch comes from a pull request: each row is
      the row of a listed item that is not one. */
  lemma FetchedRowsComeFromIssues(listing: seq<RawIssue>, rows: seq<IssueRecord>,
                                  maxIssues: Option<int>, now: Timestamp, j: nat)
    requires |rows| == |FirstIssues(listing, maxIssues)|
    requires forall k :: 0 <= k < |rows| ==> rows[k] == ToRecord(FirstIssues(listing, maxIssues)[k], now)
    requires j < |rows|
    ensures exists x :: x in listing && !IsPullRequest(x) && rows[j] == ToRecord(x, now)
  {
    var x := FirstIssues(listing, maxIssues)[j];
    assert x == NonPullRequests(listing)[j];
    NonPullRequestsMembers(listing, x);
  }

  /** The closed issue of the issue tests, open from 2023-10-01T12:00:00 to
      2023-10-05T15:30:00 UTC, is four whole days old; the open one gets no
      closing time; a pull request in between is skipped. */
  method ClosedAndOpenIssues(now: Timestamp) {
    var created := 1696161600;
    var closed := 1696519800;
    var listing := [
      RawIssue(101, 42, "Dummy", "Alice", "closed", created, closed, 0, None),
      RawIssue(102, 43, "A change", "Carol", "open", created, 0, 0, Some("pulls/43")),
      RawIssue(103, 44, "Dummy", "Blice", "open", created, 0, 0, None)];
    var result := FetchIssues(Some("fake-token"), listing, Some(50), now);
    assert listing[..2][..1] == listing[..1] && listing[..1][..0] == [];
    assert NonPullRequests(listing[..2]) == [listing[0]];
    assert NonPullRequests(listing) == [listing[0], listing[2]];
    assert result.Success? && |result.value| == 2;
    assert result.value[0].openDuration == Days(4);
    assert result.value[1].closedAt == None && result.value[1].id == 103;
    var one := FetchIssues(Some("fake-token"), listing, Some(1), now);
    assert one.Success? && |one.value| == 1 && one.value[0].id == 101;
  }
}
