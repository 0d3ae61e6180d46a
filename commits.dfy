/** The commit fetcher: walks the repository's commit listing in the order
    the API delivers it, stops once the cap is reached, and flattens each
    commit into a record whose message is cut to its first line. */
module Commits {
  import opened Common
  import opened Text

  /** The author block of a git commit, as the API reports it. */
  datatype GitAuthor = GitAuthor(name: string, email: string, date: Timestamp)

  /** The git-level part of a listed commit (`commit.commit`). */
  datatype GitCommit = GitCommit(author: GitAuthor, message: string)

  /** One item of the API's commit listing. */
  datatype RawCommit = RawCommit(sha: string, commit: GitCommit)

  /** One row of the commits table. */
  datatype CommitRecord = CommitRecord(
    sha: string, author: string, email: string, date: Timestamp, message: string)

  /** The row built for one listed commit: the commit's fields, with the
      message cut just before its first newline. */
  function ToRecord(c: RawCommit): (r: CommitRecord)
    ensures r.sha == c.sha && r.date == c.commit.author.date
    ensures r.author == c.commit.author.name && r.email == c.commit.author.email
    ensures r.message <= c.commit.message && '\n' !in r.message
    ensures r.message == c.commit.message || c.commit.message[|r.message|] == '\n'
  {
    FirstLineIsPrefix(c.commit.message);
    CommitRecord(c.sha, c.commit.author.name, c.commit.author.email,
                 c.commit.author.date, FirstLine(c.commit.message))
  }

  /** `fetch_commits`: the token is checked before anything else; then the
      result holds, in listing order, one row for each of the first
      `Cap(maxCommits, |listing|)` listed commits, copied field by field,
      with the message reduced to its first line. */
  method FetchCommits(token: Option<string>, listing: seq<RawCommit>, maxCommits: Option<int>)
    returns (result: Result<seq<CommitRecord>, FetchError>)
    ensures result.Failure? <==> !HasToken(token)
    ensures result.Failure? ==> result.error == MissingToken
    ensures result.Success? ==> |result.value| == Cap(maxCommits, |listing|)
    ensures result.Success? ==>
      forall i :: 0 <= i < |result.value| ==>
        && result.value[i].sha == listing[i].sha
        && result.value[i].author == listing[i].commit.author.name
        && result.value[i].email == listing[i].commit.author.email
        && result.value[i].date == listing[i].commit.author.date
        && result.value[i].message == FirstLine(listing[i].commit.message)
        && '\n' !in result.value[i].message
  {
    if !HasToken(token) {
      return Failure(MissingToken);
    }
    var commits: seq<CommitRecord> := [];
    var i := 0;
    var pos := 0;
    while pos < |listing|
      invariant pos <= |listing|
      invariant i == pos == |commits|
      invariant maxCommits.Some? ==> i == 0 || i <= maxCommits.value
      invariant forall j :: 0 <= j < |commits| ==> commits[j] == ToRecord(listing[j])
    {
      if maxCommits.Some? && i >= maxCommits.value {
        break;
      }
      commits := commits + [ToRecord(listing[pos])];
      i := i + 1;
      pos := pos + 1;
    }
    return Success(commits);
  }

  /** A listed commit with the given sha, author name and message. */
  function Listed(sha: string, name: string, message: string): RawCommit {
    RawCommit(sha, GitCommit(GitAuthor(name, name + "@example.com", 0), message))
  }

  /** A cap of 3 over ten listed commits keeps sha0, sha1 and sha2. */
  method CapThreeOfTen() {
    var listing := [Listed("sha0", "A0", "Commit 0"), Listed("sha1", "A1", "Commit 1"),
                    Listed("sha2", "A2", "Commit 2"), Listed("sha3", "A3", "Commit 3"),
                    Listed("sha4", "A4", "Commit 4"), Listed("sha5", "A5", "Commit 5"),
                    Listed("sha6", "A6", "Commit 6"), Listed("sha7", "A7", "Commit 7"),
                    Listed("sha8", "A8", "Commit 8"), Listed("sha9", "A9", "Commit 9")];
    var result := FetchCommits(Some("fake-token"), listing, Some(3));
    assert result.Success?;
    var rows := result.value;
    assert |rows| == 3;
    assert [rows[0].sha, rows[1].sha, rows[2].sha] == ["sha0", "sha1", "sha2"];
  }

  /** A cap of 0 gives no rows; a missing or empty token gives the error. */
  method CapZeroAndMissingToken() {
    var listing := [Listed("sha1", "Alice", "Initial commit\nDetails")];
    var zero := FetchCommits(Some("fake-token"), listing, Some(0));
    assert zero == Success([]);
    var unset := FetchCommits(None, listing, None);
    assert unset == Failure(MissingToken);
    var empty := FetchCommits(Some(""), listing, None);
    assert empty == Failure(MissingToken);
    var all := FetchCommits(Some("fake-token"), listing, None);
    FirstLineExample();
    assert all.Success? && |all.value| == 1 && all.value[0].message == "Initial commit";
  }
}
