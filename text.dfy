/** Line handling for commit messages: Python's `str.split('\n')` and the
    first line it yields, `split('\n')[0]`. */
module Text {

  /** The pieces of `s` between newline characters, as `s.split('\n')`:
      always at least one piece, and no piece holds a newline. */
  function Split(s: string): (parts: seq<string>)
    ensures |parts| >= 1
    ensures forall i :: 0 <= i < |parts| ==> '\n' !in parts[i]
    decreases |s|
  {
    if s == [] then [[]]
    else
      var rest := Split(s[1..]);
      if s[0] == '\n' then [[]] + rest
      else [[s[0]] + rest[0]] + rest[1..]
  }

  /** `'\n'.join(parts)`, the inverse of Split. */
  function Join(parts: seq<string>): (s: string)
    requires |parts| >= 1
    decreases |parts|
  {
    if |parts| == 1 then parts[0] else parts[0] + ['\n'] + Join(parts[1..])
  }

  /** Splitting and joining again gives back the message unchanged. */
  lemma {:induction false} JoinSplit(s: string)
    ensures Join(Split(s)) == s
    decreases |s|
  {
    if s != [] {
      var rest := Split(s[1..]);
      JoinSplit(s[1..]);
      if s[0] == '\n' {
        assert Split(s) == [[]] + rest;
        assert Split(s)[1..] == rest;
      } else {
        var parts := Split(s);
        assert parts == [[s[0]] + rest[0]] + rest[1..];
        if |rest| == 1 {
          assert parts == [[s[0]] + rest[0]];
        } else {
          assert parts[1..] == rest[1..];
          assert Join(rest) == rest[0] + ['\n'] + Join(rest[1..]);
        }
      }
    }
  }

  /** The first line of a message, as `message.split('\n')[0]`. */
  function FirstLine(s: string): (line: string)
    ensures '\n' !in line
  {
    Split(s)[0]
  }

  /** The first line is the part of the message before its first newline:
      a prefix of the message that is either all of it or is followed by a
      newline in the message. */
  lemma FirstLineIsPrefix(s: string)
    ensures FirstLine(s) <= s
    ensures FirstLine(s) == s || (|FirstLine(s)| < |s| && s[|FirstLine(s)|] == '\n')
  {
    var parts := Split(s);
    JoinSplit(s);
    if |parts| > 1 {
      assert s == parts[0] + (['\n'] + Join(parts[1..]));
    }
  }

  /** A message without a newline is its own first line. */
  lemma FirstLineOfSingleLine(s: string)
    requires '\n' !in s
    ensures FirstLine(s) == s
  {
    FirstLineIsPrefix(s);
  }

  /** Truncating a message a second time changes nothing. */
  lemma FirstLineIdempotent(s: string)
    ensures FirstLine(FirstLine(s)) == FirstLine(s)
  {
    FirstLineOfSingleLine(FirstLine(s));
  }

  /** When the first newline of a message sits at index `k`, the first line
      is exactly the `k` characters before it. */
  lemma FirstLineBeforeNewline(s: string, k: nat)
    requires k < |s| && s[k] == '\n'
    requires forall j :: 0 <= j < k ==> s[j] != '\n'
    ensures FirstLine(s) == s[..k]
  {
    FirstLineIsPrefix(s);
  }

  /** "Initial commit\nDetails" keeps "Initial commit". */
  lemma FirstLineExample()
    ensures FirstLine("Initial commit\nDetails") == "Initial commit"
  {
    FirstLineBeforeNewline("Initial commit\nDetails", 14);
  }
}
