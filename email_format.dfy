/** The e-mail check of the login payload: the pattern
    `[^@]+@[^@]+\.[^@]+` applied with Python's `re.match`, which anchors the
    match at the start of the string only. */
module EmailFormat {
  import opened Schema

  predicate NoAt(s: string) {
    forall i :: 0 <= i < |s| ==> s[i] != '@'
  }

  /** The pattern matches the prefix s[..end] with its '@' at `at` and its
      literal '.' at `dot`: three non-empty runs of non-'@' characters around
      them. */
  ghost predicate MatchSplit(s: string, at: int, dot: int, end: int) {
    0 < at && at + 1 < dot && dot + 1 < end <= |s| &&
    s[at] == '@' && s[dot] == '.' &&
    NoAt(s[..at]) && NoAt(s[at + 1..dot]) && NoAt(s[dot + 1..end])
  }

  /** `re.match` succeeds: some prefix of `s` matches the pattern, however
      the greedy runs backtrack. This is the reference meaning. */
  ghost predicate PatternMatches(s: string) {
    exists at, dot, end :: MatchSplit(s, at, dot, end)
  }

  /** The index of the first '@' in `s`, or |s| when there is none. */
  function FirstAt(s: string): (i: nat)
    ensures i <= |s| && NoAt(s[..i])
    ensures i < |s| ==> s[i] == '@'
  {
    if s == [] then 0
    else if s[0] == '@' then 0
    else
      var i := 1 + FirstAt(s[1..]);
      assert s[..i] == [s[0]] + s[1..][..i - 1];
      i
  }

  /** The text after the first '@', up to the next '@' or the end. */
  function Domain(s: string): (d: string)
    requires FirstAt(s) < |s|
    ensures NoAt(d)
  {
    var rest := s[FirstAt(s) + 1..];
    rest[..FirstAt(rest)]
  }

  /** A '.' with at least one character on either side. */
  predicate HasInnerDot(d: string) {
    exists i :: 1 <= i <= |d| - 2 && d[i] == '.'
  }

  /** A direct test: a non-empty local part before the first '@', and an
      inner '.' in the domain. */
  predicate IsValidEmail(s: string) {
    0 < FirstAt(s) < |s| && HasInnerDot(Domain(s))
  }

  /** `validate_email`: the value back unchanged, or "Invalid Email Format". */
  function ValidateEmail(value: string): (r: Result<string>)
    ensures r.Ok? <==> PatternMatches(value)
    ensures r.Ok? ==> r.value == value
    ensures r.Err? ==> r.error == ValueError("Invalid Email Format")
  {
    ValidIffMatches(value);
    if IsValidEmail(value) then Ok(value) else Err(ValueError("Invalid Email Format"))
  }

  /** The first '@' is the one at `at` when nothing before it is an '@'. */
  lemma FirstAtIs(s: string, at: int)
    requires 0 <= at < |s| && s[at] == '@' && NoAt(s[..at])
    ensures FirstAt(s) == at
  {
  }

  /** No '@' in the first j characters puts the first '@' at j or later. */
  lemma FirstAtAtLeast(s: string, j: int)
    requires 0 <= j <= |s| && NoAt(s[..j])
    ensures FirstAt(s) >= j
  {
  }

  /** The direct test and the pattern accept the same strings. */
  lemma ValidIffMatches(s: string)
    ensures IsValidEmail(s) <==> PatternMatches(s)
  {
    if IsValidEmail(s) {
      ValidGivesSplit(s);
    }
    if PatternMatches(s) {
      var at, dot, end :| MatchSplit(s, at, dot, end);
      SplitGivesValid(s, at, dot, end);
    }
  }

  lemma ValidGivesSplit(s: string)
    requires IsValidEmail(s)
    ensures PatternMatches(s)
  {
    var at := FirstAt(s);
    var d := Domain(s);
    var i :| 1 <= i <= |d| - 2 && d[i] == '.';
    var dot, end := at + 1 + i, at + 3 + i;
    assert d == s[at + 1..][..FirstAt(s[at + 1..])];
    assert s[at + 1..dot] == d[..i];
    assert s[dot] == d[i];
    assert s[dot + 1..end] == [d[i + 1]];
    assert NoAt(s[at + 1..dot]);
    assert NoAt(s[dot + 1..end]);
    assert MatchSplit(s, at, dot, end);
  }

  lemma SplitGivesValid(s: string, at: int, dot: int, end: int)
    requires MatchSplit(s, at, dot, end)
    ensures IsValidEmail(s)
  {
    FirstAtIs(s, at);
    var rest := s[at + 1..];
    var n := end - at - 1;
    assert rest[..n] == s[at + 1..dot] + [s[dot]] + s[dot + 1..end];
    assert NoAt(rest[..n]);
    FirstAtAtLeast(rest, n);
    var d := Domain(s);
    assert d == rest[..FirstAt(rest)];
    assert d[dot - at - 1] == '.';
  }

  /** Text after a match does not matter: `re.match` only anchors the
      start, so a string that is accepted stays accepted whatever follows. */
  lemma {:induction false} TrailingTextAccepted(s: string, t: string)
    requires IsValidEmail(s)
    ensures IsValidEmail(s + t)
  {
    ValidIffMatches(s);
    var at, dot, end :| MatchSplit(s, at, dot, end);
    var u := s + t;
    assert u[..at] == s[..at] && u[at + 1..dot] == s[at + 1..dot] && u[dot + 1..end] == s[dot + 1..end];
    assert MatchSplit(u, at, dot, end);
    ValidIffMatches(u);
  }

  /** A string with no '@', or whose first character is '@', is rejected;
      the empty string is one of them. */
  lemma RejectsWithoutLocalPart(s: string)
    requires NoAt(s) || (|s| > 0 && s[0] == '@')
    ensures ValidateEmail(s) == Err(ValueError("Invalid Email Format"))
  {
    if NoAt(s) {
      FirstAtAtLeast(s, |s|);
      assert s[..|s|] == s;
    }
  }

  lemma AcceptsTrailingAddress()
    ensures ValidateEmail("a@b.c@x") == Ok("a@b.c@x")
  {
    var s := "a@b.c@x";
    FirstAtIs(s, 1);
    assert Domain(s) == "b.c" by { FirstAtIs(s[2..], 3); }
    assert Domain(s)[1] == '.';
  }

  lemma RejectsDotNextToAt()
    ensures ValidateEmail("a@.bc").Err? && ValidateEmail("a@bc.").Err?
  {
    var s, u := "a@.bc", "a@bc.";
    FirstAtIs(s, 1);
    FirstAtIs(u, 1);
    FirstAtAtLeast(s[2..], 3);
    FirstAtAtLeast(u[2..], 3);
  }
}
