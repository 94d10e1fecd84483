/** The e-mail pattern `/^[^\s@]+@[^\s@]+\.[^\s@]+$/` of the contact and the
    adoption forms, as an explicit check on the characters of the string, and
    the proof that the check accepts exactly the strings the pattern matches. */
module Email {
  import opened Text

  /** Occurrences of `c` in `s`. */
  function Count(s: string, c: char): (n: nat)
    ensures n <= |s|
  {
    if s == [] then 0 else (if s[0] == c then 1 else 0) + Count(s[1..], c)
  }

  /** No occurrence is counted exactly when `c` does not occur. */
  lemma {:induction false} CountZero(s: string, c: char)
    ensures Count(s, c) == 0 <==> forall i :: 0 <= i < |s| ==> s[i] != c
  {
    if s != [] {
      CountZero(s[1..], c);
      assert forall i :: 1 <= i < |s| ==> s[i] == s[1..][i - 1];
    }
  }

  lemma {:induction false} CountConcat(a: string, b: string, c: char)
    ensures Count(a + b, c) == Count(a, c) + Count(b, c)
  {
    if a == [] {
      assert a + b == b;
    } else {
      assert (a + b)[1..] == a[1..] + b;
      CountConcat(a[1..], b, c);
    }
  }

  /** Position of the first `c` in `s`, or `|s|` when there is none. */
  function IndexOf(s: string, c: char): (k: nat)
    ensures k <= |s|
    ensures k < |s| ==> s[k] == c
    ensures forall i :: 0 <= i < k ==> s[i] != c
  {
    if s == [] then 0 else if s[0] == c then 0 else 1 + IndexOf(s[1..], c)
  }

  predicate HasWhitespace(s: string) {
    exists i :: 0 <= i < |s| && IsWhitespace(s[i])
  }

  /** A `.` that is neither the first nor the last character. */
  predicate HasInnerDot(d: string) {
    exists k :: 0 < k < |d| - 1 && d[k] == '.'
  }

  /** The e-mail check: no white space, exactly one `@`, something before it,
      and a domain after it that has a `.` with characters on both sides. */
  predicate IsEmailAddress(s: string): (ok: bool)
    ensures ok ==> 5 <= |s| && s[0] != '@' && !IsWhitespace(s[0])
  {
    var at := IndexOf(s, '@');
    !HasWhitespace(s) && Count(s, '@') == 1 && 0 < at < |s| && HasInnerDot(s[at + 1..])
  }

  /** One or more characters from the class `[^\s@]`. */
  predicate IsRun(s: string) {
    s != [] && forall i :: 0 <= i < |s| ==> !IsWhitespace(s[i]) && s[i] != '@'
  }

  /** The anchored pattern `^[^\s@]+@[^\s@]+\.[^\s@]+$`, read off the regular
      expression: a run, `@`, a run, `.`, a run, and nothing else. */
  ghost predicate MatchesEmailPattern(s: string) {
    exists a, d ::
      0 < a < d < |s| - 1 && s[a] == '@' && s[d] == '.'
      && IsRun(s[..a]) && IsRun(s[a + 1..d]) && IsRun(s[d + 1..])
  }

  /** A slice free of `@` of a string free of white space is a run. */
  lemma SliceIsRun(s: string, i: int, j: int)
    requires 0 <= i < j <= |s| && !HasWhitespace(s)
    requires forall l :: i <= l < j ==> s[l] != '@'
    ensures IsRun(s[i..j])
  {
    forall l | 0 <= l < j - i ensures !IsWhitespace(s[i..j][l]) && s[i..j][l] != '@' {
      assert s[i..j][l] == s[i + l];
    }
  }

  /** After the first `@` of a string with one `@` there is no other. */
  lemma {:induction false} NoAtAfterOnlyAt(s: string)
    requires Count(s, '@') == 1
    ensures IndexOf(s, '@') < |s|
    ensures forall l :: IndexOf(s, '@') < l < |s| ==> s[l] != '@'
  {
    if s[0] == '@' {
      CountZero(s[1..], '@');
      assert forall l :: 0 < l < |s| ==> s[l] == s[1..][l - 1];
    } else {
      NoAtAfterOnlyAt(s[1..]);
      assert forall l :: 0 < l < |s| ==> s[l] == s[1..][l - 1];
    }
  }

  lemma CheckImpliesPattern(s: string)
    requires IsEmailAddress(s)
    ensures MatchesEmailPattern(s)
  {
    var at := IndexOf(s, '@');
    var dom := s[at + 1..];
    var k :| 0 < k < |dom| - 1 && dom[k] == '.';
    var d := at + 1 + k;
    NoAtAfterOnlyAt(s);
    SliceIsRun(s, 0, at);
    SliceIsRun(s, at + 1, d);
    SliceIsRun(s, d + 1, |s|);
    assert s[..at] == s[0..at];
    assert s[d + 1..] == s[d + 1..|s|];
    assert s[d] == dom[k];
    assert 0 < at < d < |s| - 1 && s[at] == '@' && s[d] == '.'
      && IsRun(s[..at]) && IsRun(s[at + 1..d]) && IsRun(s[d + 1..]);
  }

  /** A string of three runs joined by `@` and `.` has exactly one `@`. */
  lemma CountOfPatternParts(local: string, mid: string, top: string)
    requires IsRun(local) && IsRun(mid) && IsRun(top)
    ensures Count(local + ['@'] + mid + ['.'] + top, '@') == 1
  {
    CountConcat(local + ['@'] + mid + ['.'], top, '@');
    CountConcat(local + ['@'] + mid, ['.'], '@');
    CountConcat(local + ['@'], mid, '@');
    CountConcat(local, ['@'], '@');
    CountZero(local, '@');
    CountZero(mid, '@');
    CountZero(top, '@');
  }

  /** ... and no white space. */
  lemma NoWhitespaceOfPatternParts(local: string, mid: string, top: string)
    requires IsRun(local) && IsRun(mid) && IsRun(top)
    ensures !HasWhitespace(local + ['@'] + mid + ['.'] + top)
  {
    var s := local + ['@'] + mid + ['.'] + top;
    var a, d := |local|, |local| + 1 + |mid|;
    forall i | 0 <= i < |s| ensures !IsWhitespace(s[i]) {
      if i < a { assert s[i] == local[i]; }
      else if i == a { assert s[i] == '@'; }
      else if i < d { assert s[i] == mid[i - a - 1]; }
      else if i == d { assert s[i] == '.'; }
      else { assert s[i] == top[i - d - 1]; }
    }
  }

  /** The first `@` after a run is the one that ends it. */
  lemma {:induction false} IndexOfAfterRun(local: string, rest: string)
    requires IsRun(local) && rest != [] && rest[0] == '@'
    ensures IndexOf(local + rest, '@') == |local|
  {
    if |local| > 1 {
      assert (local + rest)[1..] == local[1..] + rest;
      IndexOfAfterRun(local[1..], rest);
    }
  }

  /** Three runs joined by `@` and `.` pass the check. */
  lemma PatternPartsPassCheck(s: string, local: string, mid: string, top: string)
    requires IsRun(local) && IsRun(mid) && IsRun(top)
    requires s == local + ['@'] + mid + ['.'] + top
    ensures IsEmailAddress(s)
  {
    var rest := ['@'] + mid + ['.'] + top;
    assert s == local + rest;
    CountOfPatternParts(local, mid, top);
    NoWhitespaceOfPatternParts(local, mid, top);
    IndexOfAfterRun(local, rest);
    var dom := s[|local| + 1..];
    assert dom == mid + ['.'] + top;
    assert dom[|mid|] == '.';
  }

  lemma PatternImpliesCheck(s: string)
    requires MatchesEmailPattern(s)
    ensures IsEmailAddress(s)
  {
    var a, d :| 0 < a < d < |s| - 1 && s[a] == '@' && s[d] == '.'
      && IsRun(s[..a]) && IsRun(s[a + 1..d]) && IsRun(s[d + 1..]);
    SplitAround(s, a, d);
    PatternPartsPassCheck(s, s[..a], s[a + 1..d], s[d + 1..]);
  }

  /** A string is the concatenation of its pieces around positions `a` and `d`. */
  lemma SplitAround(s: string, a: int, d: int)
    requires 0 <= a < d < |s|
    ensures s == s[..a] + [s[a]] + s[a + 1..d] + [s[d]] + s[d + 1..]
  {
    assert s[..a] + [s[a]] == s[..a + 1];
    assert s[..a + 1] + s[a + 1..d] == s[..d];
    assert s[..d] + [s[d]] == s[..d + 1];
  }

  /** The explicit check accepts exactly the strings the pattern matches. */
  lemma EmailCheckMatchesPattern(s: string)
    ensures IsEmailAddress(s) <==> MatchesEmailPattern(s)
  {
    if IsEmailAddress(s) { CheckImpliesPattern(s); }
    if MatchesEmailPattern(s) { PatternImpliesCheck(s); }
  }

  /** The two strings named for the e-mail field: one matches, one does not. */
  lemma ExampleAddressMatches()
    ensures IsEmailAddress("a@b.co")
  {
    assert "a@b.co" == "a" + ['@'] + "b" + ['.'] + "co";
    assert IsRun("a") && IsRun("b") && IsRun("co");
    PatternPartsPassCheck("a@b.co", "a", "b", "co");
  }

  lemma ExampleNonAddressFails()
    ensures !IsEmailAddress("not-an-email")
  {
    assert Count("not-an-email", '@') == 0;
  }
}
