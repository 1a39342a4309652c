/**
  The waitlist form's email check: the trimmed input is checked against the
  home-grown pattern `/^[^\s@]+@[^\s@]+\.[^\s@]+$/` (not RFC 5322 syntax).
  `RegexMatch` is what the pattern means as a regular expression; `IsValidEmail`
  is the structural reading the form relies on; `RegexMatchIffValid` proves
  that the two agree on every string.
 */
module EmailPattern {
  import opened Whitespace

  /** The character class `[^\s@]`. */
  predicate Plain(c: char) {
    !IsWs(c) && c != '@'
  }

  predicate AllPlain(s: string) {
    forall i | 0 <= i < |s| :: Plain(s[i])
  }

  /** The pattern matches the whole of `s` with its `@` at index `at` and its
      literal `\.` at index `dot`: each of the three `[^\s@]+` runs is
      non-empty and made of plain characters only. */
  ghost predicate MatchesAt(s: string, at: int, dot: int) {
    && 0 < at && at + 1 < dot && dot + 1 < |s|
    && s[at] == '@' && s[dot] == '.'
    && AllPlain(s[..at]) && AllPlain(s[at + 1..dot]) && AllPlain(s[dot + 1..])
  }

  /** The pattern's test on `s`: the pattern is anchored at both ends, so it
      matches when some choice of the `@` and the `.` splits `s` as above. */
  ghost predicate RegexMatch(s: string) {
    exists at, dot :: MatchesAt(s, at, dot)
  }

  /** The domain `d` has a `.` with at least one character on either side. */
  predicate HasInnerDot(d: string) {
    exists j | 0 < j < |d| - 1 :: d[j] == '.'
  }

  /** The structural reading of the pattern: no whitespace, exactly one `@`,
      a non-empty local part before it, and a domain after it holding a `.`
      that is neither its first nor its last character. */
  predicate IsValidEmail(s: string) {
    && NoWs(s)
    && multiset(s)['@'] == 1
    && exists at | 0 < at < |s| :: s[at] == '@' && HasInnerDot(s[at + 1..])
  }

  /** A run of plain characters holds no `@`. */
  lemma PlainHasNoAt(s: string)
    requires AllPlain(s)
    ensures multiset(s)['@'] == 0
  {
  }

  /** Two distinct `@` positions mean at least two `@` characters. */
  lemma TwoAts(s: string, i: int, k: int)
    requires 0 <= i < k < |s| && s[i] == '@' && s[k] == '@'
    ensures multiset(s)['@'] >= 2
  {
    assert s == s[..i] + [s[i]] + s[i + 1..k] + [s[k]] + s[k + 1..];
  }

  /** With exactly one `@`, every other character differs from `@`. */
  lemma OnlyAt(s: string, at: int)
    requires 0 <= at < |s| && s[at] == '@' && multiset(s)['@'] == 1
    ensures forall k | 0 <= k < |s| && k != at :: s[k] != '@'
  {
    forall k | 0 <= k < |s| && k != at
      ensures s[k] != '@'
    {
      if s[k] == '@' {
        if k < at { TwoAts(s, k, at); } else { TwoAts(s, at, k); }
      }
    }
  }

  lemma MatchIsValid(s: string, at: int, dot: int)
    requires MatchesAt(s, at, dot)
    ensures IsValidEmail(s)
  {
    forall i | 0 <= i < |s|
      ensures !IsWs(s[i])
    {
      if i < at {
        assert s[..at][i] == s[i];
      } else if at < i < dot {
        assert s[at + 1..dot][i - at - 1] == s[i];
      } else if dot < i {
        assert s[dot + 1..][i - dot - 1] == s[i];
      }
    }
    assert s == s[..at] + [s[at]] + s[at + 1..dot] + [s[dot]] + s[dot + 1..];
    PlainHasNoAt(s[..at]);
    PlainHasNoAt(s[at + 1..dot]);
    PlainHasNoAt(s[dot + 1..]);
    assert s[at + 1..][dot - at - 1] == '.';
    assert HasInnerDot(s[at + 1..]);
  }

  lemma ValidMatches(s: string) returns (at: int, dot: int)
    requires IsValidEmail(s)
    ensures MatchesAt(s, at, dot)
  {
    at :| 0 < at < |s| && s[at] == '@' && HasInnerDot(s[at + 1..]);
    var d := s[at + 1..];
    var j :| 0 < j < |d| - 1 && d[j] == '.';
    dot := at + 1 + j;
    OnlyAt(s, at);
    assert s[dot] == d[j];
    forall i | 0 <= i < at
      ensures Plain(s[..at][i])
    {
      assert s[..at][i] == s[i];
    }
    var mid, tld := s[at + 1..dot], s[dot + 1..];
    forall i | 0 <= i < |mid|
      ensures Plain(mid[i])
    {
      assert mid[i] == s[at + 1 + i];
    }
    forall i | 0 <= i < |tld|
      ensures Plain(tld[i])
    {
      assert tld[i] == s[dot + 1 + i];
    }
  }

  /** The pattern matches exactly the strings of the structural reading. */
  lemma RegexMatchIffValid(s: string)
    ensures RegexMatch(s) <==> IsValidEmail(s)
  {
    if RegexMatch(s) {
      var at, dot :| MatchesAt(s, at, dot);
      MatchIsValid(s, at, dot);
    }
    if IsValidEmail(s) {
      var at, dot := ValidMatches(s);
    }
  }

  /** The shortest accepted address has the shape `a@b.c`. */
  lemma ValidEmailLength(s: string)
    requires IsValidEmail(s)
    ensures |s| >= 5
  {
    var at, dot := ValidMatches(s);
  }

  /** An accepted address is unchanged by trimming, so the form stores
      exactly what the pattern accepted. */
  lemma ValidEmailIsTrimmed(s: string)
    requires IsValidEmail(s)
    ensures Trim(s) == s
  {
    assert s[..0] == [] && s[|s|..] == [] && s[0..|s|] == s;
    assert Margins(s, 0, |s|);
    TrimCharacterized(s, s);
  }

  /** The form's test: the field value, trimmed, matches the pattern. */
  function AcceptsInput(value: string): (b: bool)
    ensures b <==> RegexMatch(Trim(value))
  {
    var email := Trim(value);
    RegexMatchIffValid(email);
    IsValidEmail(email)
  }
}
