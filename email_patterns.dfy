/** The two email regular expressions of the frontend forms. The register and login forms test
    `/^[^@]+@[^@]+\.[^@]+$/` (frontend/app/components/register.tsx, loginForm.tsx); the
    challenge dialog tests `/^[^@\s]+@[^@\s]+\.[^@\s]+$/` (ChallengeFriendModal.tsx).
    Each is given twice: as the regular expression reads (a local part, an `@`, a domain
    label, a `.`, a last label, each part free of the excluded characters), and as the
    structural check the forms are modelled with; the two are proved equal. */
module EmailPatterns {
  import opened Js

  // ---------------------------------------------------------------------------------------
  // The regular expressions as they read

  /** `s` is `s[..i] + "@" + s[i+1..j] + "." + s[j+1..]` with three non-empty parts free of `@`:
      one way for `^[^@]+@[^@]+\.[^@]+$` to match. */
  predicate SplitsAt(s: string, i: int, j: int) {
    0 < i && i + 1 < j && j + 1 < |s| && s[i] == '@' && s[j] == '.'
    && '@' !in s[..i] && '@' !in s[i + 1..j] && '@' !in s[j + 1..]
  }

  /** `/^[^@]+@[^@]+\.[^@]+$/` matches `s`: some choice of the `@` and the `.` fits. */
  ghost predicate MatchesPattern(s: string) {
    exists i, j :: SplitsAt(s, i, j)
  }

  /** No character of `s` is in `\s`. */
  predicate NoWhitespace(s: string) {
    forall k | 0 <= k < |s| :: !IsWhitespace(s[k])
  }

  /** One way for `^[^@\s]+@[^@\s]+\.[^@\s]+$` to match: the same split, with the three parts
      also free of whitespace. */
  predicate ChallengeSplitsAt(s: string, i: int, j: int) {
    SplitsAt(s, i, j) && NoWhitespace(s[..i]) && NoWhitespace(s[i + 1..j]) && NoWhitespace(s[j + 1..])
  }

  /** `/^[^@\s]+@[^@\s]+\.[^@\s]+$/` matches `s`. */
  ghost predicate MatchesChallengePattern(s: string) {
    exists i, j :: ChallengeSplitsAt(s, i, j)
  }

  // ---------------------------------------------------------------------------------------
  // The structural checks

  /** `d` has a `.` with at least one character before and after it. */
  predicate InnerDot(d: string) {
    exists j | 0 < j < |d| - 1 :: d[j] == '.'
  }

  /** Exactly one `@`, a non-empty part before it, and a domain after it with an inner `.`. */
  predicate ValidEmail(s: string) {
    var parts := Split(s, '@');
    |parts| == 2 && parts[0] != "" && InnerDot(parts[1])
  }

  /** The challenge dialog's check: a valid email with no whitespace anywhere. */
  predicate ValidChallengeEmail(s: string) {
    ValidEmail(s) && NoWhitespace(s)
  }

  // ---------------------------------------------------------------------------------------
  // The checks are the regular expressions

  /** The structural check accepts exactly the strings the register/login pattern matches. */
  lemma EmailPatternIff(s: string)
    ensures ValidEmail(s) <==> MatchesPattern(s)
  {
    if ValidEmail(s) {
      var i, j := ValidEmailSplits(s);
    }
    if MatchesPattern(s) {
      var i, j :| SplitsAt(s, i, j);
      SplitsAtValid(s, i, j);
    }
  }

  /** A valid email has a split where the pattern matches. */
  lemma ValidEmailSplits(s: string) returns (i: int, j: int)
    requires ValidEmail(s)
    ensures SplitsAt(s, i, j)
  {
    var parts := Split(s, '@');
    var a, d := parts[0], parts[1];
    JoinSplit(s, '@');
    assert s == a + ['@'] + d;
    var k :| 0 < k < |d| - 1 && d[k] == '.';
    i, j := |a|, |a| + 1 + k;
    assert s[..i] == a;
    assert s[i + 1..j] == d[..k];
    assert s[j + 1..] == d[k + 1..];
    assert '@' !in d[..k] && '@' !in d[k + 1..] by {
      assert forall x | x in d[..k] :: x in d;
      assert forall x | x in d[k + 1..] :: x in d;
    }
  }

  /** A split where the pattern matches makes the structural check pass. */
  lemma SplitsAtValid(s: string, i: int, j: int)
    requires SplitsAt(s, i, j)
    ensures ValidEmail(s)
  {
    var a, d := s[..i], s[i + 1..];
    assert s == a + ['@'] + d;
    assert d == s[i + 1..j] + ['.'] + s[j + 1..];
    SplitAtFirst(a, d, '@');
    SplitNone(d, '@');
    assert d[j - i - 1] == '.';
  }

  /** The challenge check accepts exactly the strings the challenge pattern matches. */
  lemma ChallengePatternIff(s: string)
    ensures ValidChallengeEmail(s) <==> MatchesChallengePattern(s)
  {
    if ValidChallengeEmail(s) {
      var i, j := ValidEmailSplits(s);
      NoWhitespaceSlice(s, 0, i);
      NoWhitespaceSlice(s, i + 1, j);
      NoWhitespaceSlice(s, j + 1, |s|);
      assert ChallengeSplitsAt(s, i, j);
    }
    if MatchesChallengePattern(s) {
      var i, j :| ChallengeSplitsAt(s, i, j);
      SplitsAtValid(s, i, j);
      forall k | 0 <= k < |s| ensures !IsWhitespace(s[k]) {
        if k < i {
          assert s[..i][k] == s[k];
        } else if i < k < j {
          assert s[i + 1..j][k - i - 1] == s[k];
        } else if j < k {
          assert s[j + 1..][k - j - 1] == s[k];
        }
      }
    }
  }

  lemma NoWhitespaceSlice(s: string, lo: int, hi: int)
    requires NoWhitespace(s) && 0 <= lo <= hi <= |s|
    ensures NoWhitespace(s[lo..hi])
  {
    forall k | 0 <= k < hi - lo ensures !IsWhitespace(s[lo..hi][k]) {
      assert s[lo..hi][k] == s[lo + k];
    }
  }

  /** A string the challenge pattern accepts is one the register/login pattern accepts. */
  lemma ChallengeStricter(s: string)
    requires MatchesChallengePattern(s)
    ensures MatchesPattern(s)
  {
    var i, j :| ChallengeSplitsAt(s, i, j);
    assert SplitsAt(s, i, j);
  }

  // ---------------------------------------------------------------------------------------
  // Examples

  /** An address with a space in its local part passes registration but not the challenge. */
  lemma SpaceOnlyRejectedByChallenge()
    ensures ValidEmail("a b@c.d") && !ValidChallengeEmail("a b@c.d")
  {
    assert "a b@c.d" == "a b" + ['@'] + "c.d";
    SplitAtFirst("a b", "c.d", '@');
    SplitNone("c.d", '@');
    assert "c.d"[1] == '.';
    assert IsWhitespace("a b@c.d"[1]);
  }

  /** Two `@`, a missing local part, and a domain whose only `.` opens it are all refused. */
  lemma MalformedRejected()
    ensures !ValidEmail("a@b@c.d") && !ValidEmail("@c.d") && !ValidEmail("a@.d")
  {
    assert "a@b@c.d" == "a" + ['@'] + "b@c.d";
    SplitAtFirst("a", "b@c.d", '@');
    assert "b@c.d" == "b" + ['@'] + "c.d";
    SplitAtFirst("b", "c.d", '@');
    assert "@c.d" == "" + ['@'] + "c.d";
    SplitAtFirst("", "c.d", '@');
    assert "a@.d" == "a" + ['@'] + ".d";
    SplitAtFirst("a", ".d", '@');
    SplitNone(".d", '@');
  }
}
