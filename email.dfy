/**
 * The e-mail shape check the contact form applies, stated without a regex
 * engine. The source pattern is /^[^\s@]+@[^\s@]+\.[^\s@]+$/ (tested with
 * RegExp.prototype.test, no flags).
 */
module Email {
  import opened Text

  /** A character of the class [^\s@]. */
  predicate IsPlain(c: char)
  {
    !IsSpace(c) && c != '@'
  }

  predicate AllPlain(t: string)
  {
    forall k | 0 <= k < |t| :: IsPlain(t[k])
  }

  predicate NoSpace(s: string)
  {
    forall k | 0 <= k < |s| :: !IsSpace(s[k])
  }

  /** Index of the first '@' in `s`, or |s| when there is none. */
  function FirstAt(s: string): (i: nat)
    ensures i <= |s|
    ensures '@' !in s[..i]
    ensures i < |s| ==> s[i] == '@'
  {
    if s == [] || s[0] == '@' then 0
    else
      var i := 1 + FirstAt(s[1..]);
      assert s[..i] == [s[0]] + s[1..][..i - 1];
      i
  }

  /** The domain part has a '.' with at least one character on each side. */
  predicate HasInnerDot(d: string)
  {
    |d| >= 3 && '.' in d[1..|d| - 1]
  }

  /**
   * The check as the contact form means it: no whitespace anywhere, exactly
   * one '@', a non-empty part before it, and a '.' inside the part after it.
   */
  predicate IsEmail(s: string)
  {
    NoSpace(s) && multiset(s)['@'] == 1 &&
    var i := FirstAt(s);
    0 < i < |s| && HasInnerDot(s[i + 1..])
  }

  /**
   * One way the pattern can match: `s` is A '@' B '.' C with A, B and C
   * non-empty runs of [^\s@], the '@' at index i and the '.' at index j.
   */
  ghost predicate PatternSplit(s: string, i: int, j: int)
  {
    0 < i && i + 1 < j && j + 1 < |s| && s[i] == '@' && s[j] == '.' &&
    AllPlain(s[..i]) && AllPlain(s[i + 1..j]) && AllPlain(s[j + 1..])
  }

  /** The regular expression, read as a language: some split matches. */
  ghost predicate MatchesPattern(s: string)
  {
    exists i, j :: PatternSplit(s, i, j)
  }

  /** A string with no '@' contributes nothing to the count of '@'. */
  lemma NoAtCount(t: string)
    requires '@' !in t
    ensures multiset(t)['@'] == 0
  {
  }

  lemma PlainHasNoAt(t: string)
    requires AllPlain(t)
    ensures '@' !in t
  {
  }

  /** Any match of the pattern puts its '@' at the first '@' of the string. */
  lemma SplitIsCheck(s: string, i: int, j: int)
    requires PatternSplit(s, i, j)
    ensures IsEmail(s)
  {
    var a, b, c := s[..i], s[i + 1..j], s[j + 1..];
    assert s == a + [s[i]] + b + [s[j]] + c;
    PlainHasNoAt(a);
    PlainHasNoAt(b);
    PlainHasNoAt(c);
    forall k | 0 <= k < |s| ensures !IsSpace(s[k]) {
      if k < i {
        assert s[k] == a[k];
      } else if i < k < j {
        assert s[k] == b[k - i - 1];
      } else if j < k {
        assert s[k] == c[k - j - 1];
      }
    }
    assert multiset(s)['@'] == 1 by {
      NoAtCount(a);
      NoAtCount(b);
      NoAtCount(c);
      assert multiset(s) == multiset(a) + multiset{'@'} + multiset(b) + multiset{'.'} + multiset(c);
    }
    assert FirstAt(s) == i;
    var d := s[i + 1..];
    assert d[j - i - 1] == '.';
    assert '.' in d[1..|d| - 1] by {
      assert d[1..|d| - 1][j - i - 2] == '.';
    }
  }

  /** A string passing the check splits the way the pattern needs. */
  lemma CheckIsSplit(s: string) returns (i: int, j: int)
    requires IsEmail(s)
    ensures PatternSplit(s, i, j)
  {
    i := FirstAt(s);
    var d := s[i + 1..];
    var m :| 0 <= m < |d[1..|d| - 1]| && d[1..|d| - 1][m] == '.';
    j := i + 2 + m;
    assert s[j] == '.';
    assert '@' !in d by {
      assert s == s[..i + 1] + d;
      assert multiset(s[..i + 1])['@'] >= 1 by {
        assert s[..i + 1][i] == '@';
      }
      assert multiset(s) == multiset(s[..i + 1]) + multiset(d);
    }
    forall k | 0 <= k < i ensures IsPlain(s[..i][k]) {
      assert s[..i][k] in s[..i];
    }
    var b, c := s[i + 1..j], s[j + 1..];
    forall k | 0 <= k < |b| ensures IsPlain(b[k]) {
      assert b[k] == d[k];
    }
    forall k | 0 <= k < |c| ensures IsPlain(c[k]) {
      assert c[k] == d[j - i + k];
    }
  }

  /**
   * The executable check accepts exactly the strings the regular expression
   * /^[^\s@]+@[^\s@]+\.[^\s@]+$/ matches.
   */
  lemma IsEmailMatchesPattern(s: string)
    ensures IsEmail(s) <==> MatchesPattern(s)
  {
    if IsEmail(s) {
      var i, j := CheckIsSplit(s);
    }
    if MatchesPattern(s) {
      var i, j :| PatternSplit(s, i, j);
      SplitIsCheck(s, i, j);
    }
  }

  /** "a@b" has no dot in its domain and is refused. */
  lemma NoDotRefused()
    ensures !IsEmail("a@b")
  {
    assert FirstAt("a@b") == 1;
  }

  /** "a@b.c" is accepted, and so is a domain with several dots. */
  lemma SimpleAddressAccepted()
    ensures IsEmail("a@b.c") && IsEmail("a@b.c.d")
  {
    assert PatternSplit("a@b.c", 1, 3);
    SplitIsCheck("a@b.c", 1, 3);
    assert PatternSplit("a@b.c.d", 1, 3);
    SplitIsCheck("a@b.c.d", 1, 3);
  }

  /** Each missing piece, a second '@' and inner whitespace are refused. */
  lemma MalformedRefused()
    ensures !IsEmail("@b.c") && !IsEmail("a@.c") && !IsEmail("a@b.")
    ensures !IsEmail("a@@b.c") && !IsEmail("a b@c.d")
  {
    assert FirstAt("@b.c") == 0;
    assert FirstAt("a@.c") == 1;
    assert FirstAt("a@b.") == 1;
    assert multiset("a@@b.c")['@'] == 2;
    assert IsSpace("a b@c.d"[1]);
  }
}
