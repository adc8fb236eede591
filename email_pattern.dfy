/**
 * The email regular expression `^[^\s@]+@[^\s@]+\.[^\s@]+$`, shared by the
 * browser validator and the lead endpoint.
 */
module EmailPattern {
  import opened JsText

  /** The class `[^\s@]`. */
  predicate Plain(c: char) {
    !IsSpace(c) && c != '@'
  }

  /** The repetition `[^\s@]+` over the positions `i` up to `j` of `s`. */
  ghost predicate PlainRun(s: string, i: int, j: int)
    requires 0 <= i <= j <= |s|
  {
    i < j && forall k :: i <= k < j ==> Plain(s[k])
  }

  /**
   * The expression read as a language: three non-empty runs of `[^\s@]`
   * separated by one `@` and, after it, some `.`, covering the whole string.
   */
  ghost predicate MatchesRegex(s: string) {
    exists a, b :: 0 <= a < b < |s| && s[a] == '@' && s[b] == '.'
                && PlainRun(s, 0, a) && PlainRun(s, a + 1, b) && PlainRun(s, b + 1, |s|)
  }

  /**
   * A direct test for the expression: a non-empty local part up to the first
   * `@`, no whitespace anywhere, no second `@`, and a `.` in the domain that is
   * neither its first nor its last character.
   */
  predicate Matches(s: string)
    ensures Matches(s) <==> MatchesRegex(s)
  {
    ShapeIsRegex(s);
    ShapeOk(s)
  }

  predicate ShapeOk(s: string) {
    var a := |BeforeFirst(s, '@')|;
    && 0 < a && a + 3 < |s|
    && NoSpace(s)
    && '@' !in s[a + 1..]
    && '.' in s[a + 2..|s| - 1]
  }

  lemma ShapeIsRegex(s: string)
    ensures ShapeOk(s) <==> MatchesRegex(s)
  {
    if ShapeOk(s) { ShapeGivesRegex(s); }
    if MatchesRegex(s) { RegexGivesShape(s); }
  }

  lemma ShapeGivesRegex(s: string)
    requires ShapeOk(s)
    ensures MatchesRegex(s)
  {
    var a := |BeforeFirst(s, '@')|;
    var inner := s[a + 2..|s| - 1];
    var k :| 0 <= k < |inner| && inner[k] == '.';
    var b := a + 2 + k;
    assert s[b] == '.';
    assert forall i :: 0 <= i < a ==> s[i] == BeforeFirst(s, '@')[i];
    assert forall i :: a < i < |s| ==> s[i] == s[a + 1..][i - a - 1];
    assert PlainRun(s, 0, a) && PlainRun(s, a + 1, b) && PlainRun(s, b + 1, |s|);
  }

  lemma RegexGivesShape(s: string)
    requires MatchesRegex(s)
    ensures ShapeOk(s)
  {
    var a, b :| 0 <= a < b < |s| && s[a] == '@' && s[b] == '.'
              && PlainRun(s, 0, a) && PlainRun(s, a + 1, b) && PlainRun(s, b + 1, |s|);
    assert '@' !in s[..a] by {
      forall i | 0 <= i < a ensures s[..a][i] != '@' { assert Plain(s[i]); }
    }
    BeforeFirstAt(s, '@', a);
    assert NoSpace(s) by {
      forall i | 0 <= i < |s| ensures !IsSpace(s[i]) {
        if i != a && i != b { assert Plain(s[i]); }
      }
    }
    var domain := s[a + 1..];
    assert '@' !in domain by {
      forall j | 0 <= j < |domain| ensures domain[j] != '@' {
        assert domain[j] == s[j + a + 1];
        if j + a + 1 != b { assert Plain(s[j + a + 1]); }
      }
    }
    assert s[a + 2..|s| - 1][b - a - 2] == '.';
  }

  /** A match has no whitespace in it, so `trim` leaves it alone. */
  lemma MatchHasNoSpace(s: string)
    requires MatchesRegex(s)
    ensures NoSpace(s)
  {
    RegexGivesShape(s);
  }

  /** Lower-casing keeps a match a match: it moves no `@`, `.` or whitespace. */
  lemma LowerKeepsMatch(s: string)
    requires MatchesRegex(s)
    ensures MatchesRegex(ToLower(s))
  {
    var a, b :| 0 <= a < b < |s| && s[a] == '@' && s[b] == '.'
              && PlainRun(s, 0, a) && PlainRun(s, a + 1, b) && PlainRun(s, b + 1, |s|);
    var t := ToLower(s);
    forall k | 0 <= k < |t| ensures Plain(t[k]) <==> Plain(s[k]) {
      LowerCharKeeps(s[k]);
    }
    assert t[a] == '@' && t[b] == '.';
    assert PlainRun(t, 0, a) && PlainRun(t, a + 1, b) && PlainRun(t, b + 1, |t|);
  }
}
