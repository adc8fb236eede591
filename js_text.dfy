/**
 * The JavaScript string primitives that the handlers and browser scripts
 * lean on: falsy-to-empty coercion, `trim`, `toLowerCase`, `slice(0, n)`
 * and `split(c)[0]`.
 */
module JsText {

  datatype Option<+T> = None | Some(value: T)

  /** `(v || "").toString()`: an absent or falsy value reads as the empty string. */
  function OrEmpty(v: Option<string>): (s: string)
    ensures v.Some? ==> s == v.value
    ensures v.None? ==> s == ""
  {
    match v
    case None => ""
    case Some(s) => s
  }

  /** JavaScript truthiness of an optional string: present and not empty. */
  predicate Truthy(v: Option<string>) {
    v.Some? && v.value != ""
  }

  /**
   * ECMAScript WhiteSpace and LineTerminator code points: what `\s` matches in a
   * regular expression and what `String.prototype.trim` removes.
   */
  predicate IsSpace(c: char) {
    || c == '\t' || c == '\n' || c == '\U{0B}' || c == '\U{0C}' || c == '\r' || c == ' '
    || c == '\U{A0}' || c == '\U{1680}' || ('\U{2000}' <= c <= '\U{200A}')
    || c == '\U{2028}' || c == '\U{2029}' || c == '\U{202F}' || c == '\U{205F}'
    || c == '\U{3000}' || c == '\U{FEFF}'
  }

  predicate NoSpace(s: string) {
    forall i :: 0 <= i < |s| ==> !IsSpace(s[i])
  }

  /** `\d` in a JavaScript regular expression: the ASCII decimal digits only. */
  predicate IsDigit(c: char) {
    '0' <= c <= '9'
  }

  /** Drops the longest whitespace prefix (TrimStartSpec). */
  function TrimStart(s: string): string {
    if |s| > 0 && IsSpace(s[0]) then TrimStart(s[1..]) else s
  }

  /** Drops the longest whitespace suffix (TrimEndSpec). */
  function TrimEnd(s: string): string {
    if |s| > 0 && IsSpace(s[|s| - 1]) then TrimEnd(s[..|s| - 1]) else s
  }

  /** What TrimStart keeps is a suffix; what it drops is whitespace; what it keeps does not start with any. */
  lemma {:induction false} TrimStartSpec(s: string)
    ensures var r := TrimStart(s);
            && |r| <= |s| && r == s[|s| - |r|..]
            && (forall i :: 0 <= i < |s| - |r| ==> IsSpace(s[i]))
            && (r == [] || !IsSpace(r[0]))
  {
    if |s| > 0 && IsSpace(s[0]) {
      var t := s[1..];
      TrimStartSpec(t);
      var r := TrimStart(t);
      assert t[|t| - |r|..] == s[|s| - |r|..];
      forall i | 0 <= i < |s| - |r|
        ensures IsSpace(s[i])
      {
        if i > 0 {
          assert s[i] == t[i - 1];
        }
      }
    }
  }

  /** What TrimEnd keeps is a prefix; what it drops is whitespace; what it keeps does not end with any. */
  lemma {:induction false} TrimEndSpec(s: string)
    ensures var r := TrimEnd(s);
            && |r| <= |s| && r == s[..|r|]
            && (forall i :: |r| <= i < |s| ==> IsSpace(s[i]))
            && (r == [] || !IsSpace(r[|r| - 1]))
  {
    if |s| > 0 && IsSpace(s[|s| - 1]) {
      var t := s[..|s| - 1];
      TrimEndSpec(t);
      var r := TrimEnd(t);
      assert t[..|r|] == s[..|r|];
      forall i | |r| <= i < |s|
        ensures IsSpace(s[i])
      {
        if i < |t| {
          assert s[i] == t[i];
        }
      }
    }
  }

  /** How many leading characters `trim` strips. */
  function TrimOffset(s: string): (k: nat)
    ensures k <= |s|
  {
    TrimStartSpec(s);
    |s| - |TrimStart(s)|
  }

  /** `String.prototype.trim` (TrimSpec). */
  function Trim(s: string): string {
    TrimEnd(TrimStart(s))
  }

  /**
   * `trim` keeps the part of `s` left when the whitespace on both ends is
   * removed: what was removed is all whitespace, and what is left neither
   * starts nor ends with whitespace.
   */
  lemma TrimSpec(s: string)
    ensures var r := Trim(s);
            && TrimOffset(s) + |r| <= |s|
            && r == s[TrimOffset(s)..TrimOffset(s) + |r|]
            && (forall i :: 0 <= i < TrimOffset(s) ==> IsSpace(s[i]))
            && (forall i :: TrimOffset(s) + |r| <= i < |s| ==> IsSpace(s[i]))
            && (r == [] || (!IsSpace(r[0]) && !IsSpace(r[|r| - 1])))
  {
    TrimStartSpec(s);
    TrimEndSpec(TrimStart(s));
  }

  /** A string with no whitespace in it is its own trim. */
  lemma TrimNoSpace(s: string)
    requires NoSpace(s)
    ensures Trim(s) == s
  {
    TrimSpec(s);
    if |s| > 0 {
      assert !IsSpace(s[0]) && !IsSpace(s[|s| - 1]);
    }
  }

  /** Every character is visible ASCII, from `!` to `~`. */
  predicate VisibleAscii(s: string) {
    forall i :: 0 <= i < |s| ==> '!' <= s[i] <= '~'
  }

  /** Visible ASCII characters are never whitespace. */
  lemma VisibleAsciiNoSpace(s: string)
    requires VisibleAscii(s)
    ensures NoSpace(s)
  {
  }

  /** The trimmed string is empty exactly when every character is whitespace. */
  lemma TrimEmptyIffAllSpace(s: string)
    ensures Trim(s) == [] <==> forall i :: 0 <= i < |s| ==> IsSpace(s[i])
  {
    TrimSpec(s);
    var k := TrimOffset(s);
    if Trim(s) != [] {
      assert s[k] == Trim(s)[0];
    }
  }

  /**
   * `toLowerCase` on the code points where it maps one character to one
   * character below U+0100: ASCII A–Z and the Latin-1 capitals U+00C0–U+00DE
   * other than U+00D7.
   */
  function LowerChar(c: char): char {
    if 'A' <= c <= 'Z' || ('\U{C0}' <= c <= '\U{DE}' && c != '\U{D7}')
    then (c as int + 32) as char
    else c
  }

  /** Lower-casing moves no whitespace, `@` or `.`. */
  lemma LowerCharKeeps(c: char)
    ensures IsSpace(LowerChar(c)) <==> IsSpace(c)
    ensures LowerChar(c) == '@' <==> c == '@'
    ensures LowerChar(c) == '.' <==> c == '.'
  {
  }

  /** `String.prototype.toLowerCase`, character by character. */
  function ToLower(s: string): (r: string)
    ensures |r| == |s|
    ensures forall i :: 0 <= i < |s| ==> r[i] == LowerChar(s[i])
  {
    if s == [] then [] else [LowerChar(s[0])] + ToLower(s[1..])
  }

  /** `s.toLowerCase() === w`, character by character. */
  predicate LowerIs(s: string, w: string) {
    |s| == |w| && forall i :: 0 <= i < |s| ==> LowerChar(s[i]) == w[i]
  }

  /**
   * `s.trim().toLowerCase() === w`, with the whitespace stripped one
   * character at a time: first from the front, then from the back.
   */
  predicate TrimmedLowerIs(s: string, w: string)
    decreases |s|
  {
    if |s| > 0 && IsSpace(s[0]) then TrimmedLowerIs(s[1..], w) else EndTrimmedLowerIs(s, w)
  }

  predicate EndTrimmedLowerIs(s: string, w: string)
    decreases |s|
  {
    if |s| > 0 && IsSpace(s[|s| - 1]) then EndTrimmedLowerIs(s[..|s| - 1], w) else LowerIs(s, w)
  }

  lemma LowerIsSpec(s: string, w: string)
    ensures LowerIs(s, w) <==> ToLower(s) == w
  {
    if LowerIs(s, w) {
      assert ToLower(s) == w;
    }
  }

  lemma {:induction false} EndTrimmedLowerIsSpec(s: string, w: string)
    ensures EndTrimmedLowerIs(s, w) <==> LowerIs(TrimEnd(s), w)
  {
    if |s| > 0 && IsSpace(s[|s| - 1]) {
      EndTrimmedLowerIsSpec(s[..|s| - 1], w);
    }
  }

  lemma {:induction false} StartTrimmedLowerIsSpec(s: string, w: string)
    ensures TrimmedLowerIs(s, w) <==> EndTrimmedLowerIs(TrimStart(s), w)
  {
    if |s| > 0 && IsSpace(s[0]) {
      StartTrimmedLowerIsSpec(s[1..], w);
    }
  }

  /** The step-by-step test is exactly the comparison of the trimmed, lower-cased string. */
  lemma TrimmedLowerIsSpec(s: string, w: string)
    ensures TrimmedLowerIs(s, w) <==> ToLower(Trim(s)) == w
  {
    StartTrimmedLowerIsSpec(s, w);
    EndTrimmedLowerIsSpec(TrimStart(s), w);
    LowerIsSpec(Trim(s), w);
  }

  /** `s.slice(0, n)`: the longest prefix of `s` with at most `n` characters. */
  function Prefix(s: string, n: nat): (r: string)
    ensures |r| <= n && |r| <= |s| && r == s[..|r|]
    ensures |s| <= n ==> r == s
    ensures |s| > n ==> |r| == n
  {
    if |s| <= n then s else s[..n]
  }

  /**
   * `s.split(c)[0]`: the text up to the first occurrence of `c`, or all of `s`
   * when `c` does not occur.
   */
  function BeforeFirst(s: string, c: char): (r: string)
    ensures |r| <= |s| && r == s[..|r|]
    ensures c !in r
    ensures |r| < |s| ==> s[|r|] == c
  {
    if s == [] || s[0] == c then [] else [s[0]] + BeforeFirst(s[1..], c)
  }

  /** The three facts BeforeFirst promises determine it. */
  lemma {:induction false} BeforeFirstAt(s: string, c: char, k: nat)
    requires k <= |s| && c !in s[..k] && (k < |s| ==> s[k] == c)
    ensures BeforeFirst(s, c) == s[..k]
  {
    if k > 0 {
      assert s[0] == s[..k][0];
      assert s[1..][..k - 1] == s[..k][1..];
      BeforeFirstAt(s[1..], c, k - 1);
    }
  }
}
