/**
 * Character classes and string operations of the Java library that the
 * airdrop engine relies on: `String.toLowerCase`, `String.contains`,
 * `String.trim` and the character classes of `java.util.regex`.
 * Case mapping and word characters are restricted to ASCII.
 */
module Text {

  /** Characters removed by `String.trim()`: every code point up to U+0020. */
  predicate IsTrimmable(c: char) {
    c <= ' '
  }

  /** The regex class `\s` (without UNICODE_CHARACTER_CLASS). */
  predicate IsRegexSpace(c: char) {
    c == ' ' || c == '\t' || c == '\n' || c == '\U{000B}' || c == '\U{000C}' || c == '\r'
  }

  /** Line terminators for `.`, `^` and `$` when UNIX_LINES is off. */
  predicate IsLineTerminator(c: char) {
    c == '\n' || c == '\r' || c == '\U{0085}' || c == '\U{2028}' || c == '\U{2029}'
  }

  /** Word characters for `\b`, restricted to ASCII. */
  predicate IsWordChar(c: char) {
    ('a' <= c <= 'z') || ('A' <= c <= 'Z') || ('0' <= c <= '9') || c == '_'
  }

  predicate IsDigit(c: char) {
    '0' <= c <= '9'
  }

  predicate IsUpper(c: char) {
    'A' <= c <= 'Z'
  }

  /** ASCII lower-casing of one character; every other character is kept. */
  function LowerChar(c: char): (r: char)
    ensures !IsUpper(r)
    ensures !IsUpper(c) ==> r == c
    ensures IsWordChar(c) <==> IsWordChar(r)
  {
    if IsUpper(c) then (c as int + 32) as char else c
  }

  /** `String.toLowerCase()` on ASCII text. */
  function Lower(s: string): (r: string)
    ensures |r| == |s|
    ensures forall i :: 0 <= i < |s| ==> r[i] == LowerChar(s[i])
  {
    seq(|s|, i requires 0 <= i < |s| => LowerChar(s[i]))
  }

  lemma LowerIdempotent(s: string)
    ensures Lower(Lower(s)) == Lower(s)
  {
  }

  /** `String.contains`: `t` occurs in `s` at some index. */
  predicate Contains(s: string, t: string) {
    exists i :: 0 <= i <= |s| - |t| && t <= s[i..]
  }

  /** `contains` holds exactly when `t` is some slice of `s`. */
  lemma ContainsIsSlice(s: string, t: string)
    ensures Contains(s, t) <==> exists i, j :: 0 <= i <= j <= |s| && s[i..j] == t
  {
    if Contains(s, t) {
      var i :| 0 <= i <= |s| - |t| && t <= s[i..];
      assert s[i..i + |t|] == t;
    }
    if exists i, j :: 0 <= i <= j <= |s| && s[i..j] == t {
      var i, j :| 0 <= i <= j <= |s| && s[i..j] == t;
      assert t <= s[i..];
    }
  }

  /** Lower-casing text without upper-case letters changes nothing. */
  lemma LowerOfLowerCase(s: string)
    requires forall c | c in s :: !IsUpper(c)
    ensures Lower(s) == s
  {
    assert forall i | 0 <= i < |s| :: s[i] in s;
  }

  /** A needle whose first character never occurs in `s` is not contained in it. */
  lemma MissingFirstChar(s: string, t: string)
    requires |t| > 0 && t[0] !in s
    ensures !Contains(s, t)
  {
    forall i | 0 <= i <= |s| - |t| ensures !(t <= s[i..]) {
      assert s[i] in s;
    }
  }

  lemma ContainsEmpty(s: string)
    ensures Contains(s, "")
  {
    assert "" <= s[0..];
  }

  /** Every character of `s` is removed by `trim()`. */
  predicate IsBlank(s: string) {
    forall i :: 0 <= i < |s| ==> IsTrimmable(s[i])
  }

  /** First index at or after `i` of a character that `trim()` keeps, or `|s|`. */
  function SkipTrimmable(s: string, i: nat): (k: nat)
    requires i <= |s|
    ensures i <= k <= |s|
    ensures forall j :: i <= j < k ==> IsTrimmable(s[j])
    ensures k < |s| ==> !IsTrimmable(s[k])
    decreases |s| - i
  {
    if i < |s| && IsTrimmable(s[i]) then SkipTrimmable(s, i + 1) else i
  }

  /** Smallest `k` in `[lo, j]` such that every character of `s[k..j]` is trimmable. */
  function BackTrimmable(s: string, lo: nat, j: nat): (k: nat)
    requires lo <= j <= |s|
    ensures lo <= k <= j
    ensures forall m :: k <= m < j ==> IsTrimmable(s[m])
    ensures k > lo ==> !IsTrimmable(s[k - 1])
    decreases j
  {
    if j > lo && IsTrimmable(s[j - 1]) then BackTrimmable(s, lo, j - 1) else j
  }

  /** `String.trim()`: strips the longest trimmable prefix and suffix. */
  function Trim(s: string): (r: string)
    ensures |r| <= |s|
    ensures r == [] <==> IsBlank(s)
    ensures r != [] ==> !IsTrimmable(r[0]) && !IsTrimmable(r[|r| - 1])
  {
    var a := SkipTrimmable(s, 0);
    s[a..BackTrimmable(s, a, |s|)]
  }

  /** What `trim()` keeps is one contiguous slice, and everything it cuts off before and after is blank. */
  lemma TrimIsSlice(s: string)
    ensures exists a :: 0 <= a <= |s| - |Trim(s)| && Trim(s) == s[a..a + |Trim(s)|]
                       && IsBlank(s[..a]) && IsBlank(s[a + |Trim(s)|..])
  {
    var a := SkipTrimmable(s, 0);
    var b := BackTrimmable(s, a, |s|);
    assert Trim(s) == s[a..b];
    assert s[a..b] == s[a..a + |s[a..b]|];
    assert IsBlank(s[..a]) by {
      forall i | 0 <= i < a ensures IsTrimmable(s[..a][i]) { assert s[..a][i] == s[i]; }
    }
    assert IsBlank(s[b..]) by {
      forall i | 0 <= i < |s| - b ensures IsTrimmable(s[b..][i]) { assert s[b..][i] == s[b + i]; }
    }
  }
}
