/**
 * The two regular expressions of `extractTasks`, written out as matchers
 * with java.util.regex semantics (leftmost match, greedy quantifiers with
 * backtracking):
 *   task lines:   (?m)^\s*(?:[0-9]+\.|[•\-*])\s*(.+)$
 *   keyword hits: (?i)\b<keyword>\b.{0,50}
 */
module TaskPatterns {
  import opened Optional
  import opened Text

  /** The longest context `.{0,50}` takes after a keyword. */
  const MaxContext: nat := 50

  /** The bullet class `[•\-*]`. */
  predicate IsBullet(c: char) {
    c == '•' || c == '-' || c == '*'
  }

  /** `^` in MULTILINE mode: start of input or after a line terminator (not inside "\r\n"), never at the end. */
  predicate IsLineStart(s: string, p: nat) {
    p < |s| && (p == 0 || (IsLineTerminator(s[p - 1]) && !(s[p - 1] == '\r' && s[p] == '\n')))
  }

  /** End of the greedy `\s*` run starting at `i`. */
  function SkipSpace(s: string, i: nat): (k: nat)
    requires i <= |s|
    ensures i <= k <= |s|
    ensures forall j :: i <= j < k ==> IsRegexSpace(s[j])
    ensures k < |s| ==> !IsRegexSpace(s[k])
    decreases |s| - i
  {
    if i < |s| && IsRegexSpace(s[i]) then SkipSpace(s, i + 1) else i
  }

  /** End of the greedy `[0-9]*` run starting at `i`. */
  function SkipDigits(s: string, i: nat): (k: nat)
    requires i <= |s|
    ensures i <= k <= |s|
    ensures forall j :: i <= j < k ==> IsDigit(s[j])
    ensures k < |s| ==> !IsDigit(s[k])
    decreases |s| - i
  {
    if i < |s| && IsDigit(s[i]) then SkipDigits(s, i + 1) else i
  }

  /** End of the run of non-terminators starting at `i` (what greedy `.*` consumes). */
  function LineEnd(s: string, i: nat): (k: nat)
    requires i <= |s|
    ensures i <= k <= |s|
    ensures forall j :: i <= j < k ==> !IsLineTerminator(s[j])
    ensures k < |s| ==> IsLineTerminator(s[k])
    decreases |s| - i
  {
    if i < |s| && !IsLineTerminator(s[i]) then LineEnd(s, i + 1) else i
  }

  /** `s[q..e]` is one marker `(?:[0-9]+\.|[•\-*])`: a bullet, or one or more digits and a dot. */
  predicate IsMarker(s: string, q: nat, e: nat) {
    && q < e <= |s|
    && ((e == q + 1 && IsBullet(s[q]))
        || (e >= q + 2 && s[e - 1] == '.' && forall j :: q <= j < e - 1 ==> IsDigit(s[j])))
  }

  /**
   * The marker at `q`, if any: its end. A digit run can only be followed by
   * the dot after its last digit, so no backtracking helps and the marker is
   * unique.
   */
  function MarkerEnd(s: string, q: nat): (m: Option<nat>)
    requires q <= |s|
    ensures m.Some? ==> q < m.value <= |s|
    ensures m.Some? ==> (IsBullet(s[q]) && m.value == q + 1)
                        || (m.value >= q + 2 && s[m.value - 1] == '.' && forall j :: q <= j < m.value - 1 ==> IsDigit(s[j]))
    ensures m.None? ==> q == |s| || !IsBullet(s[q])
  {
    if q < |s| && IsBullet(s[q]) then Some(q + 1)
    else
      var d := SkipDigits(s, q);
      if q < d < |s| && s[d] == '.' then Some(d + 1) else None
  }

  /** `MarkerEnd` finds exactly the marker: there is none exactly when it answers none. */
  lemma MarkerEndExact(s: string, q: nat)
    requires q <= |s|
    ensures MarkerEnd(s, q).Some? ==> IsMarker(s, q, MarkerEnd(s, q).value)
    ensures forall e: nat :: IsMarker(s, q, e) ==> MarkerEnd(s, q) == Some(e)
  {
    var d := SkipDigits(s, q);
    forall e: nat | IsMarker(s, q, e) ensures MarkerEnd(s, q) == Some(e) {
      if !IsBullet(s[q]) {
        assert forall j :: q <= j < e - 1 ==> IsDigit(s[j]);
        assert d == e - 1;
      }
    }
  }

  /**
   * Where `(.+)$` begins once the second `\s*` (which ran from `m` to `n`)
   * has backtracked: the last position in `[m, n]` holding a non-terminator.
   * `.+` then takes the rest of that line and `$` always holds after it.
   */
  function BodyStart(s: string, m: nat, n: nat): (b: Option<nat>)
    requires m <= n <= |s|
    ensures b.Some? ==> m <= b.value <= n && b.value < |s| && !IsLineTerminator(s[b.value])
    ensures b.Some? ==> forall j :: b.value < j <= n && j < |s| ==> IsLineTerminator(s[j])
    ensures b.None? ==> forall j :: m <= j <= n && j < |s| ==> IsLineTerminator(s[j])
    decreases n
  {
    if n < |s| && !IsLineTerminator(s[n]) then Some(n)
    else if n == m then None
    else BodyStart(s, m, n - 1)
  }

  /** One match of the task-line pattern: it starts at `start`; group 1 is `s[body..end]`. */
  datatype TaskLine = TaskLine(start: nat, body: nat, end: nat)

  /** The task-line pattern attempted at position `p`. */
  function MatchTaskLine(s: string, p: nat): (r: Option<TaskLine>)
    ensures r.Some? ==> r.value.start == p && IsLineStart(s, p)
    ensures r.Some? ==> p < r.value.body < r.value.end <= |s|
    ensures r.Some? ==> forall j :: r.value.body <= j < r.value.end ==> !IsLineTerminator(s[j])
    ensures r.Some? ==> r.value.end == |s| || IsLineTerminator(s[r.value.end])
  {
    if !IsLineStart(s, p) then None
    else
      var q := SkipSpace(s, p);
      match MarkerEnd(s, q)
      case None => None
      case Some(m) =>
        var n := SkipSpace(s, m);
        match BodyStart(s, m, n)
        case None => None
        case Some(b) => Some(TaskLine(p, b, LineEnd(s, b)))
  }

  /** Every character of `s[i..j]` is matched by `\s`. */
  predicate AllSpace(s: string, i: nat, j: nat)
    requires i <= j <= |s|
  {
    forall k :: i <= k < j ==> IsRegexSpace(s[k])
  }

  /**
   * The pattern can match at `p` with the first `\s*` taking `s[p..q]`, the
   * marker `s[q..m]`, the second `\s*` taking `s[m..b]`, and group 1 starting
   * at `b` with a character that `.` accepts.
   */
  predicate IsTaskPrefix(s: string, p: nat, q: nat, m: nat, b: nat) {
    && p <= q < m <= b < |s|
    && AllSpace(s, p, q) && IsMarker(s, q, m) && AllSpace(s, m, b)
    && !IsLineTerminator(s[b])
  }

  /** Markers are not whitespace, so the greedy `\s*` runs fix where a prefix can lie. */
  lemma PrefixForced(s: string, p: nat, q: nat, m: nat, b: nat)
    requires IsTaskPrefix(s, p, q, m, b)
    ensures q == SkipSpace(s, p) && MarkerEnd(s, q) == Some(m) && b <= SkipSpace(s, m)
  {
    var q0 := SkipSpace(s, p);
    MarkerEndExact(s, q);
    assert !IsRegexSpace(s[q]);
    assert q0 == q;
  }

  /**
   * The task-line pattern matches at `p` exactly when `p` starts a line and a
   * prefix of spaces, a marker, spaces and one more character of the line
   * follows; group 1 then starts where the backtracked second `\s*` stops:
   * the last such position.
   */
  lemma MatchTaskLineShape(s: string, p: nat)
    ensures MatchTaskLine(s, p).Some? <==> IsLineStart(s, p) && exists q: nat, m: nat, b: nat :: IsTaskPrefix(s, p, q, m, b)
    ensures MatchTaskLine(s, p).Some? ==> exists q: nat, m: nat :: IsTaskPrefix(s, p, q, m, MatchTaskLine(s, p).value.body)
    ensures MatchTaskLine(s, p).Some? ==> forall q: nat, m: nat, b: nat :: IsTaskPrefix(s, p, q, m, b) ==> b <= MatchTaskLine(s, p).value.body
  {
    if p <= |s| {
      var q0 := SkipSpace(s, p);
      forall q: nat, m: nat, b: nat | IsTaskPrefix(s, p, q, m, b)
        ensures q == q0 && MarkerEnd(s, q0) == Some(m) && b <= SkipSpace(s, m)
      {
        PrefixForced(s, p, q, m, b);
      }
      if IsLineStart(s, p) && MarkerEnd(s, q0).Some? {
        var m0 := MarkerEnd(s, q0).value;
        var n := SkipSpace(s, m0);
        if BodyStart(s, m0, n).Some? {
          var b0 := BodyStart(s, m0, n).value;
          assert MatchTaskLine(s, p).value.body == b0;
          assert IsTaskPrefix(s, p, q0, m0, b0);
        }
      }
    }
  }

  /** `matcher.find()` from `from`: the leftmost task-line match starting at or after `from`. */
  function FindTaskLine(s: string, from: nat): (r: Option<TaskLine>)
    ensures r.Some? ==> from <= r.value.start && MatchTaskLine(s, r.value.start) == r
    ensures r.Some? ==> forall p :: from <= p < r.value.start ==> MatchTaskLine(s, p).None?
    ensures r.None? ==> forall p :: from <= p ==> MatchTaskLine(s, p).None?
    decreases |s| - from
  {
    if from >= |s| then None
    else match MatchTaskLine(s, from)
      case Some(t) => Some(t)
      case None => FindTaskLine(s, from + 1)
  }

  /** `\b`: a word character on exactly one side of position `i`. */
  predicate IsBoundary(s: string, i: nat)
    requires i <= |s|
  {
    (i > 0 && IsWordChar(s[i - 1])) != (i < |s| && IsWordChar(s[i]))
  }

  /** A keyword that can be spliced into the pattern as literal text: one or more word characters. */
  predicate IsWordKeyword(k: string) {
    |k| > 0 && forall i :: 0 <= i < |k| ==> IsWordChar(k[i])
  }

  /** `s[i..]` starts with `keyword`, comparing ASCII letters without case (flag `(?i)`). */
  predicate MatchesIgnoringCase(s: string, i: nat, keyword: string) {
    i + |keyword| <= |s| && forall j :: 0 <= j < |keyword| ==> LowerChar(s[i + j]) == LowerChar(keyword[j])
  }

  /** One keyword match `s[start..end]`: the keyword and up to 50 more characters of its line. */
  datatype KeywordHit = KeywordHit(start: nat, end: nat)

  /** The keyword pattern attempted at position `i`. */
  function MatchKeyword(s: string, i: nat, keyword: string): (r: Option<KeywordHit>)
    requires IsWordKeyword(keyword)
    ensures r.Some? <==> i + |keyword| <= |s| && IsBoundary(s, i) && MatchesIgnoringCase(s, i, keyword) && IsBoundary(s, i + |keyword|)
    ensures r.Some? ==> r.value.start == i && i + |keyword| <= r.value.end <= i + |keyword| + MaxContext && r.value.end <= |s|
    ensures r.Some? ==> forall j :: i + |keyword| <= j < r.value.end ==> !IsLineTerminator(s[j])
    ensures r.Some? && r.value.end < i + |keyword| + MaxContext ==> r.value.end == |s| || IsLineTerminator(s[r.value.end])
  {
    var k := i + |keyword|;
    if k <= |s| && IsBoundary(s, i) && MatchesIgnoringCase(s, i, keyword) && IsBoundary(s, k) then
      var e := LineEnd(s, k);
      Some(KeywordHit(i, if e - k > MaxContext then k + MaxContext else e))
    else None
  }

  /** `keywordMatcher.find()` from `from`: the leftmost keyword match starting at or after `from`. */
  function FindKeyword(s: string, from: nat, keyword: string): (r: Option<KeywordHit>)
    requires IsWordKeyword(keyword)
    ensures r.Some? ==> from <= r.value.start && MatchKeyword(s, r.value.start, keyword) == r
    ensures r.Some? ==> forall p :: from <= p < r.value.start ==> MatchKeyword(s, p, keyword).None?
    ensures r.None? ==> forall p :: from <= p ==> MatchKeyword(s, p, keyword).None?
    decreases |s| - from
  {
    if from + |keyword| > |s| then None
    else match MatchKeyword(s, from, keyword)
      case Some(h) => Some(h)
      case None => FindKeyword(s, from + 1, keyword)
  }
}
