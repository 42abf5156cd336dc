/**
 * `extractTasks`: phase 1 emits "- " + trimmed group 1 for every task-line
 * match; only when it emitted nothing, phase 2 emits "- " + trimmed match +
 * "..." for every keyword hit, keyword by keyword. The entries are appended
 * to a buffer, each followed by "\n"; the result is the trimmed buffer, or
 * null when the buffer stayed empty.
 */
module Tasks {
  import opened Optional
  import opened Text
  import opened TaskPatterns

  /** All keywords can be spliced into the keyword pattern as literal text. */
  predicate AllWordKeywords(keywords: seq<string>) {
    forall k :: 0 <= k < |keywords| ==> IsWordKeyword(keywords[k])
  }

  /** The buffer contents after appending each entry followed by "\n". */
  function Render(entries: seq<string>): (r: string)
    ensures |r| >= |entries|
    ensures r == "" <==> entries == []
  {
    if entries == [] then "" else entries[0] + "\n" + Render(entries[1..])
  }

  lemma {:induction false} RenderAppend(a: seq<string>, b: seq<string>)
    ensures Render(a + b) == Render(a) + Render(b)
  {
    if a != [] {
      assert (a + b)[0] == a[0];
      assert (a + b)[1..] == a[1..] + b;
      RenderAppend(a[1..], b);
    } else {
      assert a + b == b;
    }
  }

  /** An entry as appended to the buffer: it starts with the dash marker. */
  predicate IsDashEntry(e: string) {
    |e| >= 2 && e[..2] == "- "
  }

  // ---------------------------------------------------------------- phase 1

  /** The task-line matches of successive `find()` calls starting at `from`. */
  function TaskLines(s: string, from: nat): (ms: seq<TaskLine>)
    requires from <= |s|
    ensures forall k :: 0 <= k < |ms| ==> from <= ms[k].start < ms[k].body < ms[k].end <= |s|
    ensures forall k :: 0 <= k < |ms| - 1 ==> ms[k].end <= ms[k + 1].start
    decreases |s| - from
  {
    match FindTaskLine(s, from)
    case None => []
    case Some(t) =>
      var rest := TaskLines(s, t.end);
      ConsInOrder(s, from, t, rest);
      [t] + rest
  }

  /** A match followed by the ordered matches after its end stays ordered. */
  lemma ConsInOrder(s: string, from: nat, t: TaskLine, rest: seq<TaskLine>)
    requires from <= t.start < t.body < t.end <= |s|
    requires forall k :: 0 <= k < |rest| ==> t.end <= rest[k].start < rest[k].body < rest[k].end <= |s|
    requires forall k :: 0 <= k < |rest| - 1 ==> rest[k].end <= rest[k + 1].start
    ensures forall k :: 0 <= k < |[t] + rest| ==> from <= ([t] + rest)[k].start < ([t] + rest)[k].body < ([t] + rest)[k].end <= |s|
    ensures forall k :: 0 <= k < |[t] + rest| - 1 ==> ([t] + rest)[k].end <= ([t] + rest)[k + 1].start
  {
    assert forall k :: 0 < k < |[t] + rest| ==> ([t] + rest)[k] == rest[k - 1];
  }

  predicate IsTaskLineMatch(s: string, t: TaskLine) {
    MatchTaskLine(s, t.start) == Some(t)
  }

  /** Every task line found is a match of the pattern at its start. */
  lemma {:induction false} TaskLinesMatch(s: string, from: nat)
    requires from <= |s|
    ensures forall k :: 0 <= k < |TaskLines(s, from)| ==> IsTaskLineMatch(s, TaskLines(s, from)[k])
    decreases |s| - from
  {
    var ms := TaskLines(s, from);
    match FindTaskLine(s, from)
    case None =>
    case Some(t) =>
      TaskLinesMatch(s, t.end);
      var rest := TaskLines(s, t.end);
      assert ms == [t] + rest;
      assert IsTaskLineMatch(s, t);
      forall k | 0 < k < |ms| ensures IsTaskLineMatch(s, ms[k]) {
        assert ms[k] == rest[k - 1];
      }
  }

  /** Task lines come in document order and do not overlap. */
  lemma {:induction false} TaskLinesOrdered(s: string, from: nat)
    requires from <= |s|
    ensures forall k, l :: 0 <= k < l < |TaskLines(s, from)| ==> TaskLines(s, from)[k].end <= TaskLines(s, from)[l].start
  {
    var ms := TaskLines(s, from);
    forall k, l | 0 <= k < l < |ms| ensures ms[k].end <= ms[l].start {
      var j := k + 1;
      while j < l
        invariant k < j <= l
        invariant ms[k].end <= ms[j].start
      {
        j := j + 1;
      }
    }
  }

  /** No match is skipped: each one starting at or after `from` is found or lies inside one found before it. */
  lemma {:induction false} TaskLinesComplete(s: string, from: nat, p: nat)
    requires from <= p <= |s| && MatchTaskLine(s, p).Some?
    ensures exists k :: 0 <= k < |TaskLines(s, from)| && TaskLines(s, from)[k].start <= p < TaskLines(s, from)[k].end
    decreases |s| - from
  {
    var ms := TaskLines(s, from);
    match FindTaskLine(s, from)
    case None =>
      assert false;
    case Some(t) =>
      var rest := TaskLines(s, t.end);
      assert ms == [t] + rest;
      if p >= t.end {
        TaskLinesComplete(s, t.end, p);
        var k :| 0 <= k < |rest| && rest[k].start <= p < rest[k].end;
        assert ms[k + 1] == rest[k];
      } else {
        assert ms[0] == t;
      }
  }

  /** Group 1 of a task-line match, trimmed, after the dash marker. */
  function TaskLineEntry(s: string, t: TaskLine): (e: string)
    requires t.body <= t.end <= |s|
    ensures IsDashEntry(e)
  {
    "- " + Trim(s[t.body..t.end])
  }

  predicate TaskLinesIn(s: string, ms: seq<TaskLine>) {
    forall k :: 0 <= k < |ms| ==> ms[k].body <= ms[k].end <= |s|
  }

  function TaskLineEntries(s: string, ms: seq<TaskLine>): (r: seq<string>)
    requires TaskLinesIn(s, ms)
    ensures |r| == |ms|
    ensures forall k :: 0 <= k < |ms| ==> r[k] == TaskLineEntry(s, ms[k])
  {
    if ms == [] then [] else [TaskLineEntry(s, ms[0])] + TaskLineEntries(s, ms[1..])
  }

  /** What the buffer still receives from the task lines found from `pos` on. */
  function PendingTaskLines(s: string, pos: nat): string
    requires pos <= |s|
  {
    Render(TaskLineEntries(s, TaskLines(s, pos)))
  }

  /** The entries still pending from `pos`: the next task line's, then those after it. */
  lemma PendingTaskLinesCons(s: string, pos: nat, t: TaskLine)
    requires pos <= |s| && FindTaskLine(s, pos) == Some(t)
    ensures t.end <= |s|
    ensures PendingTaskLines(s, pos) == TaskLineEntry(s, t) + "\n" + PendingTaskLines(s, t.end)
  {
    var rest := TaskLines(s, t.end);
    assert TaskLines(s, pos) == [t] + rest;
    RenderTaskLinesCons(s, t, rest);
  }

  lemma RenderTaskLinesCons(s: string, t: TaskLine, rest: seq<TaskLine>)
    requires TaskLinesIn(s, [t] + rest)
    ensures TaskLinesIn(s, rest)
    ensures Render(TaskLineEntries(s, [t] + rest)) == TaskLineEntry(s, t) + "\n" + Render(TaskLineEntries(s, rest))
  {
    var ms := [t] + rest;
    assert ms[0] == t && ms[1..] == rest;
    forall k | 0 <= k < |rest| ensures rest[k].body <= rest[k].end <= |s| {
      assert rest[k] == ms[k + 1];
    }
  }

  /** One `find()` of phase 1 appends one entry and a newline. */
  lemma TaskLineStep(s: string, pos: nat, t: TaskLine, buffer: string, target: string)
    requires pos <= |s| && FindTaskLine(s, pos) == Some(t)
    requires buffer + PendingTaskLines(s, pos) == target
    ensures pos <= t.start < t.end <= |s|
    ensures (buffer + (TaskLineEntry(s, t) + "\n")) + PendingTaskLines(s, t.end) == target
  {
    PendingTaskLinesCons(s, pos, t);
    var e := TaskLineEntry(s, t) + "\n";
    assert (buffer + e) + PendingTaskLines(s, t.end) == buffer + (e + PendingTaskLines(s, t.end));
  }

  /** The entries phase 1 appends, in document order. */
  function StructuredEntries(s: string): (r: seq<string>)
    ensures |r| == |TaskLines(s, 0)|
    ensures forall k :: 0 <= k < |r| ==> IsDashEntry(r[k])
  {
    TaskLineEntries(s, TaskLines(s, 0))
  }

  // ---------------------------------------------------------------- phase 2

  /** The keyword hits of successive `find()` calls starting at `from`. */
  function KeywordHits(s: string, keyword: string, from: nat): (hs: seq<KeywordHit>)
    requires IsWordKeyword(keyword) && from <= |s|
    ensures forall k :: 0 <= k < |hs| ==> from <= hs[k].start < hs[k].end <= |s|
    ensures forall k :: 0 <= k < |hs| - 1 ==> hs[k].end <= hs[k + 1].start
    decreases |s| - from
  {
    match FindKeyword(s, from, keyword)
    case None => []
    case Some(h) =>
      var rest := KeywordHits(s, keyword, h.end);
      assert forall k :: 0 < k < |[h] + rest| ==> ([h] + rest)[k] == rest[k - 1];
      [h] + rest
  }

  predicate IsKeywordMatch(s: string, keyword: string, h: KeywordHit)
    requires IsWordKeyword(keyword)
  {
    MatchKeyword(s, h.start, keyword) == Some(h)
  }

  /** Every keyword hit found is a match of the pattern at its start. */
  lemma {:induction false} KeywordHitsMatch(s: string, keyword: string, from: nat)
    requires IsWordKeyword(keyword) && from <= |s|
    ensures forall k :: 0 <= k < |KeywordHits(s, keyword, from)| ==> IsKeywordMatch(s, keyword, KeywordHits(s, keyword, from)[k])
    decreases |s| - from
  {
    var hs := KeywordHits(s, keyword, from);
    match FindKeyword(s, from, keyword)
    case None =>
    case Some(h) =>
      KeywordHitsMatch(s, keyword, h.end);
      var rest := KeywordHits(s, keyword, h.end);
      assert hs == [h] + rest;
      assert IsKeywordMatch(s, keyword, h);
      forall k | 0 < k < |hs| ensures IsKeywordMatch(s, keyword, hs[k]) {
        assert hs[k] == rest[k - 1];
      }
  }

  /** No keyword match is skipped: each one is found or lies inside one found before it. */
  lemma {:induction false} KeywordHitsComplete(s: string, keyword: string, from: nat, p: nat)
    requires IsWordKeyword(keyword) && from <= p <= |s| && MatchKeyword(s, p, keyword).Some?
    ensures exists k :: 0 <= k < |KeywordHits(s, keyword, from)|
                        && KeywordHits(s, keyword, from)[k].start <= p < KeywordHits(s, keyword, from)[k].end
    decreases |s| - from
  {
    var hs := KeywordHits(s, keyword, from);
    match FindKeyword(s, from, keyword)
    case None =>
      assert false;
    case Some(h) =>
      var rest := KeywordHits(s, keyword, h.end);
      assert hs == [h] + rest;
      if p >= h.end {
        KeywordHitsComplete(s, keyword, h.end, p);
        var k :| 0 <= k < |rest| && rest[k].start <= p < rest[k].end;
        assert hs[k + 1] == rest[k];
      } else {
        assert hs[0] == h;
      }
  }

  /** An entry of phase 2 ends with the ellipsis. */
  predicate IsEllipsisEntry(e: string) {
    IsDashEntry(e) && |e| >= 5 && e[|e| - 3..] == "..."
  }

  /** A keyword match, trimmed, between the dash marker and the ellipsis. */
  function KeywordHitEntry(s: string, h: KeywordHit): (e: string)
    requires h.start <= h.end <= |s|
    ensures IsEllipsisEntry(e)
  {
    "- " + Trim(s[h.start..h.end]) + "..."
  }

  predicate HitsIn(s: string, hs: seq<KeywordHit>) {
    forall k :: 0 <= k < |hs| ==> hs[k].start <= hs[k].end <= |s|
  }

  function KeywordHitEntries(s: string, hs: seq<KeywordHit>): (r: seq<string>)
    requires HitsIn(s, hs)
    ensures |r| == |hs|
    ensures forall k :: 0 <= k < |hs| ==> r[k] == KeywordHitEntry(s, hs[k])
  {
    if hs == [] then [] else [KeywordHitEntry(s, hs[0])] + KeywordHitEntries(s, hs[1..])
  }

  /** What the buffer still receives from the hits of one keyword found from `at` on. */
  function PendingHits(s: string, keyword: string, at: nat): string
    requires IsWordKeyword(keyword) && at <= |s|
  {
    Render(KeywordHitEntries(s, KeywordHits(s, keyword, at)))
  }

  /** The entries still pending from `at`: the next hit's, then those after it. */
  lemma PendingHitsCons(s: string, keyword: string, at: nat, h: KeywordHit)
    requires IsWordKeyword(keyword) && at <= |s| && FindKeyword(s, at, keyword) == Some(h)
    ensures h.end <= |s|
    ensures PendingHits(s, keyword, at) == KeywordHitEntry(s, h) + "\n" + PendingHits(s, keyword, h.end)
  {
    var rest := KeywordHits(s, keyword, h.end);
    assert KeywordHits(s, keyword, at) == [h] + rest;
    RenderHitsCons(s, h, rest);
  }

  lemma RenderHitsCons(s: string, h: KeywordHit, rest: seq<KeywordHit>)
    requires HitsIn(s, [h] + rest)
    ensures HitsIn(s, rest)
    ensures Render(KeywordHitEntries(s, [h] + rest)) == KeywordHitEntry(s, h) + "\n" + Render(KeywordHitEntries(s, rest))
  {
    var hs := [h] + rest;
    assert hs[0] == h && hs[1..] == rest;
    forall k | 0 <= k < |rest| ensures rest[k].start <= rest[k].end <= |s| {
      assert rest[k] == hs[k + 1];
    }
  }

  /** One `find()` of phase 2 appends one entry and a newline. */
  lemma KeywordHitStep(s: string, keyword: string, at: nat, h: KeywordHit, out: string, target: string)
    requires IsWordKeyword(keyword) && at <= |s| && FindKeyword(s, at, keyword) == Some(h)
    requires out + PendingHits(s, keyword, at) == target
    ensures at <= h.start < h.end <= |s|
    ensures (out + (KeywordHitEntry(s, h) + "\n")) + PendingHits(s, keyword, h.end) == target
  {
    PendingHitsCons(s, keyword, at, h);
    var e := KeywordHitEntry(s, h) + "\n";
    assert (out + e) + PendingHits(s, keyword, h.end) == out + (e + PendingHits(s, keyword, h.end));
  }

  /** The entries of one keyword, in text order. */
  function EntriesOfKeyword(s: string, keyword: string): (r: seq<string>)
    requires IsWordKeyword(keyword)
    ensures forall k :: 0 <= k < |r| ==> IsEllipsisEntry(r[k])
  {
    KeywordHitEntries(s, KeywordHits(s, keyword, 0))
  }

  /** The entries phase 2 appends: keyword by keyword in list order, each in text order. */
  function KeywordEntries(s: string, keywords: seq<string>): (r: seq<string>)
    requires AllWordKeywords(keywords)
    ensures forall k :: 0 <= k < |r| ==> IsEllipsisEntry(r[k])
  {
    if keywords == [] then []
    else KeywordEntries(s, keywords[..|keywords| - 1]) + EntriesOfKeyword(s, keywords[|keywords| - 1])
  }

  /** Phase 2 over a concatenated list is phase 2 over each part in turn. */
  lemma {:induction false} KeywordEntriesAppend(s: string, k1: seq<string>, k2: seq<string>)
    requires AllWordKeywords(k1) && AllWordKeywords(k2)
    ensures AllWordKeywords(k1 + k2)
    ensures KeywordEntries(s, k1 + k2) == KeywordEntries(s, k1) + KeywordEntries(s, k2)
    decreases |k2|
  {
    if k2 != [] {
      var init := k2[..|k2| - 1];
      assert (k1 + k2)[..|k1 + k2| - 1] == k1 + init;
      assert (k1 + k2)[|k1 + k2| - 1] == k2[|k2| - 1];
      KeywordEntriesAppend(s, k1, init);
    } else {
      assert k1 + k2 == k1;
    }
  }

  // ---------------------------------------------------------------- result

  /** Phase 2 runs only when phase 1 emitted nothing. */
  function TaskEntries(s: string, keywords: seq<string>): (r: seq<string>)
    requires AllWordKeywords(keywords)
    ensures StructuredEntries(s) != [] ==> r == StructuredEntries(s)
    ensures StructuredEntries(s) == [] ==> forall k :: 0 <= k < |r| ==> IsEllipsisEntry(r[k])
  {
    var structured := StructuredEntries(s);
    if structured != [] then structured else KeywordEntries(s, keywords)
  }

  /** What `extractTasks` returns: null for no entries, else the trimmed buffer. */
  function TasksOf(s: string, keywords: seq<string>): (r: Option<string>)
    requires AllWordKeywords(keywords)
    ensures r.None? <==> TaskEntries(s, keywords) == []
    ensures r.Some? ==> r.value != "" && r.value[0] == '-'
  {
    var entries := TaskEntries(s, keywords);
    if entries == [] then None
    else
      var buffer := Render(entries);
      assert IsDashEntry(entries[0]);
      assert entries[0][0] == '-';
      assert buffer[0] == '-';
      TrimKeepsFirst(buffer);
      Some(Trim(buffer))
  }

  /** Trimming text that starts with a kept character keeps that character first. */
  lemma TrimKeepsFirst(s: string)
    requires s != [] && !IsTrimmable(s[0])
    ensures Trim(s) != [] && Trim(s)[0] == s[0]
  {
    assert !IsBlank(s);
    var r := Trim(s);
    var a :| 0 <= a <= |s| - |r| && r == s[a..a + |r|] && IsBlank(s[..a]) && IsBlank(s[a + |r|..]);
    if a > 0 {
      assert s[..a][0] == s[0];
    }
  }

  /** `extractTasks`, appending to a buffer as the `StringBuilder` loops do. */
  method ExtractTasks(text: string, keywords: seq<string>) returns (tasks: Option<string>)
    requires AllWordKeywords(keywords)
    ensures tasks == TasksOf(text, keywords)
  {
    var buffer := AppendTaskLines(text);
    if |buffer| == 0 {
      for i := 0 to |keywords|
        invariant buffer == Render(KeywordEntries(text, keywords[..i]))
      {
        var keyword := keywords[i];
        buffer := AppendKeywordEntries(text, keyword, buffer);
        KeywordEntriesStep(text, keywords, i);
      }
      assert keywords[..|keywords|] == keywords;
    }
    assert buffer == Render(TaskEntries(text, keywords));
    if |buffer| > 0 {
      tasks := Some(Trim(buffer));
    } else {
      tasks := None;
    }
  }

  /** Phase 1 of `extractTasks`: the `while (structuredMatcher.find())` loop on an empty buffer. */
  method AppendTaskLines(text: string) returns (buffer: string)
    ensures buffer == Render(StructuredEntries(text))
  {
    buffer := "";
    var pos := 0;
    var found := FindTaskLine(text, 0);
    while found.Some?
      invariant pos <= |text|
      invariant found == FindTaskLine(text, pos)
      invariant buffer + PendingTaskLines(text, pos) == Render(StructuredEntries(text))
      decreases |text| - pos
    {
      var t := found.value;
      TaskLineStep(text, pos, t, buffer, Render(StructuredEntries(text)));
      buffer := buffer + (TaskLineEntry(text, t) + "\n");
      pos := t.end;
      found := FindTaskLine(text, pos);
    }
    assert TaskLines(text, pos) == [];
  }

  /** Phase 2 over one more keyword renders as the buffer so far plus that keyword's entries. */
  lemma KeywordEntriesStep(s: string, keywords: seq<string>, i: nat)
    requires AllWordKeywords(keywords) && i < |keywords|
    ensures Render(KeywordEntries(s, keywords[..i + 1]))
         == Render(KeywordEntries(s, keywords[..i])) + Render(EntriesOfKeyword(s, keywords[i]))
  {
    assert keywords[..i + 1][..i] == keywords[..i];
    RenderAppend(KeywordEntries(s, keywords[..i]), EntriesOfKeyword(s, keywords[i]));
  }

  /** The inner `while (keywordMatcher.find())` loop for one keyword. */
  method AppendKeywordEntries(text: string, keyword: string, buffer: string) returns (out: string)
    requires IsWordKeyword(keyword)
    ensures out == buffer + Render(EntriesOfKeyword(text, keyword))
  {
    out := buffer;
    var at := 0;
    var hit := FindKeyword(text, 0, keyword);
    while hit.Some?
      invariant at <= |text|
      invariant hit == FindKeyword(text, at, keyword)
      invariant out + PendingHits(text, keyword, at) == buffer + Render(EntriesOfKeyword(text, keyword))
      decreases |text| - at
    {
      var h := hit.value;
      KeywordHitStep(text, keyword, at, h, out, buffer + Render(EntriesOfKeyword(text, keyword)));
      out := out + (KeywordHitEntry(text, h) + "\n");
      at := h.end;
      hit := FindKeyword(text, at, keyword);
    }
    assert KeywordHits(text, keyword, at) == [];
  }

  // ---------------------------------------------------------------- an example

  /** In `"- \n- b"` the greedy `\s*` after the first dash crosses the line break. */
  lemma GreedySpaceMatch()
    ensures FindTaskLine("- \n- b", 0) == Some(TaskLine(0, 3, 6))
  {
    var s := "- \n- b";
    assert SkipSpace(s, 0) == 0;
    assert MarkerEnd(s, 0) == Some(1);
    assert SkipSpace(s, 1) == 3 by {
      assert SkipSpace(s, 3) == 3;
    }
    assert BodyStart(s, 1, 3) == Some(3);
    assert LineEnd(s, 3) == 6 by {
      assert LineEnd(s, 6) == 6;
    }
    assert MatchTaskLine(s, 0) == Some(TaskLine(0, 3, 6));
  }

  lemma GreedySpaceEntries()
    ensures StructuredEntries("- \n- b") == ["- - b"]
  {
    var s := "- \n- b";
    var t := TaskLine(0, 3, 6);
    GreedySpaceMatch();
    assert FindTaskLine(s, 6) == None;
    assert TaskLines(s, 0) == [t] + TaskLines(s, 6);
    assert TaskLineEntry(s, t) == "- - b";
  }

  /** A single entry gives that entry, trimmed after its newline. */
  lemma TasksOfSingle(s: string, keywords: seq<string>, e: string)
    requires AllWordKeywords(keywords) && TaskEntries(s, keywords) == [e]
    ensures TasksOf(s, keywords) == Some(Trim(e + "\n"))
  {
    assert [e][1..] == [];
    assert Render([e]) == e + "\n";
  }

  /** Trimming the rendered example buffer drops its final newline. */
  lemma TrimExampleBuffer()
    ensures Trim("- - b\n") == "- - b"
  {
    var b := "- - b\n";
    assert SkipTrimmable(b, 0) == 0;
    assert BackTrimmable(b, 0, 6) == 5 by {
      assert BackTrimmable(b, 0, 5) == 5;
    }
    assert b[0..5] == "- - b";
  }

  /** So the two marker lines yield one task whose text is the second line. */
  lemma GreedySpaceCrossesLine()
    ensures TasksOf("- \n- b", []) == Some("- - b")
  {
    var s := "- \n- b";
    GreedySpaceEntries();
    assert TaskEntries(s, []) == ["- - b"];
    TasksOfSingle(s, [], "- - b");
    TrimExampleBuffer();
  }
}
