/**
 * `extractTitle`: the first non-blank line of the text, trimmed, or else the
 * whole text; either is cut to 100 characters with "..." appended when longer.
 */
module Title {
  import opened Optional
  import opened Text

  const MaxTitle: nat := 100

  /** Index of the first `'\n'` at or after `i`, or `|s|` when there is none. */
  function NextNewline(s: string, i: nat): (k: nat)
    requires i <= |s|
    ensures i <= k <= |s|
    ensures forall j :: i <= j < k ==> s[j] != '\n'
    ensures k < |s| ==> s[k] == '\n'
    decreases |s| - i
  {
    if i == |s| || s[i] == '\n' then i else NextNewline(s, i + 1)
  }

  /** The pieces between successive matches of the separator `\r?\n`, trailing empties included. */
  function Pieces(s: string): (r: seq<string>)
    ensures |r| >= 1
    ensures forall k :: 0 <= k < |r| ==> '\n' !in r[k]
    decreases |s|
  {
    var i := NextNewline(s, 0);
    if i == |s| then
      assert forall c | c in s :: c != '\n' by { forall j | 0 <= j < |s| ensures s[j] != '\n' {} }
      [s]
    else
      var cut := if i > 0 && s[i - 1] == '\r' then i - 1 else i;
      assert forall c | c in s[..cut] :: c != '\n' by {
        forall j | 0 <= j < cut ensures s[..cut][j] != '\n' {}
      }
      [s[..cut]] + Pieces(s[i + 1..])
  }

  /**
   * What the separator `\r?\n` matched after a piece: "\r\n", or a lone "\n"
   * when the piece does not end with the '\r' the match would have taken.
   */
  predicate IsSeparatorAfter(piece: string, sep: string) {
    sep == "\r\n" || (sep == "\n" && (piece == [] || piece[|piece| - 1] != '\r'))
  }

  /** The pieces glued back together with the separators between them. */
  function Interleave(pieces: seq<string>, seps: seq<string>): (r: string)
    requires |pieces| == |seps| + 1
    decreases |seps|
  {
    if seps == [] then pieces[0] else pieces[0] + seps[0] + Interleave(pieces[1..], seps[1..])
  }

  /** `pieces` and `seps` alternate to spell `s`, each separator being what `\r?\n` matched there. */
  predicate JoinsTo(pieces: seq<string>, seps: seq<string>, s: string) {
    && |pieces| == |seps| + 1
    && (forall k :: 0 <= k < |seps| ==> IsSeparatorAfter(pieces[k], seps[k]))
    && Interleave(pieces, seps) == s
  }

  lemma JoinsToCons(piece: string, sep: string, pieces: seq<string>, more: seq<string>, rest: string)
    requires IsSeparatorAfter(piece, sep) && JoinsTo(pieces, more, rest)
    ensures JoinsTo([piece] + pieces, [sep] + more, piece + sep + rest)
  {
    var ps := [piece] + pieces;
    var ss := [sep] + more;
    assert ps[1..] == pieces && ss[1..] == more;
    forall k | 0 <= k < |ss| ensures IsSeparatorAfter(ps[k], ss[k]) {
      if k > 0 {
        assert ps[k] == pieces[k - 1] && ss[k] == more[k - 1];
      }
    }
  }

  /** The separator ending at the first '\n' is what `\r?\n` matched there, and the text is cut around it. */
  lemma SeparatorAt(s: string, i: nat, cut: nat)
    requires i < |s| && s[i] == '\n'
    requires cut == if i > 0 && s[i - 1] == '\r' then i - 1 else i
    ensures IsSeparatorAfter(s[..cut], s[cut..i + 1])
    ensures s[..cut] + s[cut..i + 1] + s[i + 1..] == s
  {
    var sep := s[cut..i + 1];
    if cut < i {
      assert sep == [s[cut], s[i]];
    } else {
      assert sep == [s[i]];
    }
    assert s[..cut] + sep == s[..i + 1];
  }

  /** Splitting loses nothing: the pieces and the matched separators give back the text. */
  lemma {:induction false} PiecesRoundTrip(s: string)
    ensures exists seps :: JoinsTo(Pieces(s), seps, s)
    decreases |s|
  {
    var i := NextNewline(s, 0);
    if i == |s| {
      assert Pieces(s) == [s];
      assert JoinsTo([s], [], s);
    } else {
      var cut := if i > 0 && s[i - 1] == '\r' then i - 1 else i;
      var rest := s[i + 1..];
      PiecesCons(s, i, cut);
      PiecesRoundTrip(rest);
      var more :| JoinsTo(Pieces(rest), more, rest);
      SeparatorAt(s, i, cut);
      JoinsToCons(s[..cut], s[cut..i + 1], Pieces(rest), more, rest);
    }
  }

  /** One step of `Pieces`: the text up to the first separator, then the pieces of the rest. */
  lemma PiecesCons(s: string, i: nat, cut: nat)
    requires i == NextNewline(s, 0) < |s|
    requires cut == if i > 0 && s[i - 1] == '\r' then i - 1 else i
    ensures Pieces(s) == [s[..cut]] + Pieces(s[i + 1..])
  {
  }

  /** Java's `split` with limit 0 removes trailing empty strings. */
  function DropTrailingEmpty(pieces: seq<string>): (r: seq<string>)
    ensures r <= pieces
    ensures r == [] || r[|r| - 1] != ""
    ensures forall k :: |r| <= k < |pieces| ==> pieces[k] == ""
  {
    if pieces == [] || pieces[|pieces| - 1] != "" then pieces
    else DropTrailingEmpty(pieces[..|pieces| - 1])
  }

  /** `text.split("\\r?\\n")`: the whole text when no separator occurs, else the pieces without trailing empties. */
  function SplitLines(text: string): (lines: seq<string>)
    ensures forall k :: 0 <= k < |lines| ==> '\n' !in lines[k]
    ensures '\n' !in text ==> lines == [text]
    ensures '\n' in text ==> lines == DropTrailingEmpty(Pieces(text))
  {
    if '\n' !in text then [text] else DropTrailingEmpty(Pieces(text))
  }

  /** The 100-character cut with an ellipsis marker. */
  function Truncate(s: string): (r: string)
    ensures |r| <= MaxTitle + 3
    ensures |s| <= MaxTitle ==> r == s
    ensures |s| > MaxTitle ==> |r| == MaxTitle + 3 && r[..MaxTitle] == s[..MaxTitle] && r[MaxTitle..] == "..."
  {
    if |s| > MaxTitle then s[..MaxTitle] + "..." else s
  }

  /**
   * The loop of `extractTitle` from line `i`: the first line that is not blank
   * once trimmed (`Trim(line) == ""` exactly when the line is blank).
   */
  function FirstNonBlank(lines: seq<string>, i: nat): (r: Option<nat>)
    requires i <= |lines|
    ensures r.Some? ==> i <= r.value < |lines| && !IsBlank(lines[r.value])
    ensures r.Some? ==> forall j :: i <= j < r.value ==> IsBlank(lines[j])
    ensures r.None? ==> forall j :: i <= j < |lines| ==> IsBlank(lines[j])
    decreases |lines| - i
  {
    if i == |lines| then None
    else if !IsBlank(lines[i]) then Some(i)
    else FirstNonBlank(lines, i + 1)
  }

  /** `extractTitle` */
  function ExtractTitle(text: string): (title: string)
    ensures |title| <= MaxTitle + 3
    ensures text != "" ==> title != ""
    ensures forall k :: 0 <= k < |SplitLines(text)| && !IsBlank(SplitLines(text)[k])
                        && (forall j :: 0 <= j < k ==> IsBlank(SplitLines(text)[j]))
                        ==> title == Truncate(Trim(SplitLines(text)[k]))
    ensures (forall k :: 0 <= k < |SplitLines(text)| ==> IsBlank(SplitLines(text)[k])) ==> title == Truncate(text)
  {
    var lines := SplitLines(text);
    assert forall k | 0 <= k < |lines| && !IsBlank(lines[k]) && (forall j :: 0 <= j < k ==> IsBlank(lines[j]))
      :: FirstNonBlank(lines, 0) == Some(k) by {
      forall k | 0 <= k < |lines| && !IsBlank(lines[k]) && (forall j :: 0 <= j < k ==> IsBlank(lines[j]))
        ensures FirstNonBlank(lines, 0) == Some(k)
      {
        FirstNonBlankIs(lines, k);
      }
    }
    match FirstNonBlank(lines, 0)
    case Some(k) => Truncate(Trim(lines[k]))
    case None => Truncate(text)
  }

  /** The line `FirstNonBlank` finds is the only one that is not blank with all earlier lines blank. */
  lemma FirstNonBlankIs(lines: seq<string>, k: nat)
    requires k < |lines| && !IsBlank(lines[k]) && forall j :: 0 <= j < k ==> IsBlank(lines[j])
    ensures FirstNonBlank(lines, 0) == Some(k)
  {
  }

  /** A character that `trim()` keeps lies in some piece. */
  lemma {:induction false} NonBlankPiece(s: string, p: nat)
    requires p < |s| && !IsTrimmable(s[p])
    ensures exists piece :: piece in Pieces(s) && !IsBlank(piece)
    decreases |s|
  {
    var i := NextNewline(s, 0);
    if i == |s| {
      assert Pieces(s) == [s];
      assert !IsBlank(s);
    } else {
      var cut := if i > 0 && s[i - 1] == '\r' then i - 1 else i;
      var rest := s[i + 1..];
      PiecesCons(s, i, cut);
      if p < cut {
        assert s[..cut][p] == s[p];
        assert !IsBlank(s[..cut]);
        assert s[..cut] in Pieces(s);
      } else {
        assert rest[p - (i + 1)] == s[p];
        NonBlankPiece(rest, p - (i + 1));
        var piece :| piece in Pieces(rest) && !IsBlank(piece);
        assert piece in Pieces(s);
      }
    }
  }

  /** The whole-text fallback is taken only for text made of characters that `trim()` strips. */
  lemma FallbackOnlyForBlankText(text: string)
    requires !IsBlank(text)
    ensures exists k :: 0 <= k < |SplitLines(text)| && Trim(SplitLines(text)[k]) != ""
  {
    var p :| 0 <= p < |text| && !IsTrimmable(text[p]);
    if '\n' in text {
      NonBlankPiece(text, p);
      var pieces := Pieces(text);
      var piece :| piece in pieces && !IsBlank(piece);
      var k :| 0 <= k < |pieces| && pieces[k] == piece;
      var lines := DropTrailingEmpty(pieces);
      assert k < |lines|;
      assert lines[k] == pieces[k];
      assert SplitLines(text) == lines;
      assert 0 <= k < |lines| && Trim(lines[k]) != "";
    } else {
      assert SplitLines(text)[0] == text;
      assert Trim(text) != "";
    }
  }

  /** Text without a line break is its own only line. */
  lemma SingleLineTitle(text: string)
    requires '\n' !in text && !IsBlank(text)
    ensures ExtractTitle(text) == Truncate(Trim(text))
  {
  }
}
