/**
 * `change_line_and_is_comment_line?`: whether one line of a unified diff is an
 * added or removed line whose text, after the `+`/`-` marker, begins with the
 * comment token.
 */
module CommentLine {
  import opened Text

  const AddMarker: char := '+'
  const SubMarker: char := '-'

  /**
   * The anchored pattern `/^M[^M]/` for marker `M`. Ruby's `^` matches at the
   * start of the text and right after every line feed, so a match may sit at
   * the start of any line inside `s`.
   */
  predicate MarkerMatch(s: string, marker: char) {
    exists p | 0 <= p < |s| :: MarkerAt(s, p, marker)
  }

  /** `/^M[^M]/` matches at index `p`: a line starts there with `M` followed by another character. */
  predicate MarkerAt(s: string, p: int, marker: char) {
    0 <= p < |s| - 1 && (p == 0 || s[p - 1] == '\n') && s[p] == marker && s[p + 1] != marker
  }

  /** The whole predicate: an added or removed line whose text after the marker starts with `token`. */
  predicate IsCommentChange(line: string, token: string) {
    (MarkerMatch(line, AddMarker) || MarkerMatch(line, SubMarker))
    && |line| > 0
    && StartsWith(line[1..], token)
  }

  /** The same test read off the first two characters alone. */
  predicate FirstCharsMarkChange(line: string) {
    |line| >= 2
    && ((line[0] == AddMarker && line[1] != AddMarker) || (line[0] == SubMarker && line[1] != SubMarker))
  }

  /** On a line without a line feed the pattern can only match at its first character. */
  lemma MarkerMatchOnOneLine(line: string, marker: char)
    requires '\n' !in line
    ensures MarkerMatch(line, marker) <==> |line| >= 2 && line[0] == marker && line[1] != marker
  {
    if MarkerMatch(line, marker) {
      var p :| 0 <= p < |line| && MarkerAt(line, p, marker);
      assert p == 0 by {
        assert forall q :: 0 <= q < |line| ==> line[q] != '\n';
      }
    }
    if |line| >= 2 && line[0] == marker && line[1] != marker {
      assert MarkerAt(line, 0, marker);
    }
  }

  /**
   * For a single line the predicate holds exactly when the line has at least
   * two characters, starts with one marker not followed by the same marker,
   * and continues with the token.
   */
  lemma CommentChangeOnOneLine(line: string, token: string)
    requires '\n' !in line
    ensures IsCommentChange(line, token) <==> FirstCharsMarkChange(line) && StartsWith(line[1..], token)
  {
    MarkerMatchOnOneLine(line, AddMarker);
    MarkerMatchOnOneLine(line, SubMarker);
  }

  /**
   * Diff headers `+++`/`---`, any line opening with `++` or `--`, a bare marker
   * and the empty line are never classified, whatever the token.
   */
  lemma NeverClassified(line: string, token: string)
    requires '\n' !in line
    requires |line| < 2 || line[..2] == "++" || line[..2] == "--"
    ensures !IsCommentChange(line, token)
  {
    CommentChangeOnOneLine(line, token);
    if |line| >= 2 {
      assert line[0] == line[..2][0] && line[1] == line[..2][1];
    }
  }

  /** An added comment line is classified. */
  lemma AddedCommentExample()
    ensures IsCommentChange("+# hello", "#")
  {
    var line := "+# hello";
    assert MarkerAt(line, 0, AddMarker);
    assert line[1..][..1] == "#";
  }

  /** A removed comment line is classified under its own token and not under another. */
  lemma RemovedCommentExample()
    ensures IsCommentChange("-// old code", "//")
    ensures !IsCommentChange("-// old code", "#")
  {
    var line := "-// old code";
    assert MarkerAt(line, 0, SubMarker);
    assert line[1..][..2] == "//";
    assert line[1..][..1] == "/";
    assert '\n' !in line;
    MarkerMatchOnOneLine(line, AddMarker);
  }

  /**
   * Inside a text holding a line feed the pattern also matches at a later
   * line, so `"++\n+x"` counts under token `"+"` although it starts with
   * `++`. Lines produced by `Split` never hold a line feed, so this cannot
   * happen to the lines the report scans.
   */
  lemma EmbeddedLineFeedExample()
    ensures IsCommentChange("++\n+x", "+")
  {
    var line := "++\n+x";
    assert MarkerAt(line, 3, AddMarker);
    assert line[1..][..1] == "+";
  }
}
