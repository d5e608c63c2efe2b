/**
 * `diff_file`: the per-file report built from `git --no-pager diff <file>`.
 * Every line of the diff is tested with the comment-line predicate; flagged
 * lines are echoed, counted, and summarised against the total line count.
 */
module Diff {
  import opened Text
  import opened CommentLine

  const CheckingPrefix: string := "Checking file "
  const EchoPrefix: string := "\t "
  /** The message is printed with this spelling. */
  const NoCommentsMessage: string := "No added, changed, or delted comments"
  const Separator: string := "-----------------\n"

  /**
   * One printed line of the report. The "Found comment lines added, changed,
   * or deleted: N out of M lines" message is kept as its two numbers.
   */
  datatype Output = Line(text: string) | FoundSummary(comments: nat, total: nat)

  /** The lines the predicate flags, in the order they appear. */
  function Flagged(lines: seq<string>, token: string): (r: seq<string>)
    ensures |r| <= |lines|
    decreases |lines|
  {
    if |lines| == 0 then []
    else Mark(lines[0], token) + Flagged(lines[1..], token)
  }

  /** A line on its own: itself when the predicate holds for it, nothing otherwise. */
  function Mark(line: string, token: string): seq<string> {
    if IsCommentChange(line, token) then [line] else []
  }

  /** Every flagged line satisfies the predicate and is one of the diff's lines. */
  lemma {:induction false} FlaggedSound(lines: seq<string>, token: string)
    ensures forall k :: 0 <= k < |Flagged(lines, token)| ==>
              IsCommentChange(Flagged(lines, token)[k], token) && Flagged(lines, token)[k] in lines
    decreases |lines|
  {
    if |lines| > 0 {
      FlaggedSound(lines[1..], token);
      var m := Mark(lines[0], token);
      var rest := Flagged(lines[1..], token);
      assert Flagged(lines, token) == m + rest;
      forall k | 0 <= k < |m + rest|
        ensures IsCommentChange((m + rest)[k], token) && (m + rest)[k] in lines
      {
        if k < |m| {
          assert m == [lines[0]] && IsCommentChange(lines[0], token);
          assert (m + rest)[k] == lines[0];
          assert lines[0] in lines;
        } else {
          var x := rest[k - |m|];
          assert (m + rest)[k] == x;
          assert IsCommentChange(x, token);
          assert x in lines[1..];
          var j :| 0 <= j < |lines| - 1 && lines[1..][j] == x;
          assert lines[j + 1] == x;
        }
      }
    }
  }

  /** Flagging one more line appends it exactly when the predicate holds for it. */
  lemma FlaggedSnoc(init: seq<string>, line: string, token: string)
    ensures Flagged(init + [line], token) == Flagged(init, token) + Mark(line, token)
  {
    FlaggedAppend(init, [line], token);
    assert [line][1..] == [];
    assert Flagged([line], token) == Mark(line, token) + [];
  }

  /** Scanning one more line of the diff. */
  lemma FlaggedPrefix(lines: seq<string>, i: int, token: string)
    requires 0 <= i < |lines|
    ensures Flagged(lines[..i + 1], token) == Flagged(lines[..i], token) + Mark(lines[i], token)
  {
    assert lines[..i + 1] == lines[..i] + [lines[i]];
    FlaggedSnoc(lines[..i], lines[i], token);
  }

  /** Flagging the lines of two pieces separately and joining the results is flagging the whole. */
  lemma {:induction false} FlaggedAppend(a: seq<string>, b: seq<string>, token: string)
    ensures Flagged(a + b, token) == Flagged(a, token) + Flagged(b, token)
    decreases |a|
  {
    if |a| > 0 {
      assert (a + b)[0] == a[0];
      assert (a + b)[1..] == a[1..] + b;
      FlaggedAppend(a[1..], b, token);
    } else {
      assert a + b == b;
    }
  }

  /** The positions of the lines the predicate holds for. */
  function FlaggedIndices(lines: seq<string>, token: string): set<int> {
    set i | 0 <= i < |lines| && IsCommentChange(lines[i], token)
  }

  /** The comment count is the number of lines the predicate holds for. */
  lemma {:induction false} FlaggedCount(lines: seq<string>, token: string)
    ensures |Flagged(lines, token)| == |FlaggedIndices(lines, token)|
    decreases |lines|
  {
    if |lines| > 0 {
      var n := |lines| - 1;
      var init := lines[..n];
      FlaggedCount(init, token);
      assert lines == init + [lines[n]];
      FlaggedSnoc(init, lines[n], token);
      var before := FlaggedIndices(init, token);
      if IsCommentChange(lines[n], token) {
        assert FlaggedIndices(lines, token) == before + {n};
        assert n !in before;
      } else {
        assert FlaggedIndices(lines, token) == before;
      }
    }
  }

  /** Diff headers and any other line opening with `++` or `--` are never counted. */
  lemma HeadersNeverCounted(stdout: string, token: string, k: int)
    requires 0 <= k < |Split(stdout)|
    requires var line := Split(stdout)[k];
             |line| >= 2 && (line[..2] == "++" || line[..2] == "--")
    ensures k !in FlaggedIndices(Split(stdout), token)
  {
    SplitShape(stdout);
    NeverClassified(Split(stdout)[k], token);
  }

  /** The summary for `comments` flagged lines out of `total`. */
  function Summary(comments: nat, total: nat): Output {
    if comments == 0 then Line(NoCommentsMessage) else FoundSummary(comments, total)
  }

  /**
   * The report for one file, given the diff text: the progress line, each
   * flagged line echoed after a tab and a space in input order, the summary,
   * and the separator, which is printed whichever summary was chosen. The
   * total is the number of lines `split` produced, header and hunk lines
   * included.
   */
  method DiffFile(filePath: string, token: string, stdout: string) returns (out: seq<Output>)
    ensures var lines := Split(stdout);
            var flagged := Flagged(lines, token);
            && |out| == |flagged| + 3
            && out[0] == Line(CheckingPrefix + filePath)
            && (forall k :: 0 <= k < |flagged| ==> out[k + 1] == Line(EchoPrefix + flagged[k]))
            && out[|out| - 2] == Summary(|flagged|, |lines|)
            && out[|out| - 1] == Line(Separator)
  {
    var lines := Split(stdout);
    var echoes, comments := EchoFlagged(lines, token);
    out := [Line(CheckingPrefix + filePath)] + echoes + [Summary(comments, |lines|)] + [Line(Separator)];
    ReportShape(out, Line(CheckingPrefix + filePath), Flagged(lines, token), Summary(comments, |lines|));
  }

  /**
   * The loop over the diff's lines: every flagged line is echoed after a tab
   * and a space, in input order, and counted.
   */
  method EchoFlagged(lines: seq<string>, token: string) returns (echoes: seq<Output>, comments: nat)
    ensures echoes == Echoes(Flagged(lines, token))
    ensures comments == |Flagged(lines, token)|
  {
    echoes := [];
    comments := 0;
    var i := 0;
    ghost var seen: seq<string> := [];
    while i < |lines|
      invariant 0 <= i <= |lines|
      invariant seen == Flagged(lines[..i], token)
      invariant comments == |seen|
      invariant echoes == Echoes(seen)
    {
      FlaggedPrefix(lines, i, token);
      if IsCommentChange(lines[i], token) {
        EchoesSnoc(seen, lines[i]);
        echoes := echoes + [Line(EchoPrefix + lines[i])];
        comments := comments + 1;
        seen := seen + [lines[i]];
      } else {
        assert seen + [] == seen;
      }
      i := i + 1;
    }
    assert lines[..i] == lines;
  }

  /** The pieces of the report read back by position. */
  lemma ReportShape(out: seq<Output>, head: Output, flagged: seq<string>, summary: Output)
    requires out == [head] + Echoes(flagged) + [summary] + [Line(Separator)]
    ensures |out| == |flagged| + 3 && out[0] == head
    ensures forall k :: 0 <= k < |flagged| ==> out[k + 1] == Line(EchoPrefix + flagged[k])
    ensures out[|out| - 2] == summary && out[|out| - 1] == Line(Separator)
  {
    var e := Echoes(flagged);
    var a := [head] + e;
    var b := a + [summary];
    assert out == b + [Line(Separator)];
    forall k | 0 <= k < |flagged|
      ensures out[k + 1] == Line(EchoPrefix + flagged[k])
    {
      assert a[k + 1] == e[k];
      assert b[k + 1] == a[k + 1];
      assert out[k + 1] == b[k + 1];
    }
  }

  /** The echo of each flagged line, in order. */
  function Echoes(flagged: seq<string>): seq<Output> {
    seq(|flagged|, k requires 0 <= k < |flagged| => Line(EchoPrefix + flagged[k]))
  }

  lemma EchoesSnoc(flagged: seq<string>, line: string)
    ensures Echoes(flagged + [line]) == Echoes(flagged) + [Line(EchoPrefix + line)]
  {
    assert forall k :: 0 <= k < |flagged| ==> (flagged + [line])[k] == flagged[k];
  }
}
