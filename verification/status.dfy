/**
 * `changed_files`: the scan of `git status` output that lists the files the
 * report will look at — tracked files named on a `modified:` line, and the
 * lines listed under `Untracked files:`.
 */
module Status {
  import opened Wrappers
  import opened Text

  const Modified: string := "modified:"
  const UntrackedHeader: string := "Untracked files:"
  const AddHint: string := "git add"

  /** The entry a `modified:` line appends: the line with every `modified:` cut out, stripped. */
  function ModifiedEntry(line: string): (r: seq<string>)
    ensures |r| <= 1
    ensures |r| == 1 <==> Contains(line, Modified)
  {
    if Contains(line, Modified) then [Strip(RemoveAll(line, Modified))] else []
  }

  /**
   * The loop variable as the rest of the iteration sees it: a `modified:` line
   * has been replaced by its remainder, every other line is unchanged.
   */
  function Rewritten(line: string): string {
    if Contains(line, Modified) then Strip(RemoveAll(line, Modified)) else line
  }

  /**
   * One pass of the loop body: the flag after the pass, and what was appended.
   * The flag is raised by the header, never lowered; a line listed as
   * untracked is appended only when the flag is up, the line is not the
   * header, does not mention `git add`, and is not empty before stripping.
   */
  function Step(finding: bool, line: string): (r: (bool, seq<string>))
    ensures finding ==> r.0
    ensures |r.1| <= 2
    ensures forall k :: 0 <= k < |r.1| ==> IsStripped(r.1[k])
  {
    var l := Rewritten(line);
    var finding' := finding || Contains(l, UntrackedHeader);
    var fromUntracked :=
      if finding' && !Contains(l, UntrackedHeader) && !Contains(l, AddHint) && |l| > 0
      then [Strip(l)] else [];
    (finding', ModifiedEntry(line) + fromUntracked)
  }

  /** The `lines.each` loop from a given flag: entries appended in line order. */
  function ScanLines(finding: bool, lines: seq<string>): (files: seq<string>)
    ensures |files| <= 2 * |lines|
    ensures forall k :: 0 <= k < |files| ==> IsStripped(files[k])
    decreases |lines|
  {
    if |lines| == 0 then []
    else
      var (finding', appended) := Step(finding, lines[0]);
      appended + ScanLines(finding', lines[1..])
  }

  /**
   * `changed_files` given what `git status` wrote: anything on standard error
   * gives `nil`, otherwise the scan of standard output's lines.
   */
  function ChangedFiles(stdout: string, stderr: string): (r: Option<seq<string>>)
    ensures r.None? <==> |stderr| > 0
    ensures r.Some? ==> |r.value| <= 2 * |Split(stdout)|
    ensures r.Some? ==> forall k :: 0 <= k < |r.value| ==> IsStripped(r.value[k])
  {
    if |stderr| > 0 then None else Some(ScanLines(false, Split(stdout)))
  }

  // ----- A closed form of the scan: each line's contribution on its own -----

  /** After the rewrite of a `modified:` line, the line carries the untracked-files header. */
  predicate IsHeaderLine(line: string) {
    Contains(Rewritten(line), UntrackedHeader)
  }

  /** Some line before index `i` was a header line. */
  predicate HeaderSeen(lines: seq<string>, i: int)
    requires i <= |lines|
  {
    exists j | 0 <= j < i :: IsHeaderLine(lines[j])
  }

  /** A line that, once the header has been seen, is listed as an untracked file. */
  predicate ListedUntracked(line: string) {
    var l := Rewritten(line);
    !Contains(l, UntrackedHeader) && !Contains(l, AddHint) && |l| > 0
  }

  /** What line `i` adds, read off the line itself and whether a header came earlier. */
  function Contribution(lines: seq<string>, i: int): seq<string>
    requires 0 <= i < |lines|
  {
    ModifiedEntry(lines[i])
    + (if HeaderSeen(lines, i) && ListedUntracked(lines[i]) then [Strip(Rewritten(lines[i]))] else [])
  }

  function Contributions(lines: seq<string>): seq<seq<string>> {
    seq(|lines|, i requires 0 <= i < |lines| => Contribution(lines, i))
  }

  function Concat(parts: seq<seq<string>>): seq<string>
    decreases |parts|
  {
    if |parts| == 0 then [] else parts[0] + Concat(parts[1..])
  }

  lemma HeaderSeenNext(lines: seq<string>, i: int)
    requires 0 <= i < |lines|
    ensures HeaderSeen(lines, i + 1) <==> HeaderSeen(lines, i) || IsHeaderLine(lines[i])
  {
  }

  lemma {:induction false} ScanSuffix(lines: seq<string>, i: int)
    requires 0 <= i <= |lines|
    ensures ScanLines(HeaderSeen(lines, i), lines[i..]) == Concat(Contributions(lines)[i..])
    decreases |lines| - i
  {
    var cs := Contributions(lines);
    if i < |lines| {
      ScanSuffix(lines, i + 1);
      HeaderSeenNext(lines, i);
      assert lines[i..][0] == lines[i];
      assert lines[i..][1..] == lines[i + 1..];
      assert cs[i..][1..] == cs[i + 1..];
      assert cs[i] == Contribution(lines, i);
    }
  }

  /**
   * The scan is the concatenation, in line order, of every line's own
   * contribution: its `modified:` entry, then its stripped self if a header
   * line came before it and it is listed as untracked. Nothing is reordered
   * or deduplicated.
   */
  lemma ScanIsConcatenation(lines: seq<string>)
    ensures ScanLines(false, lines) == Concat(Contributions(lines))
  {
    ScanSuffix(lines, 0);
    assert lines[0..] == lines;
    assert Contributions(lines)[0..] == Contributions(lines);
    assert !HeaderSeen(lines, 0);
  }

  /** Output naming neither marker lists no files. */
  lemma {:induction false} NoMarkersNoFiles(lines: seq<string>)
    requires forall k :: 0 <= k < |lines| ==> !Contains(lines[k], Modified) && !Contains(lines[k], UntrackedHeader)
    ensures ScanLines(false, lines) == []
    decreases |lines|
  {
    if |lines| > 0 {
      NoMarkersNoFiles(lines[1..]);
    }
  }

  /**
   * Before the header, a `modified:` line appends exactly its remainder and
   * any other line appends nothing; the flag rises only on a header line.
   */
  lemma StepBeforeHeader(line: string)
    ensures Step(false, line).0 == IsHeaderLine(line)
    ensures Step(false, line).1 == ModifiedEntry(line)
  {
  }

  /** Once raised the flag stays raised, and the header line adds nothing of its own. */
  lemma StepOnHeader(finding: bool, line: string)
    requires IsHeaderLine(line)
    ensures Step(finding, line).0
    ensures Step(finding, line).1 == ModifiedEntry(line)
  {
  }

  /**
   * After the header, a `modified:` line whose remainder is non-empty, not a
   * header and free of `git add` is appended twice: once as a modified file
   * and once more as an untracked one.
   */
  lemma ModifiedAfterHeaderTwice(line: string)
    requires Contains(line, Modified)
    requires ListedUntracked(line)
    ensures Step(true, line).1 == [Strip(RemoveAll(line, Modified)), Strip(RemoveAll(line, Modified))]
  {
    var x := Strip(RemoveAll(line, Modified));
    StripOfStripped(x);
    TwiceStep(line, x);
  }

  lemma TwiceStep(line: string, x: string)
    requires Contains(line, Modified) && x == Strip(RemoveAll(line, Modified))
    requires ListedUntracked(line) && Strip(x) == x
    ensures Step(true, line).1 == [x, x]
  {
    assert Rewritten(line) == x;
    assert ModifiedEntry(line) == [x];
  }

  /** Before the header, a `modified:` line whose remainder is no header lists just that remainder. */
  lemma ModifiedBeforeHeader(line: string)
    requires Contains(line, Modified)
    requires !Contains(Rewritten(line), UntrackedHeader)
    ensures !Step(false, line).0 && Step(false, line).1 == [Rewritten(line)]
  {
    var r := Step(false, line);
    assert r.0 == false;
    assert ModifiedEntry(line) == [Rewritten(line)];
    assert r.1 == ModifiedEntry(line);
  }

  /** Under the header, a line naming neither marker nor `git add` is listed, stripped. */
  lemma PlainLineAfterHeader(line: string)
    requires !Contains(line, Modified) && !Contains(line, UntrackedHeader) && !Contains(line, AddHint)
    requires |line| > 0
    ensures Step(true, line).0 && Step(true, line).1 == [Strip(line)]
  {
    var r := Step(true, line);
    assert Rewritten(line) == line;
    assert ModifiedEntry(line) == [];
    assert |r.1| == 1 && r.1[0] == Strip(line);
  }

  /** A header line naming no `modified:` adds nothing and raises the flag. */
  lemma PlainHeaderLine(finding: bool, line: string)
    requires !Contains(line, Modified) && Contains(line, UntrackedHeader)
    ensures Step(finding, line).0 && Step(finding, line).1 == []
  {
    assert Rewritten(line) == line;
    assert ModifiedEntry(line) == [];
  }

  /** A line naming `git add` and no `modified:` adds nothing. */
  lemma PlainHintLine(finding: bool, line: string)
    requires !Contains(line, Modified) && Contains(line, AddHint)
    ensures Step(finding, line).0 == (finding || Contains(line, UntrackedHeader))
    ensures Step(finding, line).1 == []
  {
    assert Rewritten(line) == line;
    assert ModifiedEntry(line) == [];
  }

  /** The scan of a non-empty list: the first line's step, then the rest from the new flag. */
  lemma ScanCons(finding: bool, lines: seq<string>)
    requires |lines| > 0
    ensures ScanLines(finding, lines) == Step(finding, lines[0]).1 + ScanLines(Step(finding, lines[0]).0, lines[1..])
  {
  }
}
