/**
 * Worked examples: concrete `git status` and `git diff` outputs and what the
 * model makes of them.
 */
module Scenarios {
  import opened Wrappers
  import opened Text
  import opened CommentLine
  import opened Status
  import opened Diff

  // ----- `git status`: a modified tracked file -----

  /** Git's line for a modified tracked file: a tab, the marker, three spaces, the name. */
  function StatusLine(name: string): string {
    "\t" + Modified + "   " + name
  }

  /** Cutting `modified:` out of git's line leaves the tab, the three spaces and the name. */
  lemma ModifiedLineRemainder(name: string)
    requires !Contains(name, Modified)
    ensures Contains(StatusLine(name), Modified)
    ensures RemoveAll(StatusLine(name), Modified) == "\t   " + name
  {
    var rest := "   " + name;
    var line := StatusLine(name);
    assert line == "\t" + Modified + rest;
    assert line[1..10] == Modified;
    assert OccursAt(line, Modified, 1);
    ContainsIff(line, Modified);
    assert !OccursAt(line, Modified, 0) by { assert line[0] != Modified[0]; }
    RemoveAllLeftmost(line, Modified, 1);
    assert line[10..] == rest;
    ContainsAfter("   ", name, Modified);
    RemoveAllAbsent(rest, Modified);
    assert line[..1] + rest == "\t   " + name;
  }

  lemma ModifiedLineEntry(name: string)
    requires !Contains(name, Modified) && IsStripped(name)
    ensures Rewritten(StatusLine(name)) == name
  {
    ModifiedLineRemainder(name);
    StripSurrounded("\t   ", name, []);
    assert "\t   " + name + [] == "\t   " + name;
  }

  /** Before the header, a modified file's status line lists exactly its name. */
  lemma ModifiedLineStep(name: string)
    requires !Contains(name, Modified) && !Contains(name, UntrackedHeader) && IsStripped(name)
    ensures !Step(false, StatusLine(name)).0 && Step(false, StatusLine(name)).1 == [name]
  {
    ModifiedLineEntry(name);
    ModifiedBeforeHeader(StatusLine(name));
  }

  lemma SplitOneTrailing(line: string)
    requires '\n' !in line && |line| > 0
    ensures Split(line + "\n") == [line]
  {
    FieldsJoin([line, []]);
    assert JoinLines([line, []]) == line + "\n";
    assert [line, []][..1] == [line];
    assert DropTrailingEmpty([line, []]) == DropTrailingEmpty([line]);
  }

  /** Status output of a single line lists what that line's step appends. */
  lemma OneLineStatus(stdout: string, line: string)
    requires '\n' !in line && |line| > 0 && stdout == line + "\n"
    ensures ChangedFiles(stdout, "") == Some(Step(false, line).1)
  {
    SplitOneTrailing(line);
    ScanCons(false, [line]);
    assert [line][1..] == [];
    assert ScanLines(Step(false, line).0, []) == [];
    assert Step(false, line).1 + [] == Step(false, line).1;
  }

  /** Status output made of one `modified:` line lists exactly the file it names. */
  lemma ModifiedFileListed(name: string)
    requires '\n' !in name && !Contains(name, Modified) && !Contains(name, UntrackedHeader) && IsStripped(name)
    ensures ChangedFiles(StatusLine(name) + "\n", "") == Some([name])
  {
    var line := StatusLine(name);
    assert '\n' !in line by {
      assert line == "\t" + Modified + "   " + name;
    }
    OneLineStatus(line + "\n", line);
    ModifiedLineStep(name);
  }

  /** The facts about `foo.rb` that the general lemma asks for. */
  lemma FooRbListable()
    ensures '\n' !in "foo.rb" && IsStripped("foo.rb")
    ensures !Contains("foo.rb", Modified) && !Contains("foo.rb", UntrackedHeader)
  {
    FirstCharAbsent("foo.rb", Modified);
    FirstCharAbsent("foo.rb", UntrackedHeader);
  }

  /** `git status` output naming one modified file. */
  const FooRbStatus: string := "\tmodified:   foo.rb\n"

  lemma FooRbStatusLine()
    ensures FooRbStatus == StatusLine("foo.rb") + "\n"
  {
  }

  /** A lone `modified:` line lists exactly the file it names. */
  lemma ModifiedScenario()
    ensures ChangedFiles(FooRbStatus, "") == Some(["foo.rb"])
  {
    FooRbListable();
    ModifiedFileListed("foo.rb");
    FooRbStatusLine();
  }

  // ----- `git status`: an untracked file and git's hint line -----

  lemma HeaderStep(line: string)
    requires Modified[0] !in line && StartsWith(line, UntrackedHeader)
    ensures Step(false, line).0 && Step(false, line).1 == []
  {
    FirstCharAbsent(line, Modified);
    PlainHeaderLine(false, line);
  }

  /**
   * The listed line is a parameter fixed by the precondition: the verifier
   * then keeps the line's two pieces apart instead of unfolding the whole
   * literal at once.
   */
  lemma ListedFileStep(line: string)
    requires line == "  " + "new_file.txt"
    ensures Step(true, line).0 && Step(true, line).1 == ["new_file.txt"]
  {
    FirstCharAbsent(line, Modified);
    FirstCharAbsent(line, UntrackedHeader);
    FirstCharAbsent(line, AddHint);
    PlainLineAfterHeader(line);
    StripSurrounded("  ", "new_file.txt", []);
    assert "  " + "new_file.txt" + [] == line;
  }

  lemma HintStep(line: string)
    requires Modified[0] !in line && Contains(line, AddHint)
    ensures Step(true, line).0 && Step(true, line).1 == []
  {
    FirstCharAbsent(line, Modified);
    PlainHintLine(true, line);
  }

  /** A header line, a listed line and a line adding nothing: only the listed line's entry remains. */
  lemma HeaderThenListed(header: string, file: string, hint: string, entry: string)
    requires Step(false, header).0 && Step(false, header).1 == []
    requires Step(true, file).0 && Step(true, file).1 == [entry]
    requires Step(true, hint).1 == []
    ensures ScanLines(false, [header, file, hint]) == [entry]
  {
    var lines := [header, file, hint];
    ScanCons(false, lines);
    assert lines[1..] == [file, hint];
    ScanCons(true, [file, hint]);
    ScanCons(true, [hint]);
    assert [hint][1..] == [];
  }

  lemma GitHeaderStep()
    ensures Step(false, "Untracked files:").0 && Step(false, "Untracked files:").1 == []
  {
    var header := "Untracked files:";
    assert StartsWith(header, UntrackedHeader);
    HeaderStep(header);
  }

  lemma GitListedStep()
    ensures Step(true, "  new_file.txt").0 && Step(true, "  new_file.txt").1 == ["new_file.txt"]
  {
    var file := "  new_file.txt";
    assert file == "  " + "new_file.txt";
    ListedFileStep(file);
  }

  lemma GitHintNamesAdd()
    ensures Modified[0] !in GitHint && Contains(GitHint, AddHint)
  {
    var before, after := "  (use \"", " ...\" to include)";
    assert GitHint == before + AddHint + after;
    ContainsMiddle(before, AddHint, after);
  }

  lemma GitHintStep()
    ensures Step(true, GitHint).0 && Step(true, GitHint).1 == []
  {
    GitHintNamesAdd();
    HintStep(GitHint);
  }

  /** The hint git prints under its untracked-files header. */
  const GitHint: string := "  (use \"git add ...\" to include)"

  /** Under the header, a listed file is kept and git's `git add` hint is not. */
  lemma UntrackedScenario()
    ensures ScanLines(false, ["Untracked files:", "  new_file.txt", GitHint]) == ["new_file.txt"]
  {
    GitHeaderStep();
    GitListedStep();
    GitHintStep();
    HeaderThenListed("Untracked files:", "  new_file.txt", GitHint, "new_file.txt");
  }

  // ----- `git diff`: one comment among three changed lines -----

  /** A diff body of three changed lines, one of them an added comment. */
  const DiffText: string := "+# a comment\n-old code\n+new code"

  /** The lines `split` makes of `DiffText`. */
  const DiffLines: seq<string> := ["+# a comment", "-old code", "+new code"]

  lemma DiffTextSplits()
    ensures Split(DiffText) == DiffLines
  {
    var lines := DiffLines;
    assert JoinLines(lines[2..]) == lines[2];
    assert JoinLines(lines[1..]) == lines[1] + "\n" + lines[2];
    assert JoinLines(lines) == DiffText;
    SplitJoin(lines);
  }

  lemma DiffLinesFlagged()
    ensures Flagged(DiffLines, "#") == [DiffLines[0]]
  {
    var lines := DiffLines;
    CommentChangeOnOneLine(lines[0], "#");
    assert lines[0][1..][..1] == "#";
    CommentChangeOnOneLine(lines[1], "#");
    CommentChangeOnOneLine(lines[2], "#");
    assert lines[1..][1..][1..] == [];
  }

  /** One added comment among three lines: one line flagged, out of three. */
  lemma DiffScenario()
    ensures var lines := Split(DiffText);
            && |lines| == 3
            && Flagged(lines, "#") == ["+# a comment"]
            && Summary(|Flagged(lines, "#")|, |lines|) == FoundSummary(1, 3)
  {
    DiffTextSplits();
    DiffLinesFlagged();
  }
}
