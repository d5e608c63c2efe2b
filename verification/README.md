# check_comments — a Dafny model

`check_comments.rb` reports which uncommitted changes in a git working copy
touch comment lines. It runs `git status`, scrapes the human-readable output
for the files that changed, runs `git --no-pager diff <file>` on each one, and
flags every added or removed diff line whose text after the `+`/`-` marker
starts with a comment token given on the command line.

This project models the script's text-processing logic as pure Dafny functions
over `string` (`seq<char>`) and proves properties of it:

- `text.dfy` (module `Text`): the Ruby `String` operations the script relies
  on. These are `start_with?`, `include?`, `gsub` with a literal pattern and
  an empty replacement, `strip`, and `split("\n")`. Each has an independent
  characterisation or round trip.
- `comment_line.dfy` (module `CommentLine`): `change_line_and_is_comment_line?`.
  The regexes `/^\+[^+]/` and `/^-[^-]/` are written out on characters,
  including Ruby's rule that `^` also matches right after a line feed.
- `status.dfy` (module `Status`): the scan in `changed_files`. It is a left
  fold over the status lines with one flag, "inside the untracked section".
  It is proved equal to a closed form that gives each line's contribution on
  its own.
- `diff.dfy` (module `Diff`): the counting and summary in `diff_file`. A
  method with a loop produces the printed report. It is proved against a
  functional filter, and the filter is proved against a count of positions.
- `options.dfy` (module `Options`): the option checks at the bottom of the
  script. They are characterised as "the first failing check in a fixed order".
- `scenarios.dfy` (module `Scenarios`): concrete `git status` and `git diff`
  outputs worked through the model.
- `wrappers.dfy` (module `Wrappers`): `Option`, standing for Ruby's `nil`.

Behaviours of the code a reader may not expect:

- The no-comments message is printed as "No added, changed, or delted
  comments". The constant `Diff.NoCommentsMessage` keeps that spelling.
- Line 50 reassigns the loop variable. All later tests in that iteration see
  the rewritten line, and the emptiness test on line 55 is made before
  stripping.
- After the `Untracked files:` header, a `modified:` line can be appended
  twice (`Status.ModifiedAfterHeaderTwice`). So the count of listed files is
  not always "modified lines plus untracked lines".
- `gsub` removes every occurrence of `modified:`, not only a leading one.
  Its result can still contain `modified:`: removing the inner occurrence of
  `modmodified:ified:` leaves `modified:`.

Two more consequences of the code:

- For a merge conflict, git prints `both modified:   foo.rb`. The scan lists
  this as `both    foo.rb`, because `gsub` cuts out only the marker.
- A `.git` that is a file, as in worktrees and submodules, fails the "is a
  git repository" check. That check asks whether `.git` is a directory.

## Model

| member | source | states |
|---|---|---|
| Text.ContainsIff | check_comments.rb:49 | `include?` holds exactly when the pattern occurs at some position of the line |
| Text.ContainsFits | check_comments.rb:49 | a pattern longer than the line is never found in it |
| Text.FirstCharAbsent | check_comments.rb:55 | a pattern whose first character is missing from the line is not found in it |
| Text.ContainsMiddle | check_comments.rb:55 | a line with the pattern written out inside it contains the pattern |
| Text.ContainsAfter | check_comments.rb:49 | putting text that holds no opening character of the pattern in front of a line neither creates nor removes an occurrence |
| Text.RemoveAllAbsent | check_comments.rb:50 | `gsub` leaves a line without the pattern unchanged |
| Text.RemoveAllLeftmost | check_comments.rb:50 | `gsub` keeps the text before the leftmost match verbatim, drops the match, and continues after it, so matches never overlap |
| Text.RemoveAllShrinks | check_comments.rb:50 | each line containing the pattern loses at least the pattern's length |
| Text.StripLeft | check_comments.rb:50 | the result is a suffix of the line and does not start with whitespace |
| Text.StripLeftDropsOnlySpace | check_comments.rb:50 | everything the left strip cuts off is whitespace |
| Text.StripRight | check_comments.rb:50 | the result is a prefix of the line and does not end with whitespace |
| Text.StripRightDropsOnlySpace | check_comments.rb:50 | everything the right strip cuts off is whitespace |
| Text.Strip | check_comments.rb:50 | `strip` leaves no whitespace at either end and never lengthens the line |
| Text.StripTrimmed | check_comments.rb:50 | `strip` yields a contiguous piece of the line, with nothing but whitespace cut from either side |
| Text.AllSpaceStripsToEmpty | check_comments.rb:55 | a line of whitespace only strips to the empty string |
| Text.StripOfStripped | check_comments.rb:55 | a line without whitespace at either end is left as it is |
| Text.StripSurrounded | check_comments.rb:55 | stripping whitespace wrapped around stripped text gives exactly that text |
| Text.StripIdempotent | check_comments.rb:55 | stripping an already stripped line changes nothing |
| Text.Fields | check_comments.rb:43 | cutting at line feeds yields at least one piece |
| Text.FieldsNoLineFeed | check_comments.rb:43 | no piece holds a line feed |
| Text.JoinFields | check_comments.rb:43 | joining the pieces with line feeds restores the text |
| Text.FieldsJoin | check_comments.rb:43 | cutting joined newline-free lines restores the lines |
| Text.DropTrailingEmptyShape | check_comments.rb:43 | only a trailing run of empty strings is dropped, and the result does not end in an empty string |
| Text.SplitShape | check_comments.rb:64 | `split("\n")` gives a prefix of the raw pieces, with no line feeds and no trailing empty line, so the empty text has no lines |
| Text.JoinDropTrailingEmpty | check_comments.rb:64 | dropping the trailing empty pieces removes exactly one line feed per piece from the end of the joined text |
| Text.SplitJoin | check_comments.rb:43 | splitting joined lines restores them when none holds a line feed and the last is not empty |
| Text.SplitLosesOnlyTrailingNewlines | check_comments.rb:64 | the text is its split lines rejoined plus some line feeds at the end, and nothing else is lost |
| CommentLine.MarkerMatchOnOneLine | check_comments.rb:30 | on a line without a line feed, `/^M[^M]/` matches exactly when the first character is M and the second is not M |
| CommentLine.CommentChangeOnOneLine | check_comments.rb:29-31 | on a single line, the predicate holds exactly when: the line has two or more characters; it opens with `+` not followed by `+`, or `-` not followed by `-`; and its text after the marker starts with the token |
| CommentLine.NeverClassified | check_comments.rb:30 | a line opening with `++` or `--` (including `+++`/`---` headers), a bare marker and the empty line are never flagged, whatever the token |
| CommentLine.AddedCommentExample | check_comments.rb:29-31 | `+# hello` is flagged under `#` |
| CommentLine.RemovedCommentExample | check_comments.rb:29-31 | `-// old code` is flagged under `//` and not under `#` |
| CommentLine.EmbeddedLineFeedExample | check_comments.rb:30 | inside a text holding a line feed, `^` also matches after the line feed |
| Status.ModifiedEntry | check_comments.rb:49-51 | a line contributes a `modified:` entry exactly when it contains `modified:`, and then exactly one |
| Status.Step | check_comments.rb:49-55 | one pass never lowers the flag, appends at most two entries, and every entry is stripped |
| Status.ScanLines | check_comments.rb:45-57 | the scan lists at most two entries per line, each stripped |
| Status.ChangedFiles | check_comments.rb:38-57 | non-empty standard error gives `nil` whatever standard output holds; otherwise a list of stripped entries, at most two per line |
| Status.ScanIsConcatenation | check_comments.rb:43-57 | the scan is the in-order concatenation of each line's contribution: its `modified:` entry, then its stripped self when a header line came earlier and the line is listed; nothing is reordered or deduplicated |
| Status.NoMarkersNoFiles | check_comments.rb:46-55 | output naming neither `modified:` nor `Untracked files:` lists no files |
| Status.StepBeforeHeader | check_comments.rb:49-55 | before the header, a line appends only its `modified:` entry, and the flag rises exactly on a header line |
| Status.StepOnHeader | check_comments.rb:53-55 | a header line keeps the flag up and adds nothing beyond its `modified:` entry |
| Status.ModifiedAfterHeaderTwice | check_comments.rb:49-55 | after the header, a `modified:` line with a listed remainder is appended twice |
| Status.ModifiedBeforeHeader | check_comments.rb:49-52 | before the header, a `modified:` line whose remainder is no header lists just that remainder |
| Status.PlainLineAfterHeader | check_comments.rb:55 | under the header, a non-empty line with no marker and no `git add` is listed, stripped |
| Status.PlainHeaderLine | check_comments.rb:53-55 | a header line without `modified:` raises the flag and adds nothing |
| Status.PlainHintLine | check_comments.rb:55 | a line naming `git add` and not `modified:` adds nothing |
| Status.ScanCons | check_comments.rb:48-56 | the scan processes the first line and continues from the flag that line left |
| Diff.Flagged | check_comments.rb:67-70 | no more lines are flagged than were scanned |
| Diff.FlaggedSound | check_comments.rb:67-70 | every flagged line satisfies the predicate and is one of the diff's lines |
| Diff.FlaggedSnoc | check_comments.rb:67-70 | one more line scanned appends it to the flagged lines exactly when the predicate holds for it |
| Diff.FlaggedAppend | check_comments.rb:67-72 | flagging two pieces separately and joining the results equals flagging the whole |
| Diff.FlaggedCount | check_comments.rb:66-70 | the comment count equals the number of positions whose line satisfies the predicate |
| Diff.HeadersNeverCounted | check_comments.rb:64-70 | a split diff line opening with `++` or `--` is never counted |
| Diff.EchoFlagged | check_comments.rb:66-72 | the loop echoes exactly the flagged lines, each after a tab and a space, in input order, and counts them |
| Diff.DiffFile | check_comments.rb:60-77 | the report is: the progress line; each flagged line after a tab and a space, in input order; then either "No added, changed, or delted comments" (count zero) or the found summary with the count and the total number of split lines, header and hunk lines included; then the separator in both cases |
| Options.Validate | check_comments.rb:87-107 | the run stops at a check exactly when that check fails and every earlier check passed, and proceeds with the given repository and token exactly when none fails |
| Options.MessagesDistinct | check_comments.rb:88-103 | the four stop messages differ, so the message identifies the failing check |
| Scenarios.ModifiedLineRemainder | check_comments.rb:49-50 | cutting `modified:` out of git's line for a modified file leaves the tab, the three spaces and the name, for every name that does not itself contain `modified:` |
| Scenarios.ModifiedLineStep | check_comments.rb:49-55 | before the header, git's line for a modified file lists exactly the file's name, for every name with no whitespace at either end that contains neither `modified:` nor `Untracked files:` |
| Scenarios.ModifiedFileListed | check_comments.rb:38-57 | status output made of one such line, with empty standard error, lists exactly that name |
| Scenarios.ModifiedScenario | check_comments.rb:38-57 | `\tmodified:   foo.rb\n` with empty standard error lists `["foo.rb"]` |
| Scenarios.UntrackedScenario | check_comments.rb:48-56 | a header, then `  new_file.txt`, then git's `git add` hint lists `["new_file.txt"]` |
| Scenarios.DiffScenario | check_comments.rb:64-76 | `+# a comment\n-old code\n+new code` splits into 3 lines, only the first is flagged under `#`, and the summary reports 1 out of 3 lines |

## Left out

- Process invocation (`Open3.capture3`, lines 34 and 62): standard output and standard error are parameters. The exit status, and the standard error that `diff_file` ignores, are not modelled.
- Status.ChangedFiles: the `return nil if status.nil?` branch (line 36) is not modelled. `capture3` raises rather than return a missing status, so only the standard-error gate is kept.
- Printing: `puts stderr` (line 39) and the banners around the run (lines 109-122) are not modelled. Nor is the crash at line 113 when `changed_files` returns `nil`: it is runtime behaviour of the top-level script.
- Diff.DiffFile: the "Found comment lines added, changed, or deleted: N out of M lines" message is kept as its two numbers (`FoundSummary`), not rendered as decimal text.
- The dead `line_count` variable (lines 65 and 71) never reaches the output and is not modelled.
- `OptionParser` (lines 82-85) is not modelled: the model starts from the parsed `options` map, with each option present or absent.
- Options.Validate: `Dir.exists?` and `Dir.chdir` (lines 92, 97, 107) are file-system I/O. The two existence tests are boolean inputs, and the change of directory is what `Ready` stands for. `Dir.exists?` was removed in Ruby 3.2, where line 92 raises `NoMethodError`; the model gives it the meaning of `Dir.exist?`.
- Ruby's regex engine in general: only the two anchored patterns are written out on characters. Invalid byte sequences, which make Ruby raise, do not exist in a `seq<char>` model.
- Text.Strip: follows current Ruby, which strips NUL at both ends. Older Ruby releases kept a leading NUL.
