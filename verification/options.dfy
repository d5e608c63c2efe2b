/**
 * The checks the script makes on its options before it touches the
 * repository. They run in a fixed order and the first one that fails stops
 * the run with its message; only when all pass does the script change into
 * the repository and scan it.
 */
module Options {
  import opened Wrappers

  /** What `OptionParser` left in `options`: `-r/--repo_path` and `-c/--comment_token`. */
  datatype Options = Options(repo: Option<string>, token: Option<string>)

  /** The four checks, in the order they are made. */
  datatype Check = MissingRepo | NotDirectory | NotGitRepository | MissingToken

  /** Outcome of validation: go ahead with the repository and token, or stop at a check. */
  datatype Validation = Ready(repo: string, token: string) | Refused(failed: Check)

  /** Position of a check in the sequence. */
  function Rank(c: Check): nat {
    match c
    case MissingRepo => 0
    case NotDirectory => 1
    case NotGitRepository => 2
    case MissingToken => 3
  }

  /**
   * Whether a check fails, judged on its own. `isDirectory` says whether the
   * repository path is an existing directory and `hasGitDir` whether
   * `<path>/.git` is one; both are facts about the file system.
   */
  predicate Fails(c: Check, opts: Options, isDirectory: bool, hasGitDir: bool) {
    match c
    case MissingRepo => opts.repo.None?
    case NotDirectory => !isDirectory
    case NotGitRepository => !hasGitDir
    case MissingToken => opts.token.None?
  }

  /**
   * The validation sequence. It stops at the first failing check, so a check
   * is reported exactly when it fails and every earlier one passed; the run
   * proceeds exactly when none fails.
   */
  function Validate(opts: Options, isDirectory: bool, hasGitDir: bool): (r: Validation)
    ensures forall c: Check :: r == Refused(c) <==>
              Fails(c, opts, isDirectory, hasGitDir)
              && forall d: Check :: Rank(d) < Rank(c) ==> !Fails(d, opts, isDirectory, hasGitDir)
    ensures r.Ready? <==> forall c: Check :: !Fails(c, opts, isDirectory, hasGitDir)
    ensures r.Ready? ==> opts.repo == Some(r.repo) && opts.token == Some(r.token)
  {
    if opts.repo.None? then
      assert Fails(MissingRepo, opts, isDirectory, hasGitDir);
      Refused(MissingRepo)
    else if !isDirectory then
      assert Fails(NotDirectory, opts, isDirectory, hasGitDir);
      Refused(NotDirectory)
    else if !hasGitDir then
      assert Fails(NotGitRepository, opts, isDirectory, hasGitDir);
      Refused(NotGitRepository)
    else if opts.token.None? then
      assert Fails(MissingToken, opts, isDirectory, hasGitDir);
      Refused(MissingToken)
    else
      Ready(opts.repo.value, opts.token.value)
  }

  /** The message printed for a failed check; `repo` is the path given, when there is one. */
  function Message(c: Check, repo: string): (m: string)
  {
    match c
    case MissingRepo => "You must provide a path to a repo"
    case NotDirectory => repo + " is not a directory"
    case NotGitRepository => repo + " is not a git repository"
    case MissingToken => "You must provide a comment token to identify comments"
  }

  /** The last five characters of each message. */
  function Ending(c: Check): string {
    match c
    case MissingRepo => " repo"
    case NotDirectory => "ctory"
    case NotGitRepository => "itory"
    case MissingToken => "ments"
  }

  lemma MessageEnding(c: Check, repo: string)
    ensures var m := Message(c, repo); |m| >= 5 && m[|m| - 5..] == Ending(c)
  {
    var m := Message(c, repo);
    match c
    case MissingRepo =>
    case NotDirectory =>
      assert m == repo + " is not a directory";
    case NotGitRepository =>
      assert m == repo + " is not a git repository";
    case MissingToken =>
  }

  /** Different checks print different messages, so the message tells which check stopped the run. */
  lemma MessagesDistinct(c: Check, d: Check, repo: string)
    requires c != d
    ensures Message(c, repo) != Message(d, repo)
  {
    MessageEnding(c, repo);
    MessageEnding(d, repo);
    assert Ending(c) != Ending(d);
  }
}
