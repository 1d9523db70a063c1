/**
 * Building the blame of one file at one commit (src/file_blame.rs).
 *
 * Everything the source asks of the file system and of `git` is a field of a
 * `Repository` value: whether the path exists and is a file, whether `git`
 * finds the repository around it, the reply of `git blame`, the output of
 * `git show --pretty=format:%p-%s` for a commit, and the syntax highlighter
 * chosen by the file's extension.
 *
 * `Build` is the specification of `FileBlame::parse`: the checks in the order
 * the source makes them, then one `Step` per line of blame output, filling the
 * commit cache on the way.  `Parse` is the same procedure written as the loop
 * the source has, proved equal to `Build`.
 */
module Blame {
  import opened Wrappers
  import opened BlameGrammar

  /** Metadata of one commit, as kept in the commit cache. */
  datatype Commit = Commit(
    sha: string,
    author: string,
    commitMessage: string,
    parentCommitSha: Option<string>,
    timestamp: string)

  /** One line of the blame; the commit itself is looked up in the cache. */
  datatype BlameLine = BlameLine(commitSha: string, contents: string, lineNumber: string)

  /** All lines of the blame of `filepath` at `commitSha`. */
  datatype FileBlame = FileBlame(blameLines: seq<BlameLine>, filepath: string, commitSha: string)

  datatype FileBlameError = NotExist | NotFile | NotGit | MissingAtCommit | Unknown(stderr: string)

  /** The message each error is displayed with. */
  function ErrorMessage(e: FileBlameError): (m: string)
    ensures |m| > 0
  {
    match e
    case NotExist => "File doesn't exist"
    case NotFile => "Provided path is not a regular file"
    case NotGit => "File is not in a git repository"
    case MissingAtCommit => "File does not exist at commit"
    case Unknown(s) => "Unknown error: " + s
  }

  /** Different errors are displayed differently; in particular the message of
      an unknown error gives back git's own error text. */
  lemma ErrorMessageInjective(e1: FileBlameError, e2: FileBlameError)
    requires ErrorMessage(e1) == ErrorMessage(e2)
    ensures e1 == e2
  {
    MessageShape(e1);
    MessageShape(e2);
    if e1.Unknown? && e2.Unknown? {
      var m := ErrorMessage(e1);
      assert e1.stderr == m[15..] == e2.stderr;
    }
  }

  /** Messages start with `U` exactly for unknown errors, and the fixed ones
      differ in length or first letter. */
  lemma MessageShape(e: FileBlameError)
    ensures ErrorMessage(e)[0] == (if e.Unknown? then 'U' else if e.NotFile? then 'P' else 'F')
    ensures e.NotExist? ==> |ErrorMessage(e)| == 18
    ensures e.NotGit? ==> |ErrorMessage(e)| == 31
    ensures e.MissingAtCommit? ==> |ErrorMessage(e)| == 29
  {
  }

  /** The reply of `git blame <commit> <file>`: the lines of its standard
      output, or its standard error when it fails. */
  datatype BlameReply = BlameSucceeded(stdout: seq<string>) | BlameFailed(stderr: string)

  /** The highlighter picked by the file's extension: none without an
      extension, a panic for an extension the syntax set does not know, and a
      colouring function otherwise. */
  datatype Syntax = Plain | Unrecognised | Highlighted(paint: string -> string)

  /** The outside world, as `parse` queries it. */
  datatype Repository = Repository(
    pathExists: string -> bool,
    isFile: string -> bool,
    hasRoot: string -> bool,
    insideWorkTree: string -> bool,
    existsAtCommit: (string, string) -> bool,
    blame: (string, string) -> BlameReply,
    show: string -> string,
    syntax: string -> Syntax)

  datatype Outcome = Built(blame: FileBlame) | Failed(error: FileBlameError) | Panicked

  // ---------------------------------------------------------------------
  // The checks before `git blame` runs.
  // ---------------------------------------------------------------------

  datatype Check = Pass | Reject(error: FileBlameError) | Crash

  /** The checks as the source makes them: `canonicalize().unwrap()` panics on
      a path that does not exist before the `NotExist` test is reached, and
      `git_root_dir` panics outside a repository before the `NotGit` test is
      reached. */
  function PrecheckAsWritten(repo: Repository, path: string, commitSha: string): Check {
    if !repo.pathExists(path) then Crash
    else if !repo.isFile(path) then Reject(NotFile)
    else if !repo.hasRoot(path) then Crash
    else if !repo.insideWorkTree(path) then Reject(NotGit)
    else if !repo.existsAtCommit(path, commitSha) then Reject(MissingAtCommit)
    else Pass
  }

  /** The checks as the error type intends them: each failure is reported
      with its own error, in the order the source tests them. */
  function Precheck(repo: Repository, path: string, commitSha: string): (r: Option<FileBlameError>)
    ensures r == Some(NotExist) <==> !repo.pathExists(path)
    ensures r == Some(NotFile) <==> repo.pathExists(path) && !repo.isFile(path)
    ensures r == Some(NotGit) <==>
      repo.pathExists(path) && repo.isFile(path) && !(repo.hasRoot(path) && repo.insideWorkTree(path))
    ensures r == Some(MissingAtCommit) <==>
      repo.pathExists(path) && repo.isFile(path) && repo.hasRoot(path) && repo.insideWorkTree(path)
      && !repo.existsAtCommit(path, commitSha)
    ensures r.None? <==>
      repo.pathExists(path) && repo.isFile(path) && repo.hasRoot(path) && repo.insideWorkTree(path)
      && repo.existsAtCommit(path, commitSha)
  {
    if !repo.pathExists(path) then Some(NotExist)
    else if !repo.isFile(path) then Some(NotFile)
    else if !repo.hasRoot(path) || !repo.insideWorkTree(path) then Some(NotGit)
    else if !repo.existsAtCommit(path, commitSha) then Some(MissingAtCommit)
    else None
  }

  /** As written, `NotExist` is never returned: a missing path panics instead. */
  lemma MissingPathPanicsAsWritten(repo: Repository, path: string, commitSha: string)
    requires !repo.pathExists(path)
    ensures PrecheckAsWritten(repo, path, commitSha) == Crash
    ensures Precheck(repo, path, commitSha) == Some(NotExist)
  {
  }

  /** As written, a file outside any repository panics in `git_root_dir`
      instead of being reported as `NotGit`. */
  lemma OutsideRepositoryPanicsAsWritten(repo: Repository, path: string, commitSha: string)
    requires repo.pathExists(path) && repo.isFile(path) && !repo.hasRoot(path)
    ensures PrecheckAsWritten(repo, path, commitSha) == Crash
    ensures Precheck(repo, path, commitSha) == Some(NotGit)
  {
  }

  /** Wherever the checks as written do not panic, they agree with the
      intended ones. */
  lemma PrecheckAgreesUnlessCrash(repo: Repository, path: string, commitSha: string)
    requires PrecheckAsWritten(repo, path, commitSha) != Crash
    ensures PrecheckAsWritten(repo, path, commitSha) ==
      match Precheck(repo, path, commitSha)
      case None => Pass
      case Some(e) => Reject(e)
  {
  }

  // ---------------------------------------------------------------------
  // String helpers the loop relies on.
  // ---------------------------------------------------------------------

  /** `trim_start_matches("^")`: drops every leading `^`. */
  function TrimBoundary(s: string): string {
    if |s| > 0 && s[0] == '^' then TrimBoundary(s[1..]) else s
  }

  /** What `TrimBoundary` removes is a run of `^`, and what it keeps is the
      rest of the string, which no longer starts with `^`. */
  lemma {:induction false} TrimBoundaryStrips(s: string)
    ensures
      var r := TrimBoundary(s);
      && |r| <= |s| && r == s[|s| - |r|..]
      && (forall i :: 0 <= i < |s| - |r| ==> s[i] == '^')
      && (|r| > 0 ==> r[0] != '^')
  {
    if |s| > 0 && s[0] == '^' {
      TrimBoundaryStrips(s[1..]);
      var r := TrimBoundary(s);
      assert s[1..][|s| - 1 - |r|..] == s[|s| - |r|..];
      forall i | 0 <= i < |s| - |r| ensures s[i] == '^' {
        if i > 0 {
          assert s[i] == s[1..][i - 1];
        }
      }
    }
  }

  /** The sha group with its boundary marker removed is the plain hash. */
  lemma TrimShaField(f: string)
    requires IsShaField(f)
    ensures TrimBoundary(f) == (if f[0] == '^' then f[1..] else f)
    ensures 4 <= |TrimBoundary(f)| <= 40 && AllIn(TrimBoundary(f), Hex)
  {
    var h := if f[0] == '^' then f[1..] else f;
    assert InClass(h[0], Hex);
    assert TrimBoundary(h) == h;
  }

  /** `str::split_once`: the text before and after the first `c`. */
  function SplitOnce(s: string, c: char): (r: Option<(string, string)>)
    ensures r.None? <==> c !in s
    ensures r.Some? ==> c !in r.value.0 && r.value.0 + [c] + r.value.1 == s
  {
    match IndexOf(s, c)
    case None => None
    case Some(i) =>
      assert s == s[..i] + [c] + s[i + 1..];
      Some((s[..i], s[i + 1..]))
  }

  /** Splitting at the first separator undoes joining around it. */
  lemma SplitOnceJoin(p: string, c: char, m: string)
    requires c !in p
    ensures SplitOnce(p + [c] + m, c) == Some((p, m))
  {
    var s := p + [c] + m;
    assert s[..|p|] == p;
    IndexOfIs(s, c, |p|);
    assert s[|p| + 1..] == m;
  }

  /** An empty parent list (the initial commit) means no parent. */
  function ParentOf(token: string): (r: Option<string>)
    ensures r.None? <==> token == []
    ensures r.Some? ==> r.value == token
  {
    if token == [] then None else Some(token)
  }

  /** The cache entry for `sha`, first met on the blame line `l`: author and
      timestamp come from that line, parent and subject from `git show`.
      `None` where the source's `split_once("-").unwrap()` panics. */
  function FetchCommit(repo: Repository, sha: string, l: LineLayout): (r: Option<Commit>)
    ensures r.None? <==> '-' !in repo.show(sha)
    ensures r.Some? ==>
      && r.value.sha == sha && r.value.author == l.author && r.value.timestamp == l.tail.timestamp
      && ParentAndSubject(r.value) == repo.show(sha)
    ensures r.Some? && r.value.parentCommitSha.Some? ==>
      r.value.parentCommitSha.value != [] && '-' !in r.value.parentCommitSha.value
  {
    match SplitOnce(repo.show(sha), '-')
    case None => None
    case Some(parts) => Some(Commit(sha, l.author, parts.1, ParentOf(parts.0), l.tail.timestamp))
  }

  /** What `git show --pretty=format:%p-%s` prints for a commit. */
  function ParentAndSubject(c: Commit): string {
    (match c.parentCommitSha case None => "" case Some(p) => p) + "-" + c.commitMessage
  }

  /** The contents after syntax highlighting. */
  function Paint(syntax: Syntax, contents: string): string {
    match syntax
    case Highlighted(paint) => paint(contents)
    case _ => contents
  }

  /** The blame line the loop pushes for one matched line of output. */
  function LineOf(syntax: Syntax, l: LineLayout): BlameLine {
    BlameLine(TrimBoundary(l.shaField), Paint(syntax, l.tail.contents), l.tail.lineNumber)
  }

  // ---------------------------------------------------------------------
  // The loop over the lines of `git blame` output.
  // ---------------------------------------------------------------------

  /** The regex matched against each line of output, in order; `None` for a
      line it does not match. */
  function MatchAll(out: seq<string>): (r: seq<Option<LineLayout>>)
    ensures |r| == |out|
    ensures forall i :: 0 <= i < |out| ==> r[i] == Decompose(out[i])
  {
    seq(|out|, i requires 0 <= i < |out| => Decompose(out[i]))
  }

  /** The loop's state after some lines: the blame lines pushed so far, the
      cache, whether the loop has panicked, and the commits `git show` has
      been run for, in order. */
  datatype Progress = Progress(lines: seq<BlameLine>, cache: map<string, Commit>, panicked: bool, fetched: seq<string>)

  /** One iteration, given the match of its line: panic if the line did not
      match, fetch the commit if the cache lacks it (panic if `git show`
      printed no `-`), push the blame line. */
  function Step(repo: Repository, syntax: Syntax, p: Progress, m: Option<LineLayout>): Progress {
    if p.panicked then p
    else
      match m
      case None => p.(panicked := true)
      case Some(l) =>
        var sha := TrimBoundary(l.shaField);
        if sha in p.cache then p.(lines := p.lines + [LineOf(syntax, l)])
        else
          match FetchCommit(repo, sha, l)
          case None => p.(panicked := true, fetched := p.fetched + [sha])
          case Some(c) => Progress(p.lines + [LineOf(syntax, l)], p.cache[sha := c], false, p.fetched + [sha])
  }

  /** The loop run over the matches of the output lines, starting from `cache`. */
  function Run(repo: Repository, syntax: Syntax, ms: seq<Option<LineLayout>>, cache: map<string, Commit>): Progress
    decreases |ms|
  {
    if |ms| == 0 then Progress([], cache, false, [])
    else Step(repo, syntax, Run(repo, syntax, ms[..|ms| - 1], cache), ms[|ms| - 1])
  }

  /** `FileBlame::parse` with the intended checks: the outcome and the cache
      afterwards. */
  function Build(repo: Repository, path: string, commitSha: string, cache: map<string, Commit>): (Outcome, map<string, Commit>) {
    match Precheck(repo, path, commitSha)
    case Some(e) => (Failed(e), cache)
    case None =>
      match repo.blame(path, commitSha)
      case BlameFailed(stderr) => (Failed(Unknown(stderr)), cache)
      case BlameSucceeded(out) =>
        var syntax := repo.syntax(path);
        if syntax.Unrecognised? then (Panicked, cache)
        else
          var p := Run(repo, syntax, MatchAll(out), cache);
          if p.panicked then (Panicked, p.cache)
          else (Built(FileBlame(p.lines, path, commitSha)), p.cache)
  }

  /** `FileBlame::parse` as written: the same, except where the checks as
      written panic. */
  function BuildAsWritten(repo: Repository, path: string, commitSha: string, cache: map<string, Commit>): (Outcome, map<string, Commit>) {
    if PrecheckAsWritten(repo, path, commitSha) == Crash then (Panicked, cache)
    else Build(repo, path, commitSha, cache)
  }

  /** The commits `parse` runs `git show` for, in order. */
  function BuildFetches(repo: Repository, path: string, commitSha: string, cache: map<string, Commit>): seq<string> {
    if LoopRuns(repo, path, commitSha) then
      Run(repo, repo.syntax(path), MatchAll(repo.blame(path, commitSha).stdout), cache).fetched
    else []
  }

  /** `FileBlame::parse`: its loop as the source writes it, after the checks
      as they are intended (`Precheck`, not `PrecheckAsWritten`).  `fetched`
      logs the commits it runs `git show` for. */
  method Parse(repo: Repository, filepath: string, commitSha: string, cache: map<string, Commit>)
    returns (outcome: Outcome, newCache: map<string, Commit>, ghost fetched: seq<string>)
    ensures (outcome, newCache) == Build(repo, filepath, commitSha, cache)
    ensures fetched == BuildFetches(repo, filepath, commitSha, cache)
  {
    var check := Precheck(repo, filepath, commitSha);
    if check.Some? {
      return Failed(check.value), cache, [];
    }
    var reply := repo.blame(filepath, commitSha);
    if reply.BlameFailed? {
      return Failed(Unknown(reply.stderr)), cache, [];
    }
    var syntax := repo.syntax(filepath);
    if syntax.Unrecognised? {
      return Panicked, cache, [];
    }
    var ok, lines;
    ok, lines, newCache, fetched := ParseOutput(repo, syntax, reply.stdout, cache);
    outcome := if ok then Built(FileBlame(lines, filepath, commitSha)) else Panicked;
  }

  /** The loop of `parse` over the lines of `git blame` output: match each
      line and handle it, stopping where the source panics (`ok` false). */
  method ParseOutput(repo: Repository, syntax: Syntax, out: seq<string>, cache: map<string, Commit>)
    returns (ok: bool, lines: seq<BlameLine>, newCache: map<string, Commit>, ghost fetched: seq<string>)
    ensures var p := Run(repo, syntax, MatchAll(out), cache);
      p.lines == lines && p.cache == newCache && p.panicked == !ok
    ensures Run(repo, syntax, MatchAll(out), cache).fetched == fetched
  {
    newCache, fetched := cache, [];
    ghost var ms := MatchAll(out);
    lines := [];
    var i := 0;
    while i < |out|
      invariant 0 <= i <= |out|
      invariant Run(repo, syntax, ms[..i], cache) == Progress(lines, newCache, false, fetched)
    {
      RunStep(repo, syntax, ms, cache, i);
      var layout := Decompose(out[i]);
      assert layout == ms[i];
      if layout.None? {
        RunAfterPanic(repo, syntax, ms, cache, i + 1);
        return false, lines, newCache, fetched;
      }
      ok, lines, newCache, fetched := ParseLine(repo, syntax, layout.value, lines, newCache, fetched);
      if !ok {
        RunAfterPanic(repo, syntax, ms, cache, i + 1);
        return false, lines, newCache, fetched;
      }
      i := i + 1;
    }
    assert ms[..i] == ms;
    return true, lines, newCache, fetched;
  }

  /** The body of the loop of `parse` for a line that matched: fetch the
      commit unless it is cached, then push the blame line.  `ok` is false
      where the source panics; `log` records each `git show`. */
  method ParseLine(repo: Repository, syntax: Syntax, l: LineLayout, lines: seq<BlameLine>, cache: map<string, Commit>,
                   ghost log: seq<string>)
    returns (ok: bool, newLines: seq<BlameLine>, newCache: map<string, Commit>, ghost newLog: seq<string>)
    ensures var p := Step(repo, syntax, Progress(lines, cache, false, log), Some(l));
      p.lines == newLines && p.cache == newCache && p.panicked == !ok
    ensures Step(repo, syntax, Progress(lines, cache, false, log), Some(l)).fetched == newLog
  {
    newLines, newCache, newLog := lines, cache, log;
    var sha := TrimBoundary(l.shaField);
    if sha !in cache {
      newLog := log + [sha];
      var fetched := FetchCommit(repo, sha, l);
      if fetched.None? {
        return false, lines, cache, newLog;
      }
      newCache := cache[sha := fetched.value];
    }
    newLines := lines + [BlameLine(sha, Paint(syntax, l.tail.contents), l.tail.lineNumber)];
    ok := true;
  }

  /** One more line of output is one more `Step`. */
  lemma RunStep(repo: Repository, syntax: Syntax, ms: seq<Option<LineLayout>>, cache: map<string, Commit>, i: nat)
    requires i < |ms|
    ensures Run(repo, syntax, ms[..i + 1], cache) == Step(repo, syntax, Run(repo, syntax, ms[..i], cache), ms[i])
  {
    assert ms[..i + 1][..i] == ms[..i];
  }

  /** Once the loop has panicked, later lines change nothing. */
  lemma {:induction false} RunAfterPanic(repo: Repository, syntax: Syntax, ms: seq<Option<LineLayout>>, cache: map<string, Commit>, i: nat)
    requires i <= |ms| && Run(repo, syntax, ms[..i], cache).panicked
    ensures Run(repo, syntax, ms, cache) == Run(repo, syntax, ms[..i], cache)
    decreases |ms| - i
  {
    if i == |ms| {
      assert ms[..i] == ms;
    } else {
      assert ms[..i + 1][..i] == ms[..i];
      RunAfterPanic(repo, syntax, ms, cache, i + 1);
    }
  }

  // ---------------------------------------------------------------------
  // What the loop guarantees.
  // ---------------------------------------------------------------------

  /** `smaller` is contained in `larger`, entry for entry. */
  predicate Extends(larger: map<string, Commit>, smaller: map<string, Commit>) {
    forall k :: k in smaller ==> k in larger && larger[k] == smaller[k]
  }

  /** Blame line `i` is the first one for commit `sha`. */
  predicate FirstMention(lines: seq<BlameLine>, i: nat, sha: string)
    requires i < |lines|
  {
    lines[i].commitSha == sha && forall j :: 0 <= j < i ==> lines[j].commitSha != sha
  }

  /** Every line matched, and blame line `i` is made of match `i`. */
  predicate LinesFrom(syntax: Syntax, ms: seq<Option<LineLayout>>, lines: seq<BlameLine>) {
    && |lines| == |ms|
    && forall i :: 0 <= i < |ms| ==> ms[i].Some? && lines[i] == LineOf(syntax, ms[i].value)
  }

  /** The loop keeps the lines in step with the output. */
  lemma {:induction false} RunLines(repo: Repository, syntax: Syntax, ms: seq<Option<LineLayout>>, cache: map<string, Commit>)
    requires !Run(repo, syntax, ms, cache).panicked
    ensures LinesFrom(syntax, ms, Run(repo, syntax, ms, cache).lines)
  {
    if |ms| > 0 {
      var prefix := ms[..|ms| - 1];
      RunLines(repo, syntax, prefix, cache);
      var lines := Run(repo, syntax, ms, cache).lines;
      assert lines[..|prefix|] == Run(repo, syntax, prefix, cache).lines;
      forall i | 0 <= i < |ms|
        ensures ms[i].Some? && lines[i] == LineOf(syntax, ms[i].value)
      {
        if i < |prefix| {
          assert ms[i] == prefix[i];
          assert lines[i] == lines[..|prefix|][i];
        }
      }
    }
  }

  /** The cache only grows: entries already there are neither removed nor
      replaced. */
  lemma {:induction false} RunExtendsCache(repo: Repository, syntax: Syntax, ms: seq<Option<LineLayout>>, cache: map<string, Commit>)
    ensures Extends(Run(repo, syntax, ms, cache).cache, cache)
  {
    if |ms| > 0 {
      RunExtendsCache(repo, syntax, ms[..|ms| - 1], cache);
      StepExtendsCache(repo, syntax, Run(repo, syntax, ms[..|ms| - 1], cache), ms[|ms| - 1]);
    }
  }

  /** One iteration, panicking or not, keeps every cache entry. */
  lemma StepExtendsCache(repo: Repository, syntax: Syntax, before: Progress, m: Option<LineLayout>)
    ensures Extends(Step(repo, syntax, before, m).cache, before.cache)
  {
  }

  /** After the loop, the commit of every blame line is in the cache. */
  lemma {:induction false} RunCachesEveryCommit(repo: Repository, syntax: Syntax, ms: seq<Option<LineLayout>>, cache: map<string, Commit>)
    requires !Run(repo, syntax, ms, cache).panicked
    ensures
      var p := Run(repo, syntax, ms, cache);
      forall i :: 0 <= i < |p.lines| ==> p.lines[i].commitSha in p.cache
  {
    if |ms| > 0 {
      var prefix := ms[..|ms| - 1];
      var before := Run(repo, syntax, prefix, cache);
      RunCachesEveryCommit(repo, syntax, prefix, cache);
      StepFacts(repo, syntax, before, ms[|ms| - 1]);
    }
  }

  /** Commit `sha` entered the cache on blame line `i`, the first line that
      refers to it. */
  predicate FetchedAt(repo: Repository, ms: seq<Option<LineLayout>>, p: Progress, sha: string, i: nat)
    requires sha in p.cache
  {
    && i < |ms| && ms[i].Some? && i < |p.lines| && FirstMention(p.lines, i, sha)
    && Some(p.cache[sha]) == FetchCommit(repo, sha, ms[i].value)
  }

  /** What one iteration that does not panic does: it pushes the line for
      its match, keeps every cache entry, and adds at most the entry for the
      line's commit, which is then cached. */
  lemma StepFacts(repo: Repository, syntax: Syntax, before: Progress, m: Option<LineLayout>)
    requires !before.panicked && !Step(repo, syntax, before, m).panicked
    ensures m.Some?
    ensures
      var p := Step(repo, syntax, before, m);
      var sha := TrimBoundary(m.value.shaField);
      && p.lines == before.lines + [LineOf(syntax, m.value)]
      && Extends(p.cache, before.cache)
      && sha in p.cache
      && forall k :: k in p.cache && k !in before.cache ==> k == sha && Some(p.cache[k]) == FetchCommit(repo, k, m.value)
  {
  }

  /** A key the loop adds is the commit of a blame line; its entry was
      fetched when that commit was first met, with author and timestamp taken
      from that line. */
  lemma {:induction false} RunNewEntries(repo: Repository, syntax: Syntax, ms: seq<Option<LineLayout>>, cache: map<string, Commit>)
    requires !Run(repo, syntax, ms, cache).panicked
    ensures
      var p := Run(repo, syntax, ms, cache);
      forall sha :: sha in p.cache && sha !in cache ==> exists i :: FetchedAt(repo, ms, p, sha, i)
  {
    if |ms| > 0 {
      var prefix := ms[..|ms| - 1];
      var before := Run(repo, syntax, prefix, cache);
      var p := Run(repo, syntax, ms, cache);
      RunNewEntries(repo, syntax, prefix, cache);
      RunLines(repo, syntax, prefix, cache);
      RunCachesEveryCommit(repo, syntax, prefix, cache);
      StepFacts(repo, syntax, before, ms[|ms| - 1]);
      forall sha | sha in p.cache && sha !in cache
        ensures exists i :: FetchedAt(repo, ms, p, sha, i)
      {
        if sha in before.cache {
          var i :| FetchedAt(repo, prefix, before, sha, i);
          EarlierEntryKept(repo, ms, prefix, before, p, sha, i);
        } else {
          NewestEntry(repo, ms, before, p, sha);
        }
      }
    }
  }

  lemma EarlierEntryKept(repo: Repository, ms: seq<Option<LineLayout>>, prefix: seq<Option<LineLayout>>,
                         before: Progress, p: Progress, sha: string, i: nat)
    requires |ms| > 0 && prefix == ms[..|ms| - 1]
    requires sha in before.cache && FetchedAt(repo, prefix, before, sha, i)
    requires |p.lines| == |before.lines| + 1 && p.lines[..|before.lines|] == before.lines
    requires Extends(p.cache, before.cache)
    ensures sha in p.cache && FetchedAt(repo, ms, p, sha, i)
  {
    assert ms[i] == prefix[i];
    assert forall j :: 0 <= j <= i ==> p.lines[j] == p.lines[..|before.lines|][j];
  }

  lemma NewestEntry(repo: Repository, ms: seq<Option<LineLayout>>, before: Progress, p: Progress, sha: string)
    requires |ms| > 0 && ms[|ms| - 1].Some? && |before.lines| == |ms| - 1 && |p.lines| == |ms|
    requires p.lines == before.lines + [p.lines[|ms| - 1]]
    requires p.lines[|ms| - 1].commitSha == TrimBoundary(ms[|ms| - 1].value.shaField)
    requires forall j :: 0 <= j < |before.lines| ==> before.lines[j].commitSha in before.cache
    requires sha in p.cache && sha !in before.cache
    requires sha == TrimBoundary(ms[|ms| - 1].value.shaField)
    requires Some(p.cache[sha]) == FetchCommit(repo, sha, ms[|ms| - 1].value)
    ensures FetchedAt(repo, ms, p, sha, |ms| - 1)
  {
    var n := |ms| - 1;
    forall j | 0 <= j < n ensures p.lines[j].commitSha != sha {
      assert p.lines[j] == before.lines[j];
    }
  }

  /** Every key of the cache is its commit's sha. */
  predicate KeyedBySha(cache: map<string, Commit>) {
    forall sha :: sha in cache ==> cache[sha].sha == sha
  }

  lemma {:induction false} RunKeepsKeyedBySha(repo: Repository, syntax: Syntax, ms: seq<Option<LineLayout>>, cache: map<string, Commit>)
    requires KeyedBySha(cache)
    ensures KeyedBySha(Run(repo, syntax, ms, cache).cache)
  {
    if |ms| > 0 {
      RunKeepsKeyedBySha(repo, syntax, ms[..|ms| - 1], cache);
    }
  }

  /** The log of `git show` calls, for a run from `before` that ended with
      `after`: no commit is fetched twice, none that was cached already, and
      every new cache entry was fetched.  When the run did not panic, every
      fetched commit is in `after`: the last one fetched may be missing only
      because its reply made the loop panic. */
  predicate FetchLog(fetched: seq<string>, before: map<string, Commit>, after: map<string, Commit>, complete: bool) {
    && (forall i, j :: 0 <= i < j < |fetched| ==> fetched[i] != fetched[j])
    && (forall i :: 0 <= i < |fetched| ==> fetched[i] !in before)
    && (forall k :: k in after && k !in before ==> k in fetched)
    && (complete ==> forall i :: 0 <= i < |fetched| ==> fetched[i] in after)
  }

  /** The loop runs `git show` at most once per commit, only for commits the
      cache lacked, and for exactly the commits it adds. */
  lemma {:induction false} RunFetchLog(repo: Repository, syntax: Syntax, ms: seq<Option<LineLayout>>, cache: map<string, Commit>)
    ensures
      var p := Run(repo, syntax, ms, cache);
      FetchLog(p.fetched, cache, p.cache, !p.panicked)
  {
    if |ms| > 0 {
      var prefix := ms[..|ms| - 1];
      RunFetchLog(repo, syntax, prefix, cache);
      RunExtendsCache(repo, syntax, prefix, cache);
      StepFetchLog(repo, syntax, Run(repo, syntax, prefix, cache), ms[|ms| - 1], cache);
    }
  }

  lemma StepFetchLog(repo: Repository, syntax: Syntax, before: Progress, m: Option<LineLayout>, cache: map<string, Commit>)
    requires FetchLog(before.fetched, cache, before.cache, !before.panicked)
    requires Extends(before.cache, cache)
    ensures
      var p := Step(repo, syntax, before, m);
      FetchLog(p.fetched, cache, p.cache, !p.panicked)
  {
    var p := Step(repo, syntax, before, m);
    if !before.panicked && m.Some? {
      var sha := TrimBoundary(m.value.shaField);
      if sha !in before.cache {
        assert p.fetched == before.fetched + [sha];
        assert forall i :: 0 <= i < |before.fetched| ==> p.fetched[i] == before.fetched[i];
      }
    }
  }

  /** A line that does not match the pattern panics the loop. */
  lemma RunPanicsOnUnmatched(repo: Repository, syntax: Syntax, ms: seq<Option<LineLayout>>, cache: map<string, Commit>, i: nat)
    requires i < |ms| && ms[i].None?
    ensures Run(repo, syntax, ms, cache).panicked
  {
    assert ms[..i + 1][..i] == ms[..i];
    RunAfterPanic(repo, syntax, ms, cache, i + 1);
  }

  /** With every commit already cached, the loop pushes the lines, runs no
      `git show`, and leaves the cache alone. */
  lemma {:induction false} RunWithCacheOf(repo: Repository, syntax: Syntax, ms: seq<Option<LineLayout>>, cache: map<string, Commit>, lines: seq<BlameLine>)
    requires LinesFrom(syntax, ms, lines)
    requires forall i :: 0 <= i < |lines| ==> lines[i].commitSha in cache
    ensures Run(repo, syntax, ms, cache) == Progress(lines, cache, false, [])
  {
    if |ms| > 0 {
      var n := |ms| - 1;
      assert LinesFrom(syntax, ms[..n], lines[..n]) by {
        forall i | 0 <= i < n
          ensures ms[..n][i].Some? && lines[..n][i] == LineOf(syntax, ms[..n][i].value)
        {
          assert ms[..n][i] == ms[i];
        }
      }
      RunWithCacheOf(repo, syntax, ms[..n], cache, lines[..n]);
      StepCached(repo, syntax, Progress(lines[..n], cache, false, []), ms[n].value);
      LastSplit(lines);
    }
  }

  /** A non-empty sequence is its front followed by its last element. */
  lemma LastSplit<T>(s: seq<T>)
    requires |s| > 0
    ensures s == s[..|s| - 1] + [s[|s| - 1]]
  {
  }

  /** A line whose commit is already cached is pushed, and nothing else
      changes. */
  lemma StepCached(repo: Repository, syntax: Syntax, before: Progress, l: LineLayout)
    requires !before.panicked && TrimBoundary(l.shaField) in before.cache
    ensures Step(repo, syntax, before, Some(l)) == before.(lines := before.lines + [LineOf(syntax, l)])
  {
  }

  /** Running again with the cache a successful run produced gives the same
      lines and cache, and fetches nothing. */
  lemma RunWithFilledCache(repo: Repository, syntax: Syntax, ms: seq<Option<LineLayout>>, cache: map<string, Commit>)
    requires !Run(repo, syntax, ms, cache).panicked
    ensures
      var p := Run(repo, syntax, ms, cache);
      Run(repo, syntax, ms, p.cache) == p.(fetched := [])
  {
    var p := Run(repo, syntax, ms, cache);
    RunLines(repo, syntax, ms, cache);
    RunCachesEveryCommit(repo, syntax, ms, cache);
    RunWithCacheOf(repo, syntax, ms, p.cache, p.lines);
  }

  // ---------------------------------------------------------------------
  // What `parse` guarantees.
  // ---------------------------------------------------------------------

  /** The checks passed, `git blame` succeeded with output `out`, and the
      highlighter is usable: the loop runs. */
  predicate LoopRuns(repo: Repository, path: string, commitSha: string) {
    && Precheck(repo, path, commitSha).None?
    && repo.blame(path, commitSha).BlameSucceeded?
    && !repo.syntax(path).Unrecognised?
  }

  /** On success the blame is of the requested file and commit, and has one
      line per line of `git blame` output, made of that output line. */
  lemma BuildLines(repo: Repository, path: string, commitSha: string, cache: map<string, Commit>)
    requires Build(repo, path, commitSha, cache).0.Built?
    ensures LoopRuns(repo, path, commitSha)
    ensures
      var fb := Build(repo, path, commitSha, cache).0.blame;
      var out := repo.blame(path, commitSha).stdout;
      && fb.filepath == path && fb.commitSha == commitSha
      && |fb.blameLines| == |out|
      && forall i :: 0 <= i < |out| ==>
           Decompose(out[i]).Some? && fb.blameLines[i] == LineOf(repo.syntax(path), Decompose(out[i]).value)
  {
    var out := repo.blame(path, commitSha).stdout;
    RunLines(repo, repo.syntax(path), MatchAll(out), cache);
  }

  /** The checks' error is reported as it is, and a failing `git blame` as
      `Unknown` carrying git's standard error unchanged; these are the only
      errors, and neither touches the cache. */
  lemma BuildErrors(repo: Repository, path: string, commitSha: string, cache: map<string, Commit>)
    ensures Build(repo, path, commitSha, cache).0.Failed? <==>
      Precheck(repo, path, commitSha).Some? || repo.blame(path, commitSha).BlameFailed?
    ensures Precheck(repo, path, commitSha).Some? ==>
      Build(repo, path, commitSha, cache) == (Failed(Precheck(repo, path, commitSha).value), cache)
    ensures Precheck(repo, path, commitSha).None? && repo.blame(path, commitSha).BlameFailed? ==>
      Build(repo, path, commitSha, cache) == (Failed(Unknown(repo.blame(path, commitSha).stderr)), cache)
  {
  }

  /** Whatever the outcome, the cache keeps every entry it had; on an error
      it is left exactly as it was. */
  lemma BuildCache(repo: Repository, path: string, commitSha: string, cache: map<string, Commit>)
    ensures Extends(Build(repo, path, commitSha, cache).1, cache)
    ensures Build(repo, path, commitSha, cache).0.Failed? ==> Build(repo, path, commitSha, cache).1 == cache
  {
    if LoopRuns(repo, path, commitSha) {
      RunExtendsCache(repo, repo.syntax(path), MatchAll(repo.blame(path, commitSha).stdout), cache);
    }
  }

  /** On success every commit the blame refers to can be looked up. */
  lemma BuildCachesEveryCommit(repo: Repository, path: string, commitSha: string, cache: map<string, Commit>)
    requires Build(repo, path, commitSha, cache).0.Built?
    ensures
      var (outcome, newCache) := Build(repo, path, commitSha, cache);
      forall i :: 0 <= i < |outcome.blame.blameLines| ==> outcome.blame.blameLines[i].commitSha in newCache
  {
    RunCachesEveryCommit(repo, repo.syntax(path), MatchAll(repo.blame(path, commitSha).stdout), cache);
  }

  /** On success every entry the parse added belongs to a commit of the
      blame, and was fetched on the first line that refers to it: author and
      timestamp from that line, parent and subject from `git show`. */
  lemma BuildNewEntries(repo: Repository, path: string, commitSha: string, cache: map<string, Commit>)
    requires Build(repo, path, commitSha, cache).0.Built?
    ensures LoopRuns(repo, path, commitSha)
    ensures
      var (outcome, newCache) := Build(repo, path, commitSha, cache);
      var out := repo.blame(path, commitSha).stdout;
      forall sha :: sha in newCache && sha !in cache ==>
        exists i :: 0 <= i < |out| && Decompose(out[i]).Some? && i < |outcome.blame.blameLines|
          && FirstMention(outcome.blame.blameLines, i, sha)
          && Some(newCache[sha]) == FetchCommit(repo, sha, Decompose(out[i]).value)
  {
    var out := repo.blame(path, commitSha).stdout;
    var ms := MatchAll(out);
    RunNewEntries(repo, repo.syntax(path), ms, cache);
  }

  /** A cache whose keys are the shas of their commits stays so. */
  lemma BuildKeepsKeyedBySha(repo: Repository, path: string, commitSha: string, cache: map<string, Commit>)
    requires KeyedBySha(cache)
    ensures KeyedBySha(Build(repo, path, commitSha, cache).1)
  {
    if LoopRuns(repo, path, commitSha) {
      RunKeepsKeyedBySha(repo, repo.syntax(path), MatchAll(repo.blame(path, commitSha).stdout), cache);
    }
  }

  /** One line of output that the pattern does not match makes the whole
      parse panic. */
  lemma BuildPanicsOnUnmatched(repo: Repository, path: string, commitSha: string, cache: map<string, Commit>, i: nat)
    requires LoopRuns(repo, path, commitSha)
    requires i < |repo.blame(path, commitSha).stdout| && Decompose(repo.blame(path, commitSha).stdout[i]).None?
    ensures Build(repo, path, commitSha, cache).0 == Panicked
  {
    RunPanicsOnUnmatched(repo, repo.syntax(path), MatchAll(repo.blame(path, commitSha).stdout), cache, i);
  }

  /** Parsing again with the cache a successful parse produced gives the same
      blame and fetches nothing. */
  lemma BuildWithFilledCache(repo: Repository, path: string, commitSha: string, cache: map<string, Commit>)
    requires Build(repo, path, commitSha, cache).0.Built?
    ensures
      var (outcome, newCache) := Build(repo, path, commitSha, cache);
      Build(repo, path, commitSha, newCache) == (outcome, newCache)
      && BuildFetches(repo, path, commitSha, newCache) == []
  {
    BuildCachesEveryCommit(repo, path, commitSha, cache);
    BuildFromFullerCache(repo, path, commitSha, cache, Build(repo, path, commitSha, cache).1);
  }

  /** A successful parse gives the same blame from any cache that holds every
      commit of that blame, runs no `git show`, and leaves that cache alone:
      the blame depends on `git blame` alone, the cache only on what was
      fetched. */
  lemma BuildFromFullerCache(repo: Repository, path: string, commitSha: string, cache: map<string, Commit>,
                             fuller: map<string, Commit>)
    requires Build(repo, path, commitSha, cache).0.Built?
    requires forall i :: 0 <= i < |Build(repo, path, commitSha, cache).0.blame.blameLines| ==>
      Build(repo, path, commitSha, cache).0.blame.blameLines[i].commitSha in fuller
    ensures Build(repo, path, commitSha, fuller) == (Build(repo, path, commitSha, cache).0, fuller)
    ensures BuildFetches(repo, path, commitSha, fuller) == []
  {
    var syntax := repo.syntax(path);
    var ms := MatchAll(repo.blame(path, commitSha).stdout);
    RunLines(repo, syntax, ms, cache);
    RunWithCacheOf(repo, syntax, ms, fuller, Run(repo, syntax, ms, cache).lines);
  }

  /** `parse` runs `git show` at most once per commit, never for a commit the
      cache held, and for every commit it adds; unless it panicked, every
      fetched commit ends up in the cache. */
  lemma BuildFetchLog(repo: Repository, path: string, commitSha: string, cache: map<string, Commit>)
    ensures
      var (outcome, newCache) := Build(repo, path, commitSha, cache);
      FetchLog(BuildFetches(repo, path, commitSha, cache), cache, newCache, !outcome.Panicked?)
  {
    if LoopRuns(repo, path, commitSha) {
      RunFetchLog(repo, repo.syntax(path), MatchAll(repo.blame(path, commitSha).stdout), cache);
    }
  }

  /** Two parses in a row that share the cache, the first one not panicking,
      never run `git show` for the same commit. */
  lemma FetchedOnceAcrossBuilds(repo: Repository, path1: string, sha1: string, path2: string, sha2: string,
                                cache: map<string, Commit>, s: string)
    requires !Build(repo, path1, sha1, cache).0.Panicked?
    requires s in BuildFetches(repo, path1, sha1, cache)
    ensures s !in BuildFetches(repo, path2, sha2, Build(repo, path1, sha1, cache).1)
  {
    var cache1 := Build(repo, path1, sha1, cache).1;
    BuildFetchLog(repo, path1, sha1, cache);
    BuildFetchLog(repo, path2, sha2, cache1);
    var f1 := BuildFetches(repo, path1, sha1, cache);
    var f2 := BuildFetches(repo, path2, sha2, cache1);
    var i :| 0 <= i < |f1| && f1[i] == s;
    assert s in cache1;
  }

  /** As written, `parse` never reports `NotExist`. */
  lemma NotExistUnreachableAsWritten(repo: Repository, path: string, commitSha: string, cache: map<string, Commit>)
    ensures BuildAsWritten(repo, path, commitSha, cache).0 != Failed(NotExist)
  {
  }
}
