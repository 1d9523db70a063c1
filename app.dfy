/**
 * The application state and its navigation (src/app.rs).
 *
 * `App` keeps the blame on screen, the selected line, the commit cache shared
 * by every load, and the stack of commits the user drilled down from.  Each
 * key handler is a method; where it computes a new selection, a function on
 * the blame lines says which line that is, and lemmas state what the source's
 * comments promise of it.
 *
 * Panics: the source unwraps and computes `len - 1` freely.  Each such panic
 * the model can reach (a blame line the pattern does not match, a `git show`
 * reply without `-`, `len - 1` on an empty blame while a line is selected,
 * `next_commit` off the lines) sets `panicked` and stops the application.
 * `len - 1` on zero panics as in a build with overflow checks.
 */
module Navigation {
  import opened Wrappers
  import opened Blame

  // ---------------------------------------------------------------------
  // Columns of the table.
  // ---------------------------------------------------------------------

  datatype Constraint = Max(cells: nat) | Fill(weight: nat)

  /** A column's width and header; its colour is not modelled. */
  datatype Column = Column(width: Constraint, name: string)

  /** The six columns `App::new` sets up, left to right. */
  function DefaultColumns(): seq<Column> {
    [ Column(Max(10), "TIME"), Column(Max(15), "AUTHOR"), Column(Max(8), "COMMIT"),
      Column(Max(30), "MESSAGE"), Column(Max(5), "LINE"), Column(Fill(1000), "CONTENTS") ]
  }

  // ---------------------------------------------------------------------
  // Moving the selection by line.
  // ---------------------------------------------------------------------

  /** `next_line`: the line after `i`, wrapping to the first line. */
  function NextLineIndex(selected: Option<nat>, len: nat): (r: nat)
    requires selected.Some? ==> len > 0
    ensures selected.None? ==> r == 0
    ensures selected.Some? ==> r < len
    ensures selected.Some? && selected.value < len ==> r == (selected.value + 1) % len
    ensures selected.Some? && selected.value >= len ==> r == 0
  {
    match selected
    case None => 0
    case Some(i) =>
      if i >= len - 1 then
        if i < len then ModWrap(i + 1, len); 0 else 0
      else
        ModBelow(i + 1, len); i + 1
  }

  /** `previous_line`: the line before `i`, wrapping to the last line. */
  function PreviousLineIndex(selected: Option<nat>, len: nat): (r: nat)
    requires selected == Some(0) ==> len > 0
    ensures selected.None? ==> r == 0
    ensures selected.Some? && selected.value <= len ==> r < len
    ensures selected.Some? && selected.value <= len ==> r == (selected.value + len - 1) % len
  {
    match selected
    case None => 0
    case Some(i) =>
      if i == 0 then
        ModBelow(len - 1, len); len - 1
      else
        if i <= len then ModWrap(i + len - 1, len); i - 1 else i - 1
  }

  lemma ModBelow(a: nat, n: nat)
    requires a < n
    ensures a % n == a
  {
  }

  lemma ModWrap(a: nat, n: nat)
    requires 0 < n <= a < 2 * n
    ensures a % n == a - n
  {
  }

  /** Moving down and back up, or up and back down, returns to the line. */
  lemma LineMovesInverse(i: nat, len: nat)
    requires i < len
    ensures PreviousLineIndex(Some(NextLineIndex(Some(i), len)), len) == i
    ensures NextLineIndex(Some(PreviousLineIndex(Some(i), len)), len) == i
  {
  }

  /** `load_blame`'s selection: the first line when none was selected,
      otherwise the same index if the new blame still has it, and its last
      line if not. */
  function KeptSelection(selected: Option<nat>, len: nat): (r: nat)
    requires selected.Some? ==> len > 0
    ensures selected.None? ==> r == 0
    ensures selected.Some? ==> r < len && r <= selected.value
    ensures selected.Some? && selected.value < len ==> r == selected.value
    ensures selected.Some? && selected.value >= len ==> r == len - 1
  {
    match selected
    case None => 0
    case Some(i) => if i >= len - 1 then len - 1 else i
  }

  // ---------------------------------------------------------------------
  // Moving the selection by block.
  // ---------------------------------------------------------------------

  /** Line `k` starts a block: it is the first line, or its commit differs
      from the line above. */
  predicate IsBlockStart(lines: seq<BlameLine>, k: nat)
    requires k < |lines|
  {
    k == 0 || lines[k - 1].commitSha != lines[k].commitSha
  }

  /** Where the run of lines of commit `sha` that reaches line `j` ends. */
  function BlockEnd(lines: seq<BlameLine>, j: nat, sha: string): (r: nat)
    requires j <= |lines|
    ensures j <= r <= |lines|
    ensures forall k :: j <= k < r ==> lines[k].commitSha == sha
    ensures r == |lines| || lines[r].commitSha != sha
    decreases |lines| - j
  {
    if j < |lines| && lines[j].commitSha == sha then BlockEnd(lines, j + 1, sha) else j
  }

  /** Where the run of lines of commit `sha` that ends just above line `j`
      starts. */
  function BlockStart(lines: seq<BlameLine>, j: nat, sha: string): (r: nat)
    requires j <= |lines|
    ensures r <= j
    ensures forall k :: r <= k < j ==> lines[k].commitSha == sha
    ensures r == 0 || lines[r - 1].commitSha != sha
  {
    if j > 0 && lines[j - 1].commitSha == sha then BlockStart(lines, j - 1, sha) else j
  }

  /** `next_block` from line `i`: the line after the end of `i`'s block, and
      the last line when `i` is already at (or past) the last line.  The
      result is `len` when `i`'s block runs to the end of the file. */
  function NextBlockIndex(lines: seq<BlameLine>, i: nat): (r: nat)
    requires |lines| > 0
    ensures i >= |lines| - 1 ==> r == |lines| - 1
    ensures i < |lines| - 1 ==>
      && i < r <= |lines|
      && (forall k :: i < k < r ==> lines[k].commitSha == lines[i].commitSha)
      && (r == |lines| || lines[r].commitSha != lines[i].commitSha)
  {
    if i >= |lines| - 1 then |lines| - 1 else BlockEnd(lines, i + 1, lines[i].commitSha)
  }

  /** `previous_block` from line `i`: the first line of the block holding the
      line above `i`, and the first line of the file from lines 0 and 1. */
  function PreviousBlockIndex(lines: seq<BlameLine>, i: nat): (r: nat)
    requires i <= |lines|
    ensures i <= 1 ==> r == 0
    ensures i > 1 ==>
      && r <= i - 1
      && (forall k :: r <= k <= i - 1 ==> lines[k].commitSha == lines[i - 1].commitSha)
      && (r == 0 || lines[r - 1].commitSha != lines[i - 1].commitSha)
  {
    if i <= 1 then 0 else BlockStart(lines, i - 1, lines[i - 1].commitSha)
  }

  /** `next_block` goes to the next block start: the line it lands on starts a
      block, and no block starts in between. */
  lemma NextBlockIsNextStart(lines: seq<BlameLine>, i: nat)
    requires i < |lines| - 1 && NextBlockIndex(lines, i) < |lines|
    ensures IsBlockStart(lines, NextBlockIndex(lines, i))
    ensures forall k :: i < k < NextBlockIndex(lines, i) ==> !IsBlockStart(lines, k)
  {
  }

  /** The last line is a fixed point of `next_block`. */
  lemma NextBlockFixedAtEnd(lines: seq<BlameLine>)
    requires |lines| > 0
    ensures NextBlockIndex(lines, |lines| - 1) == |lines| - 1
  {
  }

  /** The quirk: from a line of the last block that is not the last line,
      `next_block` selects one past the end, and the next `next_block` comes
      back to the last line. */
  lemma NextBlockPastEnd(lines: seq<BlameLine>, i: nat)
    requires i < |lines| - 1
    requires forall k :: i <= k < |lines| ==> lines[k].commitSha == lines[i].commitSha
    ensures NextBlockIndex(lines, i) == |lines|
    ensures NextBlockIndex(lines, NextBlockIndex(lines, i)) == |lines| - 1
  {
  }

  /** The run of `sha` ending above `j` starts at `r` whenever `r` has the
      three properties `BlockStart` promises. */
  lemma {:induction false} BlockStartIs(lines: seq<BlameLine>, j: nat, sha: string, r: nat)
    requires r <= j <= |lines|
    requires forall k :: r <= k < j ==> lines[k].commitSha == sha
    requires r == 0 || lines[r - 1].commitSha != sha
    ensures BlockStart(lines, j, sha) == r
    decreases j
  {
    if j > r {
      BlockStartIs(lines, j - 1, sha, r);
    }
  }

  /** From a block start, `previous_block` undoes `next_block`, also when
      `next_block` went past the end. */
  lemma PreviousBlockUndoesNextBlock(lines: seq<BlameLine>, i: nat)
    requires i < |lines| - 1 && IsBlockStart(lines, i)
    ensures PreviousBlockIndex(lines, NextBlockIndex(lines, i)) == i
  {
    var r := NextBlockIndex(lines, i);
    if r > 1 {
      BlockStartIs(lines, r - 1, lines[r - 1].commitSha, i);
    }
  }

  // ---------------------------------------------------------------------
  // The application.
  // ---------------------------------------------------------------------

  class App {
    var running: bool
    /** The selected line of the table (`state.selected()`). */
    var selected: Option<nat>
    var filePath: string
    var commitSha: string
    var fileBlame: Option<FileBlame>
    var commitCache: map<string, Commit>
    var commitStack: seq<string>
    var loadErr: Option<FileBlameError>
    /** The process has panicked; nothing runs after this. */
    var panicked: bool
    var columns: seq<Column>
    /** The file system and `git`, as every load sees them. */
    const repo: Repository

    ghost predicate Valid()
      reads this
    {
      && (fileBlame.Some? ==> selected.Some?)
      && (fileBlame.Some? && !panicked ==> selected.value <= |fileBlame.value.blameLines|)
      && (fileBlame.Some? ==> forall i :: 0 <= i < |fileBlame.value.blameLines| ==>
            fileBlame.value.blameLines[i].commitSha in commitCache)
      && KeyedBySha(commitCache)
      && (panicked ==> !running)
      && columns == DefaultColumns()
    }

    /** The blame on screen is the one `parse` gives for the current file and
        commit from the current cache.  Only loads change what this reads. */
    ghost predicate Consistent()
      reads this`fileBlame, this`filePath, this`commitSha, this`commitCache
    {
      fileBlame.Some? ==> Build(repo, filePath, commitSha, commitCache) == (Built(fileBlame.value), commitCache)
    }

    /** `App::new`: an empty cache and stack, no selection, then one load. */
    constructor (repo: Repository, filePath: string, commitSha: string)
      ensures Valid() && Consistent() && this.repo == repo
      ensures commitStack == [] && columns == DefaultColumns()
      ensures
        var (outcome, cache) := Build(repo, filePath, commitSha, map[]);
        && commitCache == cache
        && (outcome.Built? ==>
              running && !panicked && loadErr.None? && fileBlame == Some(outcome.blame)
              && this.filePath == filePath && this.commitSha == commitSha && selected == Some(0))
        && (outcome.Failed? ==>
              && !running && !panicked && loadErr == Some(outcome.error) && fileBlame.None? && selected.None?
              && this.filePath == filePath && this.commitSha == commitSha)
        && (outcome.Panicked? ==> panicked && !running)
    {
      this.repo := repo;
      this.filePath := filePath;
      this.commitSha := commitSha;
      commitCache := map[];
      fileBlame := None;
      commitStack := [];
      loadErr := None;
      running := true;
      panicked := false;
      selected := None;
      columns := DefaultColumns();
      new;
      LoadBlame(filePath, commitSha);
    }

    /** `quit`: stop the main loop. */
    method Quit()
      modifies this`running
      ensures !running
    {
      running := false;
    }

    /** `load_blame`: parse the file at `sha` with the shared cache; on an
        error record it and quit, on success show the new blame and keep the
        selected index if the new blame still has it. */
    method LoadBlame(path: string, sha: string)
      requires Valid() && Consistent() && !panicked
      modifies this
      ensures Valid() && Consistent()
      ensures commitStack == old(commitStack) && columns == old(columns)
      ensures
        var (outcome, cache) := Build(repo, path, sha, old(commitCache));
        && commitCache == cache
        && (outcome.Failed? ==>
              && loadErr == Some(outcome.error) && !running && !panicked
              && fileBlame == old(fileBlame) && filePath == old(filePath)
              && commitSha == old(commitSha) && selected == old(selected))
        && (outcome.Built? && (old(selected).None? || |outcome.blame.blameLines| > 0) ==>
              && fileBlame == Some(outcome.blame) && filePath == path && commitSha == sha
              && loadErr == old(loadErr) && running == old(running) && !panicked
              && selected == Some(KeptSelection(old(selected), |outcome.blame.blameLines|)))
        && (outcome.Panicked? || (outcome.Built? && old(selected).Some? && |outcome.blame.blameLines| == 0) ==>
              panicked && !running)
    {
      var after := Build(repo, path, sha, commitCache).1;
      BuildCache(repo, path, sha, commitCache);
      BuildKeepsKeyedBySha(repo, path, sha, commitCache);
      if Build(repo, path, sha, commitCache).0.Built? {
        BuildCachesEveryCommit(repo, path, sha, commitCache);
        BuildFromFullerCache(repo, path, sha, commitCache, after);
      }
      if fileBlame.Some? {
        BuildFromFullerCache(repo, filePath, commitSha, commitCache, after);
      }
      var outcome, cache;
      ghost var fetched;
      outcome, cache, fetched := Parse(repo, path, sha, commitCache);
      Show(path, sha, outcome, cache);
    }

    /** The second half of `load_blame`: act on what parsing returned. */
    method Show(path: string, sha: string, outcome: Outcome, cache: map<string, Commit>)
      requires Valid() && !panicked
      requires Extends(cache, commitCache) && KeyedBySha(cache)
      requires outcome.Built? ==> forall i :: 0 <= i < |outcome.blame.blameLines| ==> outcome.blame.blameLines[i].commitSha in cache
      requires outcome.Built? ==> Build(repo, path, sha, cache) == (outcome, cache)
      requires fileBlame.Some? ==> Build(repo, filePath, commitSha, cache) == (Built(fileBlame.value), cache)
      modifies this
      ensures Valid() && Consistent()
      ensures commitStack == old(commitStack) && columns == old(columns) && commitCache == cache
      ensures outcome.Failed? ==>
        && loadErr == Some(outcome.error) && !running && !panicked
        && fileBlame == old(fileBlame) && filePath == old(filePath)
        && commitSha == old(commitSha) && selected == old(selected)
      ensures outcome.Built? && (old(selected).None? || |outcome.blame.blameLines| > 0) ==>
        && fileBlame == Some(outcome.blame) && filePath == path && commitSha == sha
        && loadErr == old(loadErr) && running == old(running) && !panicked
        && selected == Some(KeptSelection(old(selected), |outcome.blame.blameLines|))
      ensures outcome.Panicked? || (outcome.Built? && old(selected).Some? && |outcome.blame.blameLines| == 0) ==>
        panicked && !running
    {
      commitCache := cache;
      match outcome
      case Failed(e) =>
        loadErr := Some(e);
        Quit();
      case Panicked =>
        panicked := true;
        running := false;
      case Built(blame) =>
        fileBlame := Some(blame);
        filePath := path;
        commitSha := sha;
        var len := |blame.blameLines|;
        if selected.Some? && len == 0 {
          panicked := true;
          running := false;
          return;
        }
        selected := Some(KeptSelection(selected, len));
    }

    /** The number of lines on screen; no blame counts as none. */
    function LineCount(): nat
      reads this`fileBlame
    {
      if fileBlame.Some? then |fileBlame.value.blameLines| else 0
    }

    /** `next_line`.  With a line selected it unwraps the blame and computes
        `len - 1`, which panics when there are no lines. */
    method NextLine()
      requires Valid() && !panicked
      modifies this`selected, this`panicked, this`running
      ensures Valid()
      ensures old(selected).Some? && LineCount() == 0 ==>
        panicked && !running && selected == old(selected)
      ensures !(old(selected).Some? && LineCount() == 0) ==>
        && !panicked && running == old(running)
        && selected == Some(NextLineIndex(old(selected), LineCount()))
    {
      var i := 0;
      if selected.Some? {
        if LineCount() == 0 {
          panicked, running := true, false;
          return;
        }
        var len := |fileBlame.value.blameLines|;
        i := if selected.value >= len - 1 then 0 else selected.value + 1;
      }
      selected := Some(i);
    }

    /** `previous_line`.  Only from the first line does it unwrap the blame
        and compute `len - 1`, which panics when there are no lines. */
    method PreviousLine()
      requires Valid() && !panicked
      modifies this`selected, this`panicked, this`running
      ensures Valid()
      ensures old(selected) == Some(0) && LineCount() == 0 ==>
        panicked && !running && selected == old(selected)
      ensures !(old(selected) == Some(0) && LineCount() == 0) ==>
        && !panicked && running == old(running)
        && selected == Some(PreviousLineIndex(old(selected), LineCount()))
    {
      var i := 0;
      if selected.Some? {
        if selected.value == 0 {
          if LineCount() == 0 {
            panicked, running := true, false;
            return;
          }
          i := |fileBlame.value.blameLines| - 1;
        } else {
          i := selected.value - 1;
        }
      }
      selected := Some(i);
    }

    /** `next_block`: scan forward past the lines of the current commit.
        With a line selected it unwraps the blame and computes `len - 1`,
        which panics when there are no lines. */
    method NextBlock()
      requires Valid() && !panicked
      modifies this`selected, this`panicked, this`running
      ensures Valid()
      ensures old(selected).Some? && LineCount() == 0 ==>
        panicked && !running && selected == old(selected)
      ensures !(old(selected).Some? && LineCount() == 0) ==> !panicked && running == old(running)
      ensures old(selected).None? ==> selected == Some(0)
      ensures old(selected).Some? && LineCount() > 0 ==>
        selected == Some(NextBlockIndex(fileBlame.value.blameLines, old(selected).value))
    {
      var next := 0;
      if selected.Some? {
        if LineCount() == 0 {
          panicked, running := true, false;
          return;
        }
        var lines := fileBlame.value.blameLines;
        var current := selected.value;
        if current >= |lines| - 1 {
          next := |lines| - 1;
        } else {
          var currentSha := lines[current].commitSha;
          current := current + 1;
          while current < |lines| && currentSha == lines[current].commitSha
            invariant current <= |lines|
            invariant BlockEnd(lines, current, currentSha) == BlockEnd(lines, selected.value + 1, currentSha)
            decreases |lines| - current
          {
            current := current + 1;
          }
          next := current;
        }
      }
      selected := Some(next);
    }

    /** `previous_block`: scan backward over the lines of the commit above.
        Below the second line it unwraps the blame, which panics without
        one. */
    method PreviousBlock()
      requires Valid() && !panicked
      modifies this`selected, this`panicked, this`running
      ensures Valid()
      ensures old(selected).Some? && old(selected).value > 1 && fileBlame.None? ==>
        panicked && !running && selected == old(selected)
      ensures !(old(selected).Some? && old(selected).value > 1 && fileBlame.None?) ==>
        !panicked && running == old(running)
      ensures old(selected).None? || old(selected).value <= 1 ==> selected == Some(0)
      ensures old(selected).Some? && fileBlame.Some? ==>
        selected == Some(PreviousBlockIndex(fileBlame.value.blameLines, old(selected).value))
    {
      var next := 0;
      if selected.Some? && selected.value > 1 {
        if fileBlame.None? {
          panicked, running := true, false;
          return;
        }
        var lines := fileBlame.value.blameLines;
        var above := selected.value - 1;
        var currentSha := lines[above].commitSha;
        var current := above;
        while current > 0 && currentSha == lines[current - 1].commitSha
          invariant current <= above
          invariant BlockStart(lines, current, currentSha) == BlockStart(lines, above, currentSha)
        {
          current := current - 1;
        }
        next := current;
      }
      selected := Some(next);
    }

    /** A line is selected and it is one of the lines on screen: what
        `next_commit` unwraps. */
    predicate OnALine()
      reads this`selected, this`fileBlame
    {
      selected.Some? && selected.value < LineCount()
    }

    /** The parent of the selected line's commit, from the cache. */
    ghost function SelectedParent(): Option<string>
      reads this
      requires Valid() && selected.Some? && fileBlame.Some? && selected.value < |fileBlame.value.blameLines|
    {
      commitCache[fileBlame.value.blameLines[selected.value].commitSha].parentCommitSha
    }

    /** `next_commit`: show the file at the parent of the selected line's
        commit, remembering the current commit on the stack; nothing happens
        when there is no parent or the file did not exist there. */
    method NextCommit()
      requires Valid() && Consistent() && !panicked
      modifies this
      ensures Valid() && Consistent()
      ensures !old(OnALine()) ==>
        && panicked && !running && selected == old(selected)
        && commitStack == old(commitStack) && commitSha == old(commitSha) && filePath == old(filePath)
        && fileBlame == old(fileBlame) && commitCache == old(commitCache) && loadErr == old(loadErr)
      ensures old(OnALine()) ==>
        var parent := old(SelectedParent());
        if parent.None? || !repo.existsAtCommit(old(filePath), parent.value) then
          && commitStack == old(commitStack) && commitSha == old(commitSha) && filePath == old(filePath)
          && fileBlame == old(fileBlame) && selected == old(selected) && commitCache == old(commitCache)
          && running == old(running) && loadErr == old(loadErr) && !panicked
        else
          var (outcome, cache) := Build(repo, old(filePath), parent.value, old(commitCache));
          && commitStack == old(commitStack) + [old(commitSha)]
          && commitCache == cache
          && (outcome.Built? && |outcome.blame.blameLines| > 0 ==>
                commitSha == parent.value && fileBlame == Some(outcome.blame) && filePath == old(filePath)
                && running == old(running) && loadErr == old(loadErr) && !panicked
                && selected == Some(KeptSelection(old(selected), |outcome.blame.blameLines|)))
          && (outcome.Panicked? || (outcome.Built? && |outcome.blame.blameLines| == 0) ==> panicked && !running)
          && (outcome.Failed? ==>
                && commitSha == old(commitSha) && fileBlame == old(fileBlame) && filePath == old(filePath)
                && selected == old(selected) && loadErr == Some(outcome.error) && !running && !panicked)
    {
      if !OnALine() {
        panicked, running := true, false;
        return;
      }
      var line := fileBlame.value.blameLines[selected.value];
      var context := commitCache[line.commitSha];
      if context.parentCommitSha.None? || !repo.existsAtCommit(filePath, context.parentCommitSha.value) {
        return;
      }
      commitStack := commitStack + [commitSha];
      LoadBlame(filePath, context.parentCommitSha.value);
    }

    /** `previous_commit`: go back to the commit on top of the stack. */
    method PreviousCommit()
      requires Valid() && Consistent() && !panicked
      modifies this
      ensures Valid() && Consistent()
      ensures old(commitStack) == [] ==>
        && commitStack == [] && commitSha == old(commitSha) && filePath == old(filePath) && fileBlame == old(fileBlame)
        && selected == old(selected) && commitCache == old(commitCache) && running == old(running)
        && loadErr == old(loadErr) && !panicked
      ensures old(commitStack) != [] ==>
        var top := old(commitStack)[|old(commitStack)| - 1];
        var (outcome, cache) := Build(repo, old(filePath), top, old(commitCache));
        && commitStack == old(commitStack)[..|old(commitStack)| - 1]
        && commitCache == cache
        && (outcome.Built? && (old(selected).None? || |outcome.blame.blameLines| > 0) ==>
              commitSha == top && fileBlame == Some(outcome.blame) && filePath == old(filePath)
              && running == old(running) && loadErr == old(loadErr) && !panicked
              && selected == Some(KeptSelection(old(selected), |outcome.blame.blameLines|)))
        && (outcome.Failed? ==>
              && commitSha == old(commitSha) && fileBlame == old(fileBlame) && filePath == old(filePath)
              && selected == old(selected) && loadErr == Some(outcome.error) && !running && !panicked)
        && (outcome.Panicked? || (outcome.Built? && old(selected).Some? && |outcome.blame.blameLines| == 0) ==>
              panicked && !running)
    {
      if |commitStack| > 0 {
        var sha := commitStack[|commitStack| - 1];
        commitStack := commitStack[..|commitStack| - 1];
        LoadBlame(filePath, sha);
      }
    }
  }

  /** Drilling down to a parent commit and coming back, both loads
      succeeding, returns to the commit, the stack and the blame the user
      started from: the second load finds every commit of that blame cached. */
  method DrillDownAndBack(app: App)
    requires app.Valid() && app.Consistent() && !app.panicked
    requires app.selected.Some? && app.fileBlame.Some? && app.selected.value < |app.fileBlame.value.blameLines|
    modifies app
    ensures app.Valid() && app.Consistent()
    ensures app.running ==>
      && app.commitStack == old(app.commitStack) && app.commitSha == old(app.commitSha)
      && app.filePath == old(app.filePath) && app.fileBlame == old(app.fileBlame)
  {
    var stackBefore := app.commitStack;
    ghost var parent := app.SelectedParent();
    ghost var pathBefore, shaBefore, cacheBefore := app.filePath, app.commitSha, app.commitCache;
    app.NextCommit();
    if !app.running {
      return;
    }
    if app.commitStack == stackBefore {
      return;
    }
    BuildCache(app.repo, pathBefore, parent.value, cacheBefore);
    BuildFromFullerCache(app.repo, pathBefore, shaBefore, cacheBefore, app.commitCache);
    app.PreviousCommit();
  }
}
