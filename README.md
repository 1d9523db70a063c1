# blame — a verified model of the terminal git-blame viewer

`blame` shows the `git blame` of one file in a terminal table. It can also
walk the file's history: from the selected line it moves to the parent of
that line's commit, and it goes back along a stack of visited commits. This
project models the core of the program in Dafny and proves properties of that
model:

- `grammar.dfy` (module `BlameGrammar`) is the regular expression that
  splits a line of `git blame` output into these captures:
  - commit sha, with its boundary marker `^`;
  - author;
  - timestamp;
  - line number;
  - contents.

  Between the sha and ` (` the pattern also takes a gap that it does not
  capture. The pattern is written in the `x` mode, so the space inside
  `(?: [^(]+)?` is not part of it, and the gap is any text without `(`. In
  `git blame` output the gap is a space and the file name, when `git` prints
  one.

  `Decompose` is the matcher, and `FormatLine` is the inverse that lays the
  pieces out again. Lemmas prove the two round trips. They include that the
  sha group takes at most 40 digits of the hex run, and that the greedy
  author group takes back exactly the author.
- `file_blame.dfy` (module `Blame`) holds the blame types and the error
  messages. It also models `FileBlame::parse` in two forms:
  - `Build` is a specification. It makes the checks in the source's order,
    then takes one `Step` per output line, filling the shared commit cache.
  - `Parse` is the loop of `parse` as the source writes it, after the
    intended checks (see ## Findings). It is proved equal to `Build`.
  - `BuildAsWritten` is `parse` with the checks as written. It panics where
    the intended checks return `NotExist` or `NotGit`.

  The file system and `git` are a `Repository` value of oracle functions.
- `app.dfy` (module `Navigation`) is the class `App`: its state, loading a
  blame, and the key handlers.
  - Moving by line wraps around.
  - Moving by block scans for the next or previous change of commit.
  - Drilling into a parent commit pushes the current commit on a stack.
  - Going back pops that stack.

  The application loads through `Parse`, with the intended checks. So a
  missing path or a file outside any repository is recorded as `NotExist`
  or `NotGit`, and the application stops without a panic.

  Each handler is a method proved against a function on the blame lines.
  Lemmas state what those functions promise.
- `ui.dfy` (module `Ui`) covers what the table is given:
  - `insert_between`, modelled as `Interspersed` and the loop `InsertBetween`;
  - the header and the column widths;
  - one row per blame line. The commit's time, author, sha and message
    appear only on the first line of each block of lines from one commit.
- `wrappers.dfy` holds `Option`.

A panic in the source becomes one of two things:

- An outcome `Panicked` from `Build`.
- The field `App.panicked`, which also stops the application. This covers the
  panics that depend on what `git` printed:
  - a blame line the pattern does not match;
  - a `git show` reply without `-`;
  - `len - 1` on an empty blame while a line is selected. An empty file
    gives an empty `git blame` output, and this happens in `load_blame`,
    `next_line`, `next_block`, and `previous_line` from the first line. The
    handlers also unwrap the blame, which panics when none is loaded.
  - `next_commit` with no line selected, or with the selection not on a
    line. It unwraps the selection and `get(i)` on the blame lines. This
    happens on an empty file, where line 0 is selected and there are no
    lines. It also happens after `next_block` has moved to `len`, one past
    the last line.

The model follows a build with overflow checks, Cargo's default `dev`
profile, where `len - 1` on zero panics. In a `release` build it wraps to
`usize::MAX`. Then `next_line` selects 1, `previous_line` selects
`usize::MAX`, and `load_blame` keeps the old index. Only `next_block` still
panics, at its `get(..).unwrap()`.

`next_block` can select index `len`, one past the last line. This happens
when the selected line's block runs to the end of the file. The next
`next_block` then selects the last line (`NextBlockPastEnd`). `App.Valid`
therefore allows a selection up to `len`.

## Model

| member | source | states |
|---|---|---|
| BlameGrammar.Span | src/file_blame.rs:29 | the longest run of one character class at the start of a string: all of its characters are in the class, and the next one is not |
| BlameGrammar.IndexOf | src/file_blame.rs:30-32 | the first `(` in a string: absent exactly when the string has none; otherwise no `(` comes before it |
| BlameGrammar.DecomposeTailSound | src/file_blame.rs:34-44 | a matched tail has well-formed pieces, and those pieces lay out back to the input. The pieces are: padding of at least one space, a 25-character timestamp of the shape `dddd-dd-dd dd:dd:dd ±dddd`, padding, the digits of the line number, `) `, and contents without a line break |
| BlameGrammar.TailRoundTrip | src/file_blame.rs:34-44 | every well-formed tail, laid out and matched again, gives back its own fields |
| BlameGrammar.SearchAuthorSound | src/file_blame.rs:33-34 | what the author search returns is a real split: the author is the prefix before it, it has the author's shape, and the rest matches as a tail |
| BlameGrammar.SearchAuthorLongest | src/file_blame.rs:33-34 | the author group is greedy: no split point lies beyond the author the search returns, and when it returns nothing there is no split point at all |
| BlameGrammar.DecomposeSound | src/file_blame.rs:27-45 | a line the pattern accepts has a well-formed layout, and that layout lays out back to the line. In a well-formed layout the sha field is an optional `^` and 4 to 40 hex digits. The gap is absent or is non-empty text without `(`. The gap starts with a hex digit only when the sha already has 40 digits |
| BlameGrammar.NoTailInside | src/file_blame.rs:33-44 | after a non-space character inside a laid-out tail, the rest never matches as a tail. This is why the greedy author stops at the real author |
| BlameGrammar.AuthorIsLongest | src/file_blame.rs:33-34 | from an author followed by a tail, the greedy search takes back exactly that author and tail, when the contents hold no second tail |
| BlameGrammar.DecomposeFormat | src/file_blame.rs:27-45 | matching a laid-out well-formed line gives back every capture and the gap, when the contents hold no second tail |
| BlameGrammar.ShaSpan | src/file_blame.rs:27-30 | the sha group takes back exactly the sha of a well-formed layout. The hex run stops where the gap or ` (` begins, or runs past 40 digits when the gap starts with a hex digit, and the group takes 40 |
| BlameGrammar.NoParenNoEmbeddedTail | src/file_blame.rs:41-44 | contents without `)` can never be mistaken for a tail |
| BlameGrammar.DecomposeFormatNoParen | src/file_blame.rs:27-45 | the round trip holds for every well-formed line whose contents have no `)` |
| BlameGrammar.ExampleLine | src/file_blame.rs:13-26 | the documented example line matches with sha `1e1d1c3c`, author `John Doe`, timestamp `2019-01-01 12:00:00 -0400`, line `142` and contents `This is the code` |
| BlameGrammar.ExampleBoundaryLine | src/file_blame.rs:27-32 | a boundary line that names a file matches with the sha field `^4bd7a2f`, the gap ` src/main.rs` (a space and the file name), double padding and contents `}` |
| BlameGrammar.ExampleGluedLine | src/file_blame.rs:27-32 | text glued to the sha with no space, as in `1e1d1c3cz (John Doe …`, matches: the sha is `1e1d1c3c` and the gap is `z` |
| Blame.ErrorMessage | src/file_blame.rs:91-101 | every error is displayed with a non-empty message |
| Blame.ErrorMessageInjective | src/file_blame.rs:91-101 | two errors with the same message are the same error, with the same stderr for `Unknown` |
| Blame.MessageShape | src/file_blame.rs:94-98 | the first letter and the length of each fixed message, which tell the messages apart |
| Blame.Precheck | src/file_blame.rs:165-195 | each check fails with its own error, in the source's order. `NotExist` exactly when the path does not exist. `NotFile` exactly when it exists but is not a regular file. `NotGit` exactly when `git` finds no repository around it. `MissingAtCommit` exactly when the earlier checks pass but the file does not exist at the commit. No error exactly when every check passes |
| Blame.MissingPathPanicsAsWritten | src/file_blame.rs:165-169 | as written, a path that does not exist panics. The intended checks report `NotExist` for it |
| Blame.OutsideRepositoryPanicsAsWritten | src/file_blame.rs:136-149 | as written, a file outside any repository panics in `git_root_dir`. The intended checks report `NotGit` for it |
| Blame.PrecheckAgreesUnlessCrash | src/file_blame.rs:165-195 | where the checks as written do not panic, they agree with the intended checks |
| Blame.NotExistUnreachableAsWritten | src/file_blame.rs:165-169 | as written, `parse` never returns `NotExist` |
| Blame.TrimBoundaryStrips | src/file_blame.rs:258-260 | `trim_start_matches("^")` removes exactly the leading run of `^`. What remains is a suffix of the input and does not start with `^` |
| Blame.TrimShaField | src/file_blame.rs:258-260 | on a sha field, the trim removes just the boundary marker. It leaves 4 to 40 hex digits |
| Blame.SplitOnce | src/file_blame.rs:279 | `split_once("-")` gives `None` exactly when there is no `-`. Otherwise the first part has no `-`, and the two parts joined by `-` are the input |
| Blame.SplitOnceJoin | src/file_blame.rs:279 | a string without `-`, joined by `-` to any rest, splits back into those two parts |
| Blame.FetchCommit | src/file_blame.rs:265-296 | the commit built from `git show`. It fails (the source panics) exactly when the output has no `-`. Otherwise it has the line's sha, author and timestamp, and its parent and subject, joined by `-`, are the output. A parent is never empty and holds no `-`, so the output is split at its first `-`, and an empty parent part means no parent |
| Blame.Parse | src/file_blame.rs:160-311 | `parse`, with the intended checks before its loop, computes the outcome and the new cache of the specification `Build`. Its log of `git show` calls is `BuildFetches` |
| Blame.ParseOutput | src/file_blame.rs:239-304 | the loop over the output lines computes the `Run` of the specification: its lines, cache, panic and log of `git show` calls |
| Blame.ParseLine | src/file_blame.rs:243-303 | one iteration for a matched line is one `Step`. It runs `git show` only for a commit not yet cached, and logs that call. It panics when the reply has no `-`, and otherwise pushes the line's blame line |
| Blame.RunAfterPanic | src/file_blame.rs:239-241 | once the loop has panicked, the remaining output changes nothing |
| Blame.RunLines | src/file_blame.rs:239-303 | a loop that finishes has pushed one blame line per output line. Each blame line is built from that line's captures |
| Blame.RunExtendsCache | src/file_blame.rs:262-297 | the loop only adds cache entries. It never replaces or removes one |
| Blame.RunCachesEveryCommit | src/file_blame.rs:262-303 | after the loop, every pushed line's commit is in the cache |
| Blame.StepFacts | src/file_blame.rs:239-303 | one iteration pushes that line's blame line and keeps every old cache entry. Its only new entry is the line's commit, built by `git show` |
| Blame.RunNewEntries | src/file_blame.rs:265-297 | every entry the loop adds was fetched at the first line of its commit, from that line's captures |
| Blame.RunKeepsKeyedBySha | src/file_blame.rs:287-296 | every cache entry keeps its key as its own `sha` |
| Blame.RunPanicsOnUnmatched | src/file_blame.rs:241 | any output line the pattern does not match makes the loop panic |
| Blame.RunWithCacheOf | src/file_blame.rs:262-297 | when every commit is already cached, the loop pushes the lines, its log of `git show` calls is empty, and it leaves the cache as it was |
| Blame.RunWithFilledCache | src/file_blame.rs:262-297 | a second run over the same output, with the cache the first run left, gives the same lines and cache and runs no `git show` |
| Blame.RunFetchLog | src/file_blame.rs:262-297 | the loop runs `git show` at most once per commit, never for a commit that was cached, and for every commit it adds. Unless it panicked, every fetched commit ends up in the cache |
| Blame.StepFetchLog | src/file_blame.rs:262-297 | one iteration keeps those properties of the log |
| Blame.BuildLines | src/file_blame.rs:160-311 | a successful `parse` reports the requested path and commit. It has one line per output line, built from that line's captures |
| Blame.BuildErrors | src/file_blame.rs:165-209 | `parse` fails exactly when a check fails or `git blame` fails. A check's error is returned as it is. A failing `git blame` gives `Unknown` with git's standard error unchanged. Neither touches the cache |
| Blame.BuildCache | src/file_blame.rs:160-311 | `parse` only adds cache entries, and an error leaves the cache unchanged |
| Blame.BuildCachesEveryCommit | src/file_blame.rs:262-303 | after a successful `parse`, every line's commit can be looked up in the cache |
| Blame.BuildNewEntries | src/file_blame.rs:265-297 | every entry a successful `parse` adds comes from `git show` at the first line of its commit |
| Blame.BuildKeepsKeyedBySha | src/file_blame.rs:287-296 | `parse` keeps every cache entry keyed by its own sha |
| Blame.BuildPanicsOnUnmatched | src/file_blame.rs:239-241 | one unmatched output line makes `parse` panic |
| Blame.BuildWithFilledCache | src/file_blame.rs:157-163 | loading the same file and commit again, with the cache the first load left, gives the same blame and cache and runs no `git show` |
| Blame.BuildFromFullerCache | src/file_blame.rs:239-311 | a successful `parse` gives the same blame from any cache holding every commit of that blame. It then runs no `git show` and leaves that cache unchanged |
| Blame.BuildFetchLog | src/file_blame.rs:262-297 | `parse` runs `git show` at most once per commit, never for a commit that was cached, and for every commit it adds. Unless it panicked, every fetched commit ends up in the cache |
| Blame.FetchedOnceAcrossBuilds | src/file_blame.rs:262-297 | two parses in a row that share the cache, the first not panicking, never run `git show` for the same commit |
| Navigation.NextLineIndex | src/app.rs:215-228 | `next_line` moves to `(i + 1) mod len`: the line below, or the first line after the last. A selection past the end goes to the first line |
| Navigation.PreviousLineIndex | src/app.rs:230-243 | `previous_line` moves to `(i + len - 1) mod len`: the line above, or the last line before the first. This includes a selection at `len`, which moves to the last line |
| Navigation.LineMovesInverse | src/app.rs:215-243 | moving down then up, or up then down, returns to the same line |
| Navigation.KeptSelection | src/app.rs:101-129 | after a load, the selection is the first line if none was selected. Otherwise it stays on the same index if the new blame has it, and moves to the last line `len - 1` if not |
| Navigation.BlockEnd | src/app.rs:151-167 | the forward scan stops at the first line whose commit differs, or at the end |
| Navigation.BlockStart | src/app.rs:191-207 | the backward scan stops at the first line of the run of the same commit |
| Navigation.NextBlockIndex | src/app.rs:132-173 | `next_block` moves past every following line of the current commit, to a line of another commit or to `len`. At or after the last line it selects the last line |
| Navigation.PreviousBlockIndex | src/app.rs:175-213 | `previous_block` selects the first line of the block holding the line above. From lines 0 and 1 it selects line 0 |
| Navigation.NextBlockIsNextStart | src/app.rs:132-135 | when `next_block` lands on a line, that line starts a block, and no block starts in between |
| Navigation.NextBlockFixedAtEnd | src/app.rs:139-140 | `next_block` on the last line stays there |
| Navigation.NextBlockPastEnd | src/app.rs:139-167 | from a line of the last block other than the last line, `next_block` selects `len`. The next `next_block` selects the last line |
| Navigation.PreviousBlockUndoesNextBlock | src/app.rs:132-213 | from a block start, `previous_block` undoes `next_block`, including after a move to `len` |
| Navigation.App.constructor | src/app.rs:43-91 | `App::new` sets up an empty cache and stack, no selection and the six columns, then loads once through `Parse`, with the intended checks. A successful load runs with line 0 selected. An error is recorded and stops the application, with the path and commit set to the arguments. `Valid` and `Consistent` hold |
| Navigation.App.Quit | src/app.rs:96-99 | `quit` stops the main loop |
| Navigation.App.LoadBlame | src/app.rs:101-130 | `load_blame` takes the outcome and cache of `Parse`, that is `parse` with the intended checks. A missing path gives `NotExist` and a file outside any repository gives `NotGit`, where the source panics. On an error it records the error, stops, and leaves the blame, path, commit and selection unchanged. On success it shows the new blame and keeps the selection by `KeptSelection`. A panic stops the application. It keeps `Consistent`: the blame shown is the one `parse` gives for the current file and commit from the current cache |
| Navigation.App.Show | src/app.rs:105-130 | the second half of `load_blame`, for an outcome already computed. The cache invariants of `App.Valid` are kept |
| Navigation.App.NextLine | src/app.rs:215-228 | the selection becomes `NextLineIndex` of the old selection. With a line selected and no lines to move over, it panics instead: the application stops and the selection stays. The invariant is kept |
| Navigation.App.PreviousLine | src/app.rs:230-243 | the selection becomes `PreviousLineIndex` of the old selection. From the first line with no lines to move over, it panics instead: the application stops and the selection stays |
| Navigation.App.NextBlock | src/app.rs:136-173 | the scan loop selects `NextBlockIndex` of the old selection, or line 0 when nothing was selected. With a line selected and no lines, it panics instead: the application stops and the selection stays |
| Navigation.App.PreviousBlock | src/app.rs:176-213 | the scan loop selects `PreviousBlockIndex` of the old selection, or line 0. Below the second line with no blame loaded, it panics instead: the application stops and the selection stays |
| Navigation.App.NextCommit | src/app.rs:245-279 | when the selection is not on a line (nothing selected, an empty blame, or the index `len`), it panics: the application stops and nothing else changes. Otherwise, with no parent or a file missing at the parent, nothing changes. Otherwise the current commit is pushed and the file is loaded at the parent, with the outcomes of `load_blame`: on an error the blame, path, commit and selection stay |
| Navigation.App.PreviousCommit | src/app.rs:281-286 | with an empty stack nothing changes. Otherwise the top commit is popped and loaded, with the outcomes of `load_blame` |
| Navigation.DrillDownAndBack | src/app.rs:245-286 | from a selected line of the blame, moving to the parent commit and back, while the application runs, restores the commit, the stack, the file and the blame |
| Ui.Interspersed | src/ui.rs:21-34 | the separated list is empty for no items and has `2n - 1` entries for `n` items |
| Ui.InterspersedAt | src/ui.rs:21-34 | the items sit at the even positions, in order, and the separator at every odd position |
| Ui.InterspersedSnoc | src/ui.rs:27-31 | appending an item appends the separator and the item |
| Ui.InsertBetween | src/ui.rs:23-34 | the push-then-pop loop of `insert_between` computes `Interspersed` |
| Ui.DefaultHeader | src/ui.rs:44-51 | with the six columns of `App::new`, the header alternates the names TIME…CONTENTS with dividers |
| Ui.DefaultWidths | src/ui.rs:69-71 | with the six columns of `App::new`, the widths alternate each column's width with `Max(1)` |
| Ui.RowLayout | src/ui.rs:85-116 | a row has 11 cells, with dividers at the odd positions and the line number and contents last. The commit cells are empty when the commit equals the line above's. Otherwise they are the cached commit's time, author, sha and message |
| Ui.TableRowForBlameLine | src/ui.rs:86-116 | building the cells as the source does gives `RowCells` |
| Ui.Rows | src/ui.rs:54-67 | the row loop threads `previous_sha` from `""`: row `i` is built against the commit of line `i - 1` |
| Ui.CommitShownAtBlockStarts | src/ui.rs:93-109 | a row shows its commit exactly when its line starts a block |
| Ui.Render | src/ui.rs:37-83 | the table's title names the file and commit. The header and widths follow the columns, row `i` shows line `i`, and the selection is passed on |

## Left out

- Terminal handling is not modelled: the event loop, key dispatch, `tick`,
  and `main`'s printing of the load error. These are I/O around the core.
- Drawing is not modelled:
  - styles, colours and layout;
  - ratatui's handling of a selection past the last row;
  - the conversion of ANSI-coloured contents into styled text.

  A cell is its text.
- Running `git` is not modelled. `canonicalize`, UTF-8 decoding and working
  directories are left out too. Each question `parse` asks is a
  `Repository` oracle, so `exists_at_commit` is an oracle as well.
- The blame output is given already split into lines, so `str::lines` is
  not modelled.
- Blame.Paint: highlighting is an oracle applied line by line. syntect's
  highlighter carries parse state from one line to the next, and the model
  does not. Loading the syntax and theme sets is not modelled.
- BlameGrammar.Decompose: `\d` is modelled as an ASCII digit. Rust's `\d`
  also matches other Unicode decimal digits.
- The `release` build's wrap-around of `len - 1` on an empty blame is not
  modelled. The model panics there, as a build with overflow checks does.
- Ui.CommitShownAtBlockStarts needs a non-empty sha on the first line,
  because the first row is compared against `""`. Every sha the pattern
  captures is non-empty.
- Integer width is not modelled: indices are unbounded naturals, and the one
  subtraction that can underflow (`len - 1`) panics, as above.

## Findings

| source | as written | input that shows it | evidently intended | confidence | as-written member | corrected member |
|---|---|---|---|---|---|---|
| src/file_blame.rs:165-169 | `canonicalize().unwrap()` runs before the `exists()` test, so a missing path panics and `NotExist` is never returned | a path that does not exist | return `NotExist` | not executed | Blame.MissingPathPanicsAsWritten | Blame.Precheck |
| src/file_blame.rs:136-149 | `git_root_dir` panics when `git rev-parse --show-toplevel` fails, before the `--is-inside-work-tree` test at src/file_blame.rs:180-190 can return `NotGit` | a regular file outside every git repository | return `NotGit` | not executed | Blame.OutsideRepositoryPanicsAsWritten | Blame.Precheck |
