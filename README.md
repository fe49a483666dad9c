# sync-git, modelled in Dafny

sync-git finds the git repositories below a directory and sorts them by the state
each is in: clean, mid-merge, mid-rebase, and so on. Finding them rests on one
idea, which the library (`src/lib.rs`) and the binary (`src/main.rs`) each
implement. The program walks the directory tree in preorder. Each directory whose
name ends in `.git` is reported, and the walk then skips that directory's contents,
so nothing inside a repository's `.git` directory is ever visited. Every traversal
error is reported too, wrapped in the program's own two-variant `Error`. The
library's walker also opens each reported directory as a repository. A
`RepositoryStateMap` (`src/status_map.rs`) collects the opened repositories into
twelve buckets, one per `git2::RepositoryState`, and keeps discovery order within
each bucket.

The model has these modules:

- `Names` (names.dfy) defines file names, which are either UTF-8 text or raw bytes, and `is_git_dir`.
- `DirWalk` (walkdir.dfy) defines the directory tree and the cursor. The cursor is the part of
  `walkdir::IntoIter` the walkers depend on. It is a stack of open listings, with a `Next` that
  pops exhausted listings and a `SkipCurrentDir` that drops the listing entered last. `Step` is
  the pure transition it is proved against. `Events` is the full preorder it performs.
- `GitRepo` (git2.dfy) holds what the model needs of `git2`: the twelve states, a repository with
  its state, the error, and `Repository::open` as a function parameter.
- `Pruning` (pruning.dfy) holds what both walkers share:
  - the `Error` enum and its `From` conversions;
  - the match test;
  - `PrunedEvents`, the preorder walk that does not enter matched directories;
  - `Items`, which maps that walk to the walkers' yields;
  - the lemmas about them.
- `Main` (main.dfy) holds `GitDirs`.
- `Lib` (lib.dfy) holds `WalkGitRepos`, plus a tree shaped like the repository's test data with
  lemmas restating its two tests.
- `StatusMap` (status_map.dfy) holds `to_usize` and `RepositoryStateMap`.

Both walkers are classes, each holding its own `Cursor` object, and their `Next` keeps the source's loop.
Each walker carries two ghost variables: `visited`, what the cursor has produced for it,
and `found` or `yielded`. Its invariant `Valid()` states two things:

- `visited` followed by the pruned walk of the cursor's current stack is the pruned walk of
  its starting stack;
- `found`/`yielded` is the item sequence of `visited`.

`Next` keeps this invariant, and its postcondition adds that each call yields exactly the
first remaining item (`StepPruned` and `Consume` carry that proof).

`NoVisitBelowMatch` is the prune property of the pruned walk itself, proved from
`PrunedEventsBelowUnmatched`: no entry of a tree's pruned walk lies strictly below a
matched directory. `GitDirsNeverEnterMatch` and `WalkGitReposNeverEnterMatch` carry it
over to the walkers through their invariant: nothing a walker makes the cursor produce
lies below a directory it has matched.

`is_git_dir` and `Error` are defined twice in the source, identically, once in
`src/lib.rs` and once in `src/main.rs`. Each is modelled once, in `Names` and
`Pruning`, and the rows below cite both copies where it matters.

## Model

| member | source | states |
|---|---|---|
| `Names.IsGitDirIffStem` | src/lib.rs:31-37 | A name matches exactly when it is valid text of the form `stem + ".git"`. Both directions are proved, and `stem` may be empty. |
| `Names.NonUnicodeNeverGitDir` | src/main.rs:28-34 | A name whose `to_str()` is `None` never matches, whatever its bytes: `unwrap_or(false)` applies. |
| `Names.IsGitDirExamples` | src/lib.rs:35 | The test is a suffix test: `.git` and `foo.git` match; `git`, `foo.git2` and `rebase` do not. |
| `Pruning.ErrorConversions` | src/lib.rs:8-27 | `From<walkdir::Error>` and `From<git2::Error>` keep their cause, are one-to-one, and never produce the same `Error`. |
| `DirWalk.StepEvents` | src/main.rs:51-55 | One cursor step is one step of the preorder walk. It returns `None` exactly when nothing is left, and the stack is then empty. Otherwise the item returned is the first of the remaining walk, and the new stack produces exactly the rest. |
| `DirWalk.AdvanceEvents` | src/main.rs:51 | Taking the first pending node of the top listing produces that node's item, followed by the walk of the advanced stack. A directory's listing is pushed on top. |
| `DirWalk.Cursor.Next` | src/main.rs:51 | The cursor's `next` returns `Step`'s item for the old stack and leaves `Step`'s new stack, after popping exhausted listings in a loop. |
| `DirWalk.Cursor.SkipCurrentDir` | src/main.rs:57 | `skip_current_dir` drops exactly the listing entered last. |
| `DirWalk.Cursor.constructor` | src/lib.rs:45 | `WalkDir::new(root).into_iter()` starts with only the root pending. |
| `Pruning.StepPruned` | src/main.rs:50-60 | Seen by a pruning walker, one cursor step yields `None` exactly when the pruned walk is over. Otherwise it produces the pruned walk's first item, and the rest of that walk is the stack's walk after skipping, if the item matched, or the plain new stack otherwise. |
| `Pruning.AdvancePruned` | src/main.rs:56-57 | The same step on the pruned walk: a matched directory's listing, once popped, contributes nothing. |
| `Pruning.TrimPruned` | src/main.rs:51 | Popping exhausted listings changes nothing in the pruned walk still to come. |
| `Pruning.ItemsAppend` | src/main.rs:49-61 | What the walker yields for two consecutive stretches of cursor items is the concatenation of what it yields for each, so yields compose call by call. |
| `Pruning.ItemsMembership` | src/main.rs:52-58 | An item is yielded if and only if it is a matched directory entry the cursor produced, or the conversion of a traversal error the cursor produced. |
| `Pruning.Consume` | src/main.rs:51-59 | Consuming one cursor item moves it from the remaining walk to the visited prefix, and moves its yield (if any) from the remaining items to the yielded ones. |
| `Pruning.PrunedEventsBelowUnmatched` | src/main.rs:56-57 | Every entry of a subtree's pruned walk lies below the subtree only through directories whose names do not match. |
| `Pruning.NoVisitBelowMatch` | src/main.rs:56-58 | In the pruned walk of a tree, no entry's path lies strictly below the path of a matched directory the walk produced. |
| `Pruning.NoGitDirUnpruned` | src/main.rs:56 | In a tree with no matching directory, pruning changes nothing: the walker makes the cursor perform the full preorder walk, and no item matches. |
| `Pruning.NoGitDirNoEntries` | src/main.rs:52-53 | In a tree with no matching directory, the walker yields only traversal errors. |
| `Pruning.StartPruned` | src/lib.rs:44-46 | A cursor started on a tree performs, over all its calls, exactly that tree's pruned walk. |
| `Main.GitDirs.constructor` | src/main.rs:40-44 | `GitDirs::new` wraps the cursor, and nothing has been visited or yielded yet. |
| `Main.GitDirs.Next` | src/main.rs:46-62 | It returns `None` exactly when no items remain, and the cursor is then exhausted. Otherwise it yields the first remaining item, which is the next matching directory (whose contents the cursor then skips) or the next traversal error as `Error::WalkDir`. The walker invariant is kept. |
| `Main.GitDirsNeverEnterMatch` | src/main.rs:56-58 | When a walker is started on a tree, every matched directory the cursor produced has been yielded, and nothing the cursor produced lies below it. |
| `Lib.OpenedAt` | src/lib.rs:73 | The repository walker's `i`-th yield is the `i`-th candidate opened: a traversal error as `Error::WalkDir`, or the result of `Repository::open` on a matched entry's path, with failures as `Error::Git2`. |
| `Lib.OpenedAppend` | src/lib.rs:65-77 | Opening two stretches of candidates yields the concatenation of their results. |
| `Lib.OpenedOrigin` | src/lib.rs:65-77 | Every repository yielded is one that `open` returned for a matched directory the walk produced. Every `Git2` error is the failure `open` reported for one. Every `WalkDir` error is one the cursor produced. |
| `Lib.WalkGitRepos.constructor` | src/lib.rs:43-48 | `WalkGitRepos::new(root)` starts a fresh cursor on `root`, and nothing has been visited or found yet. |
| `Lib.WalkGitRepos.Next` | src/lib.rs:62-78 | It returns `None` exactly when no candidates remain, and the cursor is then exhausted. Otherwise it yields the first remaining candidate, opened: a traversal error passes through `itry!` as `Error::WalkDir`; a matched directory is skipped and then opened, and an open failure passes through `itry!` as `Error::Git2`. The remaining candidates are then the old ones minus the first. The walker invariant is kept. |
| `Lib.WalkGitReposNeverEnterMatch` | src/lib.rs:71-73 | The prune property for the repository walker: every matched directory becomes a candidate, and nothing visited lies below one. |
| `Lib.WalkGitReposExhausted` | src/lib.rs:69 | When the cursor is exhausted, the walker has met every candidate of its starting stack's pruned walk. |
| `Lib.FixtureGitDirs` | src/lib.rs:130-141 | On a tree shaped like the test data, the walk yields `test-cases/mid-state/rebase/.git` and then `test-cases/mid-state/rebase-interactive/.git`, and nothing else. The `nested.git` inside the first repository's `.git` is not visited. |
| `Lib.FixtureRepositories` | src/lib.rs:130-141 | On that tree, with an `open` that finds the two repositories, collecting the walker gives exactly `Ok` of the two repositories, in that order. |
| `Lib.FixturePartition` | src/lib.rs:143-163 | Partitioning those repositories puts only the `rebase` one in the `Rebase` bucket and only the `rebase-interactive` one in the `RebaseInteractive` bucket. Every other bucket is empty. |
| `StatusMap.ToUsize` | src/status_map.rs:7-23 | Every state maps to an index below 12. |
| `StatusMap.StateAt` | src/status_map.rs:7-23 | Every index below 12 is the index of some state. |
| `StatusMap.ToUsizeBijective` | src/status_map.rs:7-23 | `to_usize` is one-to-one and has an inverse: distinct states get distinct buckets. |
| `StatusMap.EmptyBuckets` | src/status_map.rs:29-47 | `default()` builds twelve buckets, all empty. |
| `StatusMap.RepositoryStateMap.constructor` | src/status_map.rs:50-52 | `new()` holds the twelve empty buckets, so it is trivially partitioned. |
| `StatusMap.RepositoryStateMap.Index` | src/status_map.rs:59-65 | Indexing by state reads bucket `to_usize(state)`. In a partitioned map, every repository in it is in that state. |
| `StatusMap.RepositoryStateMap.Take` | src/status_map.rs:54-56 | `take` returns the bucket's old contents and leaves it empty. Every other state's bucket is unchanged, and a partitioned map stays partitioned. |
| `StatusMap.RepositoryStateMap.Push` | src/status_map.rs:67-71 | `index_mut` followed by `push` appends to bucket `to_usize(state)` only. Pushing a repository in its own state keeps the map partitioned. |
| `StatusMap.RepositoryStateMap.FromIter` | src/status_map.rs:73-84 | `from_iter` builds a map whose bucket for each state holds exactly the input repositories in that state, in input order. The map is partitioned. |
| `StatusMap.PartitionBucket` | src/status_map.rs:78-82 | Pushing each repository in turn leaves in bucket `to_usize(s)` exactly the repositories in state `s`, in input order. |
| `StatusMap.PartitionTotal` | src/status_map.rs:78-82 | Nothing is lost or duplicated: the bucket lengths add up to the number of input repositories. |
| `StatusMap.ExactlyOneBucket` | src/status_map.rs:80 | Each input repository is in the bucket of its own state and in no other. |
| `StatusMap.OfStateMembership` | src/status_map.rs:80 | A repository is in the list for state `s` if and only if it is in the input and in state `s`. |
| `StatusMap.PartitionRebaseExample` | src/status_map.rs:78-82 | Inserting repositories in states Rebase, RebaseInteractive, Rebase puts the first and third, in order, in the Rebase bucket and the second in the RebaseInteractive bucket. Every other bucket stays empty. |

## Left out

- The real file system is not modelled. The directory tree is an immutable value, and an unreadable directory is a listing that yields one error. `walkdir`'s symlink handling, `max_depth`, the file-type calls and its internal deferral of directory listings are not modelled. Sibling order is whatever order the listing has.
- `dent.file_type().is_dir()` is the entry's `isDir` flag. A `Broken` node stands for an entry `walkdir` reports as an error.
- The root's path is its single name: a cursor starts from `Frame([], [root])`, so every entry's path begins with `root.name`. `WalkDir::new` accepts a multi-component root such as `a/b.git`, whose `file_name` is only the last component while `dent.path()` keeps the prefix. The source's callers pass single-component roots (`"test-cases"`, `"."`).
- `git2` is not modelled. `Repository::open` is a function parameter (`Opener`), and a repository's `state()` is a snapshot field of `Repository`. `git2::Error` and `walkdir::Error` are kept as messages only.
- UTF-8 validation of names is abstracted into the two `OsName` variants. `Unicode` stands for a name whose `to_str()` is `Some`; `NonUnicode` stands for one whose `to_str()` is `None`, whatever bytes it carries, which the model does not constrain.
- `main` in src/main.rs (lines 64-73) is not modelled. It prints each found path, opens it, and stops at the first open error through `?`.
- The `Display` messages of `Error` (the `#[fail(display = …)]` attributes) are not modelled. Neither is the `Fail` derivation.
- The test harness is not modelled: the `just unpack-test-data` setup, the current-directory prefix of the expected paths, and `repository_paths`. The fixture tree's contents beyond the two repositories (a `HEAD` file, `nested.git`, `rebase-merge/interactive`) are illustrative, since the unpacked test data is not part of this model.
- Collecting into `Result<Vec<_>, _>` and `Result<RepositoryStateMap, _>` (stop at the first error) is not modelled as a method. `FixtureRepositories` states the error-free outcome directly, and `FromIter` takes the repositories as a sequence.
- Lib.WalkGitRepos.Next: the walker keeps `found`, the ghost sequence of candidates it has met; it does not keep the sequence of opened results. Each call's `ensures` states that its result is the first remaining candidate opened by `open`, and `Lib.OpenedAt`/`Lib.OpenedOrigin` state the same for whole sequences.
- Rust's generic `WalkGitRepos<I>`/`GitDirs<I>` is modelled for `I = IntoIter` only, which is the only instance the source implements.
