/**
 * `WalkGitRepos` from src/lib.rs: like `GitDirs`, but each matching directory is
 * opened as a repository after its contents have been skipped.
 */
module Lib {
  import opened Wrappers
  import opened Names
  import opened DirWalk
  import opened GitRepo
  import opened Pruning
  import StatusMap

  /**
   * What `WalkGitRepos` yields for one item of `GitDirs`: a matched entry becomes the
   * result of opening its path, a traversal error passes through unchanged.
   */
  function OpenItem(open: Opener, x: Result<Entry, Error>): Result<Repository, Error>
  {
    match x
    case Err(e) => Err(e)
    case Ok(dent) =>
      match open(dent.FullPath())
      case Ok(repo) => Ok(repo)
      case Err(g) => Err(FromGit2(g))
  }

  /** `OpenItem` applied to each item, in order. */
  function Opened(open: Opener, xs: seq<Result<Entry, Error>>): (ys: seq<Result<Repository, Error>>)
    ensures |ys| == |xs|
  {
    if xs == [] then [] else [OpenItem(open, xs[0])] + Opened(open, xs[1..])
  }

  lemma {:induction false} OpenedAt(open: Opener, xs: seq<Result<Entry, Error>>, i: nat)
    requires i < |xs|
    ensures Opened(open, xs)[i] == OpenItem(open, xs[i])
  {
    if i > 0 {
      OpenedAt(open, xs[1..], i - 1);
    }
  }

  lemma {:induction false} OpenedAppend(open: Opener, a: seq<Result<Entry, Error>>, b: seq<Result<Entry, Error>>)
    ensures Opened(open, a + b) == Opened(open, a) + Opened(open, b)
  {
    if a == [] {
      assert a + b == b;
    } else {
      assert (a + b)[0] == a[0] && (a + b)[1..] == a[1..] + b;
      OpenedAppend(open, a[1..], b);
    }
  }

  /**
   * A yielded success is a repository that `open` returned for a matching directory,
   * and a yielded `Git2` error is a failure `open` reported for one.
   */
  lemma OpenedOrigin(open: Opener, evs: seq<Event>, y: Result<Repository, Error>)
    requires y in Opened(open, Items(evs))
    ensures y.Ok? ==> exists e :: Matched(Ok(e)) && Ok(e) in evs && open(e.FullPath()) == Ok(y.value)
    ensures y.Err? && y.error.Git2? ==>
      exists e :: Matched(Ok(e)) && Ok(e) in evs && open(e.FullPath()) == Err(y.error.git)
    ensures y.Err? && y.error.WalkDir? ==> Err(y.error.walk) in evs
  {
    var xs := Items(evs);
    var i :| 0 <= i < |xs| && Opened(open, xs)[i] == y;
    OpenedAt(open, xs, i);
    ItemsMembership(evs, xs[i]);
  }

  class WalkGitRepos {
    /** The wrapped cursor, `self.it`. */
    const it: Cursor
    /** `Repository::open`. */
    const open: Opener
    ghost const start: seq<Frame>
    /** Every item the cursor has produced for this walker so far. */
    ghost var visited: seq<Event>
    /** The matching directories and traversal errors met so far. */
    ghost var found: seq<Result<Entry, Error>>

    /**
     * The cursor has performed a prefix of the pruned walk of its starting stack, and
     * `found` holds the candidates of that prefix, in order.
     */
    ghost predicate Valid()
      reads this, it
    {
      visited + StackPruned(it.stack) == StackPruned(start) && found == Items(visited)
    }

    /** The matching directories and traversal errors later calls of `Next` will meet, in order. */
    ghost function Candidates(): seq<Result<Entry, Error>>
      reads this, it
    {
      Items(StackPruned(it.stack))
    }

    /** `WalkGitRepos::new(root)`: a fresh cursor on the tree at `root`. */
    constructor (root: Node, open: Opener)
      ensures fresh(it) && it.stack == [Frame([], [root])] && start == it.stack
      ensures this.open == open && visited == [] && found == []
      ensures Valid()
    {
      it := new Cursor(root);
      this.open := open;
      start := [Frame([], [root])];
      visited, found := [], [];
    }

    /**
     * `Iterator::next`: the next opened repository, repository error or traversal error,
     * and `None` exactly when the cursor is exhausted. The matched directory's contents
     * are skipped whether or not it opens.
     */
    method Next() returns (r: Option<Result<Repository, Error>>)
      requires Valid()
      modifies this, it
      ensures Valid()
      ensures r == None <==> old(Candidates()) == []
      ensures r == None ==> it.stack == []
      ensures r.Some? ==> r.value == OpenItem(open, old(Candidates())[0]) && Candidates() == old(Candidates())[1..]
      ensures found == old(found) + (if r.Some? then [old(Candidates())[0]] else [])
    {
      while true
        invariant Valid()
        invariant found == old(found)
        invariant Candidates() == old(Candidates())
        decreases |StackPruned(it.stack)|
      {
        ghost var before := it.stack;
        var dent := it.Next();
        StepPruned(before);
        if dent == None {
          return None;
        }
        ghost var ev := dent.value;
        ghost var after := if Matched(ev) then Pop(it.stack) else it.stack;
        Consume(visited, ev, StackPruned(before), StackPruned(after));
        visited := visited + [ev];
        found := found + ItemOf(ev);
        match dent.value {
          case Err(err) =>
            r := Some(Err(FromWalkDir(err)));
            assert !Matched(ev) && ItemOf(ev) == [Err(FromWalkDir(err))];
            return;
          case Ok(entry) =>
            if entry.isDir && IsGitDir(entry.name) {
              it.SkipCurrentDir();
              var repo := open(entry.FullPath());
              match repo {
                case Err(err) => r := Some(Err(FromGit2(err)));
                case Ok(repo) => r := Some(Ok(repo));
              }
              assert Matched(ev) && ItemOf(ev) == [Ok(entry)];
              return;
            }
            assert !Matched(ev) && ItemOf(ev) == [];
        }
      }
    }
  }

  /**
   * The prune invariant for a repository walker started on a tree: every matched
   * directory the cursor produces becomes a candidate, and nothing the cursor produces
   * for the walker lies below one.
   */
  lemma WalkGitReposNeverEnterMatch(w: WalkGitRepos, root: Node, i: nat, j: nat)
    requires w.Valid() && w.start == [Frame([], [root])]
    requires i < |w.visited| && j < |w.visited|
    requires Matched(w.visited[i]) && w.visited[j].Ok?
    ensures Ok(w.visited[i].value) in w.found
    ensures !IsStrictPrefix(w.visited[i].value.FullPath(), w.visited[j].value.FullPath())
  {
    StartPruned(root);
    var walk := PrunedEvents([], root);
    assert w.visited + StackPruned(w.it.stack) == walk;
    assert w.visited[i] == walk[i] && w.visited[j] == walk[j];
    NoVisitBelowMatch(root, walk[i], walk[j]);
    ItemsMembership(w.visited, Ok(w.visited[i].value));
  }

  /** Once the cursor is exhausted, the walker has met every candidate of its pruned walk. */
  lemma WalkGitReposExhausted(w: WalkGitRepos)
    requires w.Valid() && w.it.stack == []
    ensures w.found == Items(StackPruned(w.start))
  {
    assert w.visited + [] == w.visited;
  }

  function Text(s: string): OsName
  {
    Unicode(s)
  }

  /** A working tree of the fixture: its `.git` directory and one file. */
  function RepoDir(name: string, git: Node): Node
  {
    Dir(Text(name), Listed([git, File(Text("file.txt"))]))
  }

  /** The first fixture repository's `.git`: it holds a directory whose name also matches. */
  function RebaseGit(): Node
  {
    Dir(Text(".git"), Listed([File(Text("HEAD")), Dir(Text("nested.git"), Listed([File(Text("HEAD"))]))]))
  }

  function InteractiveGit(): Node
  {
    Dir(Text(".git"), Listed([File(Text("HEAD")), Dir(Text("rebase-merge"), Listed([File(Text("interactive"))]))]))
  }

  function MidState(): Node
  {
    Dir(Text("mid-state"), Listed([RepoDir("rebase", RebaseGit()), RepoDir("rebase-interactive", InteractiveGit())]))
  }

  /** A tree shaped like the repository's test data: two repositories left mid-rebase. */
  function Fixture(): Node
  {
    Dir(Text("test-cases"), Listed([MidState()]))
  }

  const RebaseDir: Path := [Text("test-cases"), Text("mid-state"), Text("rebase")]
  const InteractiveDir: Path := [Text("test-cases"), Text("mid-state"), Text("rebase-interactive")]

  /** No name on the fixture's path to the repositories matches; the repositories' own names do. */
  lemma FixtureNames()
    ensures !IsGitDir(Text("test-cases")) && !IsGitDir(Text("mid-state"))
    ensures !IsGitDir(Text("rebase")) && !IsGitDir(Text("rebase-interactive")) && !IsGitDir(Text("file.txt"))
    ensures IsGitDir(Text(".git"))
  {
    assert "test-cases"[6..] != GitSuffix;
    assert "mid-state"[5..] != GitSuffix;
    assert "rebase"[2..] != GitSuffix;
    assert "rebase-interactive"[14..] != GitSuffix;
    assert "file.txt"[4..] != GitSuffix;
  }

  lemma PrunedMatchedDir(dir: Path, name: OsName, l: Listing)
    requires IsGitDir(name)
    ensures PrunedEvents(dir, Dir(name, l)) == [Ok(Entry(dir, name, true))]
  {
  }

  lemma PrunedFile(dir: Path, name: OsName)
    ensures PrunedEvents(dir, File(name)) == [Ok(Entry(dir, name, false))]
  {
  }

  lemma PrunedUnmatchedDir(dir: Path, name: OsName, cs: seq<Node>)
    requires !IsGitDir(name)
    ensures PrunedEvents(dir, Dir(name, Listed(cs))) == [Ok(Entry(dir, name, true))] + PrunedAll(dir + [name], cs)
  {
  }

  lemma PrunedPair(dir: Path, a: Node, b: Node)
    ensures PrunedAll(dir, [a, b]) == PrunedEvents(dir, a) + PrunedEvents(dir, b)
  {
    assert [a, b][1..] == [b];
    assert [b][1..] == [];
    assert PrunedAll(dir, [b]) == PrunedEvents(dir, b) + PrunedAll(dir, []);
    assert PrunedEvents(dir, b) + [] == PrunedEvents(dir, b);
  }

  lemma PrunedSingle(dir: Path, a: Node)
    ensures PrunedAll(dir, [a]) == PrunedEvents(dir, a)
  {
    assert [a][1..] == [];
    assert PrunedEvents(dir, a) + [] == PrunedEvents(dir, a);
  }

  /**
   * The pruned walk of one fixture repository: the directory, its `.git` entry (whose
   * contents are skipped), then the file; only the `.git` entry becomes an item.
   */
  lemma FixtureRepoDir(dir: Path, name: string, git: Node)
    requires !IsGitDir(Text(name)) && git.Dir? && git.name == Text(".git")
    ensures PrunedEvents(dir, RepoDir(name, git)) ==
      [Ok(Entry(dir, Text(name), true)), Ok(Entry(dir + [Text(name)], Text(".git"), true)), Ok(Entry(dir + [Text(name)], Text("file.txt"), false))]
    ensures Items(PrunedEvents(dir, RepoDir(name, git))) == [Ok(Entry(dir + [Text(name)], Text(".git"), true))]
  {
    FixtureNames();
    PrunedUnmatchedDir(dir, Text(name), [git, File(Text("file.txt"))]);
    PrunedPair(dir + [Text(name)], git, File(Text("file.txt")));
    PrunedMatchedDir(dir + [Text(name)], git.name, git.listing);
    PrunedFile(dir + [Text(name)], Text("file.txt"));
    var d: Event, e: Event, f: Event :=
      Ok(Entry(dir, Text(name), true)), Ok(Entry(dir + [Text(name)], Text(".git"), true)), Ok(Entry(dir + [Text(name)], Text("file.txt"), false));
    ItemsOfThree(d, e, f);
    assert ItemOf(d) == [] && ItemOf(e) == [Ok(e.value)] && ItemOf(f) == [];
  }

  lemma ItemsOfUnmatched(e: Entry)
    requires !IsGitDir(e.name)
    ensures Items([Ok(e)]) == []
  {
    var evs: seq<Event> := [Ok(e)];
    assert evs[1..] == [];
  }

  lemma ItemsOfThree(a: Event, b: Event, c: Event)
    ensures Items([a, b, c]) == ItemOf(a) + ItemOf(b) + ItemOf(c)
  {
    assert [a, b, c] == [a] + [b] + [c];
    ItemsAppend([a] + [b], [c]);
    ItemsAppend([a], [b]);
    assert [a][1..] == [] && [b][1..] == [] && [c][1..] == [];
  }

  /** The walk of the fixture yields `rebase/.git` and then `rebase-interactive/.git`, and nothing else. */
  lemma FixtureGitDirs(root: Node)
    requires root == Fixture()
    ensures Items(PrunedEvents([], root)) ==
      [Ok(Entry(RebaseDir, Text(".git"), true)), Ok(Entry(InteractiveDir, Text(".git"), true))]
  {
    var top, mid := [Text("test-cases")], [Text("test-cases"), Text("mid-state")];
    var rebase, interactive := RepoDir("rebase", RebaseGit()), RepoDir("rebase-interactive", InteractiveGit());
    assert root == Dir(Text("test-cases"), Listed([Dir(Text("mid-state"), Listed([rebase, interactive]))]));
    assert mid + [Text("rebase")] == RebaseDir && mid + [Text("rebase-interactive")] == InteractiveDir;
    GitDirsOfFixture(top, mid, rebase, interactive);
  }

  /** The walk below `mid-state` yields its two repositories, in listing order. */
  lemma MidStateItems(top: Path, mid: Path, rebase: Node, interactive: Node)
    requires mid == top + [Text("mid-state")]
    requires rebase == RepoDir("rebase", RebaseGit()) && interactive == RepoDir("rebase-interactive", InteractiveGit())
    ensures Items(PrunedEvents(top, Dir(Text("mid-state"), Listed([rebase, interactive])))) ==
      [Ok(Entry(mid + [Text("rebase")], Text(".git"), true)), Ok(Entry(mid + [Text("rebase-interactive")], Text(".git"), true))]
  {
    FixtureNames();
    FixtureRepoDir(mid, "rebase", RebaseGit());
    FixtureRepoDir(mid, "rebase-interactive", InteractiveGit());
    var a, b := PrunedEvents(mid, rebase), PrunedEvents(mid, interactive);
    PrunedPair(mid, rebase, interactive);
    ItemsAppend(a, b);
    PrunedUnmatchedDir(top, Text("mid-state"), [rebase, interactive]);
    var x1: Event := Ok(Entry(top, Text("mid-state"), true));
    ItemsAppend([x1], a + b);
    ItemsOfUnmatched(x1.value);
  }

  lemma GitDirsOfFixture(top: Path, mid: Path, rebase: Node, interactive: Node)
    requires top == [Text("test-cases")] && mid == top + [Text("mid-state")]
    requires rebase == RepoDir("rebase", RebaseGit()) && interactive == RepoDir("rebase-interactive", InteractiveGit())
    ensures Items(PrunedEvents([], Dir(Text("test-cases"), Listed([Dir(Text("mid-state"), Listed([rebase, interactive]))])))) ==
      [Ok(Entry(mid + [Text("rebase")], Text(".git"), true)), Ok(Entry(mid + [Text("rebase-interactive")], Text(".git"), true))]
  {
    var midNode := Dir(Text("mid-state"), Listed([rebase, interactive]));
    MidStateItems(top, mid, rebase, interactive);
    PrunedSingle(top, midNode);
    assert !IsGitDir(Text("test-cases")) by { FixtureNames(); }
    PrunedUnmatchedDir([], Text("test-cases"), [midNode]);
    assert [] + [Text("test-cases")] == top;
    var x0: Event := Ok(Entry([], Text("test-cases"), true));
    ItemsAppend([x0], PrunedEvents(top, midNode));
    ItemsOfUnmatched(x0.value);
  }

  /** An `open` that finds the two fixture repositories in their mid-rebase states. */
  function FixtureOpen(p: Path): Result<Repository, GitError>
  {
    if p == RebaseDir + [Text(".git")] then Ok(Repository(p, Rebase))
    else if p == InteractiveDir + [Text(".git")] then Ok(Repository(p, RebaseInteractive))
    else Err(GitError("could not find repository"))
  }

  const Repo1: Repository := Repository(RebaseDir + [Text(".git")], Rebase)
  const Repo2: Repository := Repository(InteractiveDir + [Text(".git")], RebaseInteractive)

  /** `test_git_repo_iterator`: walking the fixture opens exactly its two repositories, in order. */
  lemma FixtureRepositories(root: Node)
    requires root == Fixture()
    ensures Opened(FixtureOpen, Items(PrunedEvents([], root))) == [Ok(Repo1), Ok(Repo2)]
  {
    FixtureGitDirs(root);
    assert RebaseDir + [Text(".git")] != InteractiveDir + [Text(".git")] by {
      assert (RebaseDir + [Text(".git")])[2] != (InteractiveDir + [Text(".git")])[2];
    }
  }

  /**
   * `test_partition_git_repo`: partitioning them puts only `rebase/.git` in the Rebase
   * bucket and only `rebase-interactive/.git` in the RebaseInteractive bucket.
   */
  lemma FixturePartition()
    ensures StatusMap.Partition([Repo1, Repo2])[StatusMap.ToUsize(Rebase)] == [Repo1]
    ensures StatusMap.Partition([Repo1, Repo2])[StatusMap.ToUsize(RebaseInteractive)] == [Repo2]
    ensures forall s :: s != Rebase && s != RebaseInteractive ==> StatusMap.Partition([Repo1, Repo2])[StatusMap.ToUsize(s)] == []
  {
    var rs := [Repo1, Repo2];
    assert rs[1..] == [Repo2] && rs[1..][1..] == [];
    StatusMap.PartitionBucket(rs, Rebase);
    StatusMap.PartitionBucket(rs, RebaseInteractive);
    assert StatusMap.OfState([Repo2], Rebase) == [] + StatusMap.OfState([], Rebase);
    assert StatusMap.OfState([Repo2], RebaseInteractive) == [Repo2] + StatusMap.OfState([], RebaseInteractive);
    forall s | s != Rebase && s != RebaseInteractive
      ensures StatusMap.Partition(rs)[StatusMap.ToUsize(s)] == []
    {
      StatusMap.PartitionBucket(rs, s);
      assert StatusMap.OfState([Repo2], s) == [] + StatusMap.OfState([], s);
    }
  }
}
