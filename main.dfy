/**
 * `GitDirs` from src/main.rs: an iterator over a cursor that yields every directory
 * whose name matches, skipping that directory's contents, and every traversal error.
 */
module Main {
  import opened Wrappers
  import opened Names
  import opened DirWalk
  import opened Pruning

  class GitDirs {
    /** The wrapped cursor, `self.it`. */
    const it: Cursor
    /** The cursor's stack when the walker was created. */
    ghost const start: seq<Frame>
    /** Every item the cursor has produced for this walker so far. */
    ghost var visited: seq<Event>
    /** Every item this walker has yielded so far. */
    ghost var yielded: seq<Result<Entry, Error>>

    /**
     * The cursor has performed a prefix of the pruned walk of its starting stack, and
     * the walker has yielded exactly the items of that prefix.
     */
    ghost predicate Valid()
      reads this, it
    {
      visited + StackPruned(it.stack) == StackPruned(start) && yielded == Items(visited)
    }

    /** The items later calls of `Next` will yield. */
    ghost function Remaining(): seq<Result<Entry, Error>>
      reads this, it
    {
      Items(StackPruned(it.stack))
    }

    /** `GitDirs::new`. */
    constructor (it: Cursor)
      ensures this.it == it && start == it.stack
      ensures visited == [] && yielded == []
      ensures Valid()
    {
      this.it := it;
      start := it.stack;
      visited, yielded := [], [];
    }

    /**
     * `Iterator::next`: yields the next matching directory or traversal error, and
     * `None` exactly when the cursor is exhausted.
     */
    method Next() returns (r: Option<Result<Entry, Error>>)
      requires Valid()
      modifies this, it
      ensures Valid()
      ensures r == None <==> old(Remaining()) == []
      ensures r == None ==> it.stack == []
      ensures r.Some? ==> old(Remaining()) == [r.value] + Remaining()
      ensures yielded == old(yielded) + (if r.Some? then [r.value] else [])
    {
      while true
        invariant Valid()
        invariant yielded == old(yielded)
        invariant Remaining() == old(Remaining())
        decreases |StackPruned(it.stack)|
      {
        ghost var before := it.stack;
        var dent := it.Next();
        StepPruned(before);
        if dent == None {
          return None;
        }
        ghost var ev := dent.value;
        ghost var after := if Matched(ev) then Pop(it.stack) else it.stack;
        Consume(visited, ev, StackPruned(before), StackPruned(after));
        visited := visited + [ev];
        match dent.value {
          case Err(err) =>
            r := Some(Err(FromWalkDir(err)));
            assert !Matched(ev) && ItemOf(ev) == [r.value];
            yielded := yielded + [r.value];
            return;
          case Ok(entry) =>
            if entry.isDir && IsGitDir(entry.name) {
              it.SkipCurrentDir();
              r := Some(Ok(entry));
              assert Matched(ev) && ItemOf(ev) == [r.value];
              yielded := yielded + [r.value];
              return;
            }
            assert !Matched(ev) && ItemOf(ev) == [];
        }
      }
    }
  }

  /**
   * The prune invariant for a walker started on a tree: no entry the cursor ever
   * produces for it lies below a directory it has produced and yielded.
   */
  lemma GitDirsNeverEnterMatch(g: GitDirs, root: Node, i: nat, j: nat)
    requires g.Valid() && g.start == [Frame([], [root])]
    requires i < |g.visited| && j < |g.visited|
    requires Matched(g.visited[i]) && g.visited[j].Ok?
    ensures Ok(g.visited[i].value) in g.yielded
    ensures !IsStrictPrefix(g.visited[i].value.FullPath(), g.visited[j].value.FullPath())
  {
    StartPruned(root);
    var walk := PrunedEvents([], root);
    assert g.visited + StackPruned(g.it.stack) == walk;
    assert g.visited[i] == walk[i] && g.visited[j] == walk[j];
    NoVisitBelowMatch(root, walk[i], walk[j]);
    ItemsMembership(g.visited, Ok(g.visited[i].value));
  }
}
