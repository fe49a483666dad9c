/**
 * The specification shared by the two pruning walkers (`WalkGitRepos::next` in
 * src/lib.rs and `GitDirs::next` in src/main.rs): their two-variant `Error`, the
 * pruned preorder walk they make the cursor perform, and the items they yield.
 */
module Pruning {
  import opened Wrappers
  import opened Names
  import opened DirWalk
  import opened GitRepo

  /** `Error`: a traversal failure or a repository failure, each carrying its cause. */
  datatype Error = WalkDir(walk: WalkError) | Git2(git: GitError)

  /** `From<walkdir::Error> for Error`. */
  function FromWalkDir(e: WalkError): Error
  {
    WalkDir(e)
  }

  /** `From<git2::Error> for Error`. */
  function FromGit2(e: GitError): Error
  {
    Git2(e)
  }

  /** The conversions keep the cause and never confuse the two layers. */
  lemma ErrorConversions(w: WalkError, w': WalkError, g: GitError, g': GitError)
    ensures FromWalkDir(w) != FromGit2(g)
    ensures FromWalkDir(w) == FromWalkDir(w') <==> w == w'
    ensures FromGit2(g) == FromGit2(g') <==> g == g'
    ensures FromWalkDir(w).walk == w && FromGit2(g).git == g
  {
  }

  /** The test both walkers apply to an entry: `dent.file_type().is_dir() && is_git_dir(&dent)`. */
  predicate Matched(ev: Event)
  {
    ev.Ok? && ev.value.isDir && IsGitDir(ev.value.name)
  }

  /**
   * The items the cursor produces when it is driven by a pruning walker: a preorder
   * walk that does not enter a directory whose name matches.
   */
  function PrunedEvents(dir: Path, n: Node): seq<Event>
    decreases n
  {
    match n
    case Dir(name, l) =>
      [EventOf(dir, n)] + (if IsGitDir(name) then [] else PrunedListing(dir + [name], l))
    case _ => [EventOf(dir, n)]
  }

  function PrunedListing(dir: Path, l: Listing): seq<Event>
    decreases l
  {
    match l
    case Listed(cs) => PrunedAll(dir, cs)
    case Unreadable(e) => [Err(e)]
  }

  function PrunedAll(dir: Path, ns: seq<Node>): seq<Event>
    decreases ns
  {
    if ns == [] then [] else PrunedEvents(dir, ns[0]) + PrunedAll(dir, ns[1..])
  }

  /** The pruned walk of everything still pending on a cursor stack. */
  function StackPruned(stack: seq<Frame>): seq<Event>
  {
    if stack == [] then []
    else
      var top := stack[|stack| - 1];
      PrunedAll(top.dir, top.rest) + StackPruned(stack[..|stack| - 1])
  }

  /** What a walker yields for one cursor item: the matched entry, the converted error, or nothing. */
  function ItemOf(ev: Event): seq<Result<Entry, Error>>
  {
    match ev
    case Err(w) => [Err(FromWalkDir(w))]
    case Ok(dent) => if dent.isDir && IsGitDir(dent.name) then [Ok(dent)] else []
  }

  /** What `GitDirs` yields for a sequence of cursor items. */
  function Items(evs: seq<Event>): seq<Result<Entry, Error>>
  {
    if evs == [] then [] else ItemOf(evs[0]) + Items(evs[1..])
  }

  lemma {:induction false} ItemsAppend(a: seq<Event>, b: seq<Event>)
    ensures Items(a + b) == Items(a) + Items(b)
  {
    if a == [] {
      assert a + b == b;
    } else {
      assert (a + b)[0] == a[0];
      assert (a + b)[1..] == a[1..] + b;
      ItemsAppend(a[1..], b);
    }
  }

  /**
   * Exactly the matching directory entries and every traversal error become items;
   * files and directories whose name does not match produce nothing.
   */
  lemma {:induction false} ItemsMembership(evs: seq<Event>, x: Result<Entry, Error>)
    ensures x in Items(evs) <==>
      (x.Ok? && Matched(Ok(x.value)) && Ok(x.value) in evs) ||
      (x.Err? && x.error.WalkDir? && Err(x.error.walk) in evs)
  {
    if evs != [] {
      ItemsMembership(evs[1..], x);
      assert evs == [evs[0]] + evs[1..];
    }
  }

  /** The pruned pending walk of a listing's pushed nodes is that listing's pruned walk. */
  lemma PendingPruned(dir: Path, l: Listing)
    ensures PrunedAll(dir, Pending(l)) == PrunedListing(dir, l)
  {
  }

  /**
   * One cursor step as a pruning walker sees it: the cursor produces the first item of
   * the pruned walk and, once the walker skips a matched directory, leaves the rest.
   */
  lemma StepPruned(stack: seq<Frame>)
    ensures Step(stack).0 == None <==> StackPruned(stack) == []
    ensures Step(stack).0.Some? ==>
      var ev := Step(stack).0.value;
      var after := Step(stack).1;
      StackPruned(stack) == [ev] + StackPruned(if Matched(ev) then Pop(after) else after)
  {
    TrimPruned(stack);
    var t := Trim(stack);
    if t != [] {
      assert t == t[..|t| - 1] + [t[|t| - 1]];
      AdvancePruned(t[..|t| - 1], t[|t| - 1]);
    }
  }

  /** A frame pushed on top of a stack is walked first. */
  lemma StackPrunedPush(below: seq<Frame>, f: Frame)
    ensures StackPruned(below + [f]) == PrunedAll(f.dir, f.rest) + StackPruned(below)
  {
    assert (below + [f])[..|below|] == below;
  }

  lemma PrunedAllCons(dir: Path, ns: seq<Node>)
    requires ns != []
    ensures PrunedAll(dir, ns) == PrunedEvents(dir, ns[0]) + PrunedAll(dir, ns[1..])
  {
  }

  /** Popping a pushed frame restores the stack beneath it. */
  lemma PopPush(below: seq<Frame>, f: Frame)
    ensures Pop(below + [f]) == below
  {
    assert (below + [f])[..|below|] == below;
  }

  /** Taking the first pending node of the top frame leaves its siblings and the frames beneath. */
  lemma TakeFirst(below: seq<Frame>, f: Frame)
    requires f.rest != []
    ensures StackPruned(below + [f]) ==
      PrunedEvents(f.dir, f.rest[0]) + StackPruned(below + [Frame(f.dir, f.rest[1..])])
  {
    var first, siblings, beneath := PrunedEvents(f.dir, f.rest[0]), PrunedAll(f.dir, f.rest[1..]), StackPruned(below);
    StackPrunedPush(below, f);
    StackPrunedPush(below, Frame(f.dir, f.rest[1..]));
    PrunedAllCons(f.dir, f.rest);
    assert StackPruned(below + [f]) == (first + siblings) + beneath;
  }

  /** A directory's pruned walk: its own item and, unless it matches, its listing's walk. */
  lemma PrunedDir(dir: Path, name: OsName, l: Listing, advanced: seq<Frame>)
    ensures !IsGitDir(name) ==>
      PrunedEvents(dir, Dir(name, l)) + StackPruned(advanced) ==
      [EventOf(dir, Dir(name, l))] + StackPruned(advanced + [Frame(dir + [name], Pending(l))])
    ensures IsGitDir(name) ==>
      PrunedEvents(dir, Dir(name, l)) + StackPruned(advanced) == [EventOf(dir, Dir(name, l))] + StackPruned(advanced)
  {
    var ev := EventOf(dir, Dir(name, l));
    if !IsGitDir(name) {
      StackPrunedPush(advanced, Frame(dir + [name], Pending(l)));
      PendingPruned(dir + [name], l);
      var inner := PrunedListing(dir + [name], l);
      assert PrunedEvents(dir, Dir(name, l)) == [ev] + inner;
      assert ([ev] + inner) + StackPruned(advanced) == [ev] + (inner + StackPruned(advanced));
    }
  }

  /**
   * Taking the first pending node of the top frame yields that node's item first; the
   * walk goes on into the pushed listing unless the node is a matched directory.
   */
  lemma AdvancePruned(below: seq<Frame>, f: Frame)
    requires f.rest != []
    ensures
      var ev := EventOf(f.dir, f.rest[0]);
      var after := Advance(below, f);
      StackPruned(below + [f]) == [ev] + StackPruned(if Matched(ev) then Pop(after) else after)
  {
    var advanced := below + [Frame(f.dir, f.rest[1..])];
    TakeFirst(below, f);
    match f.rest[0]
    case Dir(name, l) =>
      PopPush(advanced, Frame(f.dir + [name], Pending(l)));
      PrunedDir(f.dir, name, l, advanced);
    case _ =>
  }

  /**
   * Bookkeeping for a walker that has consumed `visited` and now consumes `ev`: the
   * consumed prefix grows by `ev`, and so do the yielded items by `ItemOf(ev)`.
   */
  lemma Consume(visited: seq<Event>, ev: Event, before: seq<Event>, after: seq<Event>)
    requires before == [ev] + after
    ensures (visited + [ev]) + after == visited + before
    ensures Items(visited + [ev]) == Items(visited) + ItemOf(ev)
    ensures Items(before) == ItemOf(ev) + Items(after)
  {
    ShiftOne(visited, ev, after);
    ItemsAppend(visited, [ev]);
    ItemsSingle(ev);
    ItemsCons(ev, after);
  }

  lemma ShiftOne(visited: seq<Event>, ev: Event, after: seq<Event>)
    ensures (visited + [ev]) + after == visited + ([ev] + after)
  {
  }

  lemma ItemsCons(ev: Event, after: seq<Event>)
    ensures Items([ev] + after) == ItemOf(ev) + Items(after)
  {
    assert ([ev] + after)[0] == ev && ([ev] + after)[1..] == after;
  }

  lemma ItemsSingle(ev: Event)
    ensures Items([ev]) == ItemOf(ev)
  {
    assert [ev][1..] == [];
  }

  /** Popping exhausted listings changes nothing still to come. */
  lemma {:induction false} TrimPruned(stack: seq<Frame>)
    ensures StackPruned(Trim(stack)) == StackPruned(stack)
    ensures Trim(stack) == [] ==> StackPruned(stack) == []
  {
    if stack != [] && stack[|stack| - 1].rest == [] {
      TrimPruned(stack[..|stack| - 1]);
    }
  }

  /** `dir` is a prefix of `p` and every name of `p` below `dir` is one that does not match. */
  ghost predicate BelowUnmatched(dir: Path, p: Path)
  {
    |dir| <= |p| && p[..|dir|] == dir && forall k :: |dir| <= k < |p| ==> !IsGitDir(p[k])
  }

  /**
   * Every entry the pruned walk visits lies below `dir` only through directories
   * whose names do not match: the walk never descends through a matched directory.
   */
  lemma {:induction false} PrunedEventsBelowUnmatched(dir: Path, n: Node)
    ensures forall ev :: ev in PrunedEvents(dir, n) && ev.Ok? ==> BelowUnmatched(dir, ev.value.dir)
    decreases n
  {
    match n
    case Dir(name, l) =>
      if !IsGitDir(name) {
        PrunedListingBelowUnmatched(dir + [name], l);
        forall ev | ev in PrunedListing(dir + [name], l) && ev.Ok?
          ensures BelowUnmatched(dir, ev.value.dir)
        {
          var p := ev.value.dir;
          assert p[..|dir|] == (dir + [name])[..|dir|] == dir;
          assert p[|dir|] == name;
        }
      }
    case _ =>
  }

  lemma {:induction false} PrunedListingBelowUnmatched(dir: Path, l: Listing)
    ensures forall ev :: ev in PrunedListing(dir, l) && ev.Ok? ==> BelowUnmatched(dir, ev.value.dir)
    decreases l
  {
    match l
    case Listed(cs) => PrunedAllBelowUnmatched(dir, cs);
    case Unreadable(_) =>
  }

  lemma {:induction false} PrunedAllBelowUnmatched(dir: Path, ns: seq<Node>)
    ensures forall ev :: ev in PrunedAll(dir, ns) && ev.Ok? ==> BelowUnmatched(dir, ev.value.dir)
    decreases ns
  {
    if ns != [] {
      PrunedEventsBelowUnmatched(dir, ns[0]);
      PrunedAllBelowUnmatched(dir, ns[1..]);
    }
  }

  predicate IsStrictPrefix(p: Path, q: Path)
  {
    |p| < |q| && q[..|p|] == p
  }

  /**
   * The prune invariant: no entry visited by the pruned walk of `root` lies below a
   * visited directory that matched.
   */
  lemma NoVisitBelowMatch(root: Node, m: Event, ev: Event)
    requires m in PrunedEvents([], root) && Matched(m)
    requires ev in PrunedEvents([], root) && ev.Ok?
    ensures !IsStrictPrefix(m.value.FullPath(), ev.value.FullPath())
  {
    PrunedEventsBelowUnmatched([], root);
    var mp, p := m.value.FullPath(), ev.value.FullPath();
    var k := |m.value.dir|;
    if |mp| < |p| {
      assert k < |ev.value.dir| && !IsGitDir(ev.value.dir[k]);
      assert p[k] == ev.value.dir[k] && mp[k] == m.value.name;
      assert p[..|mp|][k] == p[k] != mp[k];
    }
  }

  /** A tree in which no directory has a matching name. */
  ghost predicate NoGitDir(n: Node)
    decreases n
  {
    match n
    case Dir(name, l) => !IsGitDir(name) && (l.Listed? ==> forall c :: c in l.children ==> NoGitDir(c))
    case _ => true
  }

  /** Where no directory matches, pruning has no effect and nothing the cursor produces matches. */
  lemma {:induction false} NoGitDirUnpruned(dir: Path, n: Node)
    requires NoGitDir(n)
    ensures PrunedEvents(dir, n) == Events(dir, n)
    ensures forall ev :: ev in Events(dir, n) ==> !Matched(ev)
    decreases n
  {
    match n
    case Dir(name, l) =>
      match l {
        case Listed(cs) => NoGitDirUnprunedAll(dir + [name], cs);
        case Unreadable(_) =>
      }
    case _ =>
  }

  lemma {:induction false} NoGitDirUnprunedAll(dir: Path, ns: seq<Node>)
    requires forall c :: c in ns ==> NoGitDir(c)
    ensures PrunedAll(dir, ns) == AllEvents(dir, ns)
    ensures forall ev :: ev in AllEvents(dir, ns) ==> !Matched(ev)
    decreases ns
  {
    if ns != [] {
      NoGitDirUnpruned(dir, ns[0]);
      NoGitDirUnprunedAll(dir, ns[1..]);
    }
  }

  /** A tree with no matching directory yields no entry at all, only its traversal errors. */
  lemma NoGitDirNoEntries(root: Node, x: Result<Entry, Error>)
    requires NoGitDir(root)
    requires x in Items(PrunedEvents([], root))
    ensures x.Err? && x.error.WalkDir?
  {
    NoGitDirUnpruned([], root);
    ItemsMembership(PrunedEvents([], root), x);
  }

  /** A cursor started on a tree performs, over all its calls, the tree's pruned walk. */
  lemma StartPruned(root: Node)
    ensures StackPruned([Frame([], [root])]) == PrunedEvents([], root)
  {
    var stack := [Frame([], [root])];
    assert stack[..0] == [];
    assert [root][1..] == [];
    assert StackPruned(stack) == PrunedAll([], [root]) + StackPruned([]);
    assert PrunedAll([], [root]) == PrunedEvents([], root) + PrunedAll([], []);
  }
}
