/**
 * A model of the `walkdir` crate's cursor (`walkdir::IntoIter`) over an abstract
 * directory tree: a depth-first pre-order traversal driven by an explicit stack of
 * pending directory listings, with `skip_current_dir` discarding the listing of the
 * directory entered last. Sibling order is whatever the tree says: it is an input.
 */
module DirWalk {
  import opened Wrappers
  import opened Names

  /** A traversal failure (`walkdir::Error`), kept as its message. */
  datatype WalkError = WalkError(message: string)

  /**
   * A filesystem entry as the traversal finds it. `File` is every entry that is not
   * a directory (regular files and symbolic links, which are not followed);
   * `Broken` is an entry the traversal reports as an error instead of an entry.
   */
  datatype Node =
    | File(name: OsName)
    | Dir(name: OsName, listing: Listing)
    | Broken(err: WalkError)

  /** The result of reading a directory's contents. */
  datatype Listing = Listed(children: seq<Node>) | Unreadable(err: WalkError)

  /** `walkdir::DirEntry`: the directory it was found in, its file name and whether it is a directory. */
  datatype Entry = Entry(dir: Path, name: OsName, isDir: bool)
  {
    /** `DirEntry::path`. */
    function FullPath(): Path
    {
      dir + [name]
    }
  }

  /** One item of the cursor: an entry or a traversal error. */
  type Event = Result<Entry, WalkError>

  /** The pending, not yet visited, nodes of one directory being listed. */
  datatype Frame = Frame(dir: Path, rest: seq<Node>)

  /** The item the cursor produces when it reaches node `n` inside directory `dir`. */
  function EventOf(dir: Path, n: Node): Event
  {
    match n
    case File(name) => Ok(Entry(dir, name, false))
    case Dir(name, _) => Ok(Entry(dir, name, true))
    case Broken(e) => Err(e)
  }

  /** What the cursor pushes when it enters a directory: its children, or one error. */
  function Pending(l: Listing): seq<Node>
  {
    match l
    case Listed(cs) => cs
    case Unreadable(e) => [Broken(e)]
  }

  /** The full pre-order sequence of items for node `n` found in directory `dir`. */
  function Events(dir: Path, n: Node): seq<Event>
    decreases n
  {
    match n
    case Dir(name, l) => [EventOf(dir, n)] + ListingEvents(dir + [name], l)
    case _ => [EventOf(dir, n)]
  }

  function ListingEvents(dir: Path, l: Listing): seq<Event>
    decreases l
  {
    match l
    case Listed(cs) => AllEvents(dir, cs)
    case Unreadable(e) => [Err(e)]
  }

  function AllEvents(dir: Path, ns: seq<Node>): seq<Event>
    decreases ns
  {
    if ns == [] then [] else Events(dir, ns[0]) + AllEvents(dir, ns[1..])
  }

  /** Everything a cursor with this stack will still produce; the top of the stack is its last frame. */
  function StackEvents(stack: seq<Frame>): seq<Event>
  {
    if stack == [] then []
    else
      var top := stack[|stack| - 1];
      AllEvents(top.dir, top.rest) + StackEvents(stack[..|stack| - 1])
  }

  /** The pending nodes of a listing produce exactly that listing's items. */
  lemma PendingEvents(dir: Path, l: Listing)
    ensures AllEvents(dir, Pending(l)) == ListingEvents(dir, l)
  {
  }

  /** The stack with its exhausted frames on top popped, as the cursor's loop does. */
  function Trim(stack: seq<Frame>): (t: seq<Frame>)
    ensures t == [] || t[|t| - 1].rest != []
    ensures |t| <= |stack| && t == stack[..|t|]
    ensures StackEvents(t) == StackEvents(stack)
  {
    if stack == [] then []
    else if stack[|stack| - 1].rest == [] then
      assert stack[..|stack| - 1][..|Trim(stack[..|stack| - 1])|] == stack[..|Trim(stack[..|stack| - 1])|];
      Trim(stack[..|stack| - 1])
    else stack
  }

  /** The stack after `skip_current_dir`: the top frame, if any, is dropped. */
  function Pop(stack: seq<Frame>): seq<Frame>
  {
    if stack == [] then [] else stack[..|stack| - 1]
  }

  /**
   * The stack after the cursor takes the first pending node of frame `f`, which sits on
   * top of `below`: the node leaves `f`, and a directory's listing is pushed.
   */
  function Advance(below: seq<Frame>, f: Frame): seq<Frame>
    requires f.rest != []
  {
    var advanced := below + [Frame(f.dir, f.rest[1..])];
    match f.rest[0]
    case Dir(name, l) => advanced + [Frame(f.dir + [name], Pending(l))]
    case _ => advanced
  }

  /**
   * One call of the cursor's `next`: pop exhausted listings, take the next pending
   * node of the top listing and, when it is a directory, push its listing.
   */
  function Step(stack: seq<Frame>): (Option<Event>, seq<Frame>)
  {
    var t := Trim(stack);
    if t == [] then (None, [])
    else
      var f := t[|t| - 1];
      (Some(EventOf(f.dir, f.rest[0])), Advance(t[..|t| - 1], f))
  }

  /** A frame pushed on top of a stack produces its pending nodes' items first. */
  lemma StackEventsPush(below: seq<Frame>, f: Frame)
    ensures StackEvents(below + [f]) == AllEvents(f.dir, f.rest) + StackEvents(below)
  {
    assert (below + [f])[..|below|] == below;
  }

  /** The first pending node of a listing produces the first of the listing's items. */
  lemma AllEventsCons(dir: Path, ns: seq<Node>)
    requires ns != []
    ensures AllEvents(dir, ns) == Events(dir, ns[0]) + AllEvents(dir, ns[1..])
  {
  }

  /** Taking the first pending node of the top frame leaves its siblings and the frames beneath. */
  lemma TakeFirstEvents(below: seq<Frame>, f: Frame)
    requires f.rest != []
    ensures StackEvents(below + [f]) ==
      Events(f.dir, f.rest[0]) + StackEvents(below + [Frame(f.dir, f.rest[1..])])
  {
    var first, siblings, beneath := Events(f.dir, f.rest[0]), AllEvents(f.dir, f.rest[1..]), StackEvents(below);
    StackEventsPush(below, f);
    StackEventsPush(below, Frame(f.dir, f.rest[1..]));
    AllEventsCons(f.dir, f.rest);
    assert StackEvents(below + [f]) == (first + siblings) + beneath;
  }

  /** A directory's walk: its own item, then its listing's, pushed on top of `advanced`. */
  lemma DirEvents(dir: Path, name: OsName, l: Listing, advanced: seq<Frame>)
    ensures Events(dir, Dir(name, l)) + StackEvents(advanced) ==
      [EventOf(dir, Dir(name, l))] + StackEvents(advanced + [Frame(dir + [name], Pending(l))])
  {
    var ev := EventOf(dir, Dir(name, l));
    StackEventsPush(advanced, Frame(dir + [name], Pending(l)));
    PendingEvents(dir + [name], l);
    var inner := ListingEvents(dir + [name], l);
    assert Events(dir, Dir(name, l)) == [ev] + inner;
    assert ([ev] + inner) + StackEvents(advanced) == [ev] + (inner + StackEvents(advanced));
  }

  /** Taking the first pending node of the top frame produces that node's item first. */
  lemma AdvanceEvents(below: seq<Frame>, f: Frame)
    requires f.rest != []
    ensures StackEvents(below + [f]) == [EventOf(f.dir, f.rest[0])] + StackEvents(Advance(below, f))
  {
    var advanced := below + [Frame(f.dir, f.rest[1..])];
    TakeFirstEvents(below, f);
    match f.rest[0]
    case Dir(name, l) =>
      DirEvents(f.dir, name, l, advanced);
    case _ =>
  }

  /**
   * The cursor is a preorder walk: it reports exhaustion exactly when nothing is left,
   * and otherwise produces the first remaining item and leaves exactly the others.
   */
  lemma StepEvents(stack: seq<Frame>)
    ensures Step(stack).0 == None <==> StackEvents(stack) == []
    ensures Step(stack).0 == None ==> Step(stack).1 == []
    ensures Step(stack).0.Some? ==> StackEvents(stack) == [Step(stack).0.value] + StackEvents(Step(stack).1)
  {
    var t := Trim(stack);
    if t != [] {
      assert t == t[..|t| - 1] + [t[|t| - 1]];
      AdvanceEvents(t[..|t| - 1], t[|t| - 1]);
    }
  }

  /** The cursor: `walkdir::IntoIter` with its stack of open directory listings. */
  class Cursor {
    var stack: seq<Frame>

    /** `WalkDir::new(root).into_iter()`: only the root is pending. */
    constructor (root: Node)
      ensures stack == [Frame([], [root])]
    {
      stack := [Frame([], [root])];
    }

    /** `Iterator::next`. */
    method Next() returns (r: Option<Event>)
      modifies this
      ensures r == Step(old(stack)).0 && stack == Step(old(stack)).1
    {
      while stack != [] && stack[|stack| - 1].rest == []
        invariant Trim(stack) == Trim(old(stack))
        decreases |stack|
      {
        stack := stack[..|stack| - 1];
      }
      if stack == [] {
        return None;
      }
      var f := stack[|stack| - 1];
      var n := f.rest[0];
      stack := stack[..|stack| - 1] + [Frame(f.dir, f.rest[1..])];
      match n {
        case File(name) =>
          r := Some(Ok(Entry(f.dir, name, false)));
        case Dir(name, l) =>
          stack := stack + [Frame(f.dir + [name], Pending(l))];
          r := Some(Ok(Entry(f.dir, name, true)));
        case Broken(e) =>
          r := Some(Err(e));
      }
    }

    /** `skip_current_dir`: stop listing the directory entered last. */
    method SkipCurrentDir()
      modifies this
      ensures stack == Pop(old(stack))
    {
      if stack != [] {
        stack := stack[..|stack| - 1];
      }
    }
  }
}
