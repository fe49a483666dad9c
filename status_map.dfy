/**
 * `RepositoryStateMap` from src/status_map.rs: twelve buckets of repositories, one
 * per repository state, filled in discovery order.
 */
module StatusMap {
  import opened GitRepo

  /** The number of repository states, and of buckets. */
  const StateCount: nat := 12

  /** `to_usize`: the bucket that holds repositories in state `s`. */
  function ToUsize(s: RepositoryState): (i: nat)
    ensures i < StateCount
  {
    match s
    case Clean => 0
    case Merge => 1
    case Revert => 2
    case RevertSequence => 3
    case CherryPick => 4
    case CherryPickSequence => 5
    case Bisect => 6
    case Rebase => 7
    case RebaseInteractive => 8
    case RebaseMerge => 9
    case ApplyMailbox => 10
    case ApplyMailboxOrRebase => 11
  }

  /** The state whose bucket is `i`: the inverse of `ToUsize`. */
  function StateAt(i: nat): (s: RepositoryState)
    requires i < StateCount
    ensures ToUsize(s) == i
  {
    [Clean, Merge, Revert, RevertSequence, CherryPick, CherryPickSequence,
     Bisect, Rebase, RebaseInteractive, RebaseMerge, ApplyMailbox, ApplyMailboxOrRebase][i]
  }

  /** `ToUsize` is one-to-one and onto `0..11`: every state has its own bucket and every bucket a state. */
  lemma ToUsizeBijective(s: RepositoryState, t: RepositoryState)
    ensures StateAt(ToUsize(s)) == s
    ensures ToUsize(s) == ToUsize(t) <==> s == t
  {
  }

  type Buckets = seq<seq<Repository>>

  /** Twelve empty buckets, the contents of `RepositoryStateMap::new()`. */
  function EmptyBuckets(): (b: Buckets)
    ensures |b| == StateCount
    ensures forall i :: 0 <= i < StateCount ==> b[i] == []
  {
    seq(StateCount, _ => [])
  }

  /** `map[&repo.state()].push(repo)`: append `r` to the bucket of its state. */
  function Insert(b: Buckets, r: Repository): (b': Buckets)
    requires |b| == StateCount
    ensures |b'| == StateCount
  {
    b[ToUsize(r.state) := b[ToUsize(r.state)] + [r]]
  }

  /** Inserting every repository of `rs`, in order, into `b`. */
  function InsertAll(b: Buckets, rs: seq<Repository>): (b': Buckets)
    requires |b| == StateCount
    ensures |b'| == StateCount
  {
    if rs == [] then b else Insert(InsertAll(b, rs[..|rs| - 1]), rs[|rs| - 1])
  }

  /** What `from_iter` builds: `new()` followed by one insertion per repository. */
  function Partition(rs: seq<Repository>): (b: Buckets)
    ensures |b| == StateCount
  {
    InsertAll(EmptyBuckets(), rs)
  }

  /** The repositories of `rs` in state `s`, in their order in `rs`. */
  function OfState(rs: seq<Repository>, s: RepositoryState): seq<Repository>
  {
    if rs == [] then []
    else (if rs[0].state == s then [rs[0]] else []) + OfState(rs[1..], s)
  }

  lemma {:induction false} OfStateSnoc(rs: seq<Repository>, r: Repository, s: RepositoryState)
    ensures OfState(rs + [r], s) == OfState(rs, s) + (if r.state == s then [r] else [])
  {
    if rs == [] {
      assert rs + [r] == [r];
      assert [r][1..] == [];
    } else {
      var head := if rs[0].state == s then [rs[0]] else [];
      var tail := if r.state == s then [r] else [];
      assert (rs + [r])[0] == rs[0];
      assert (rs + [r])[1..] == rs[1..] + [r];
      OfStateSnoc(rs[1..], r, s);
      assert OfState(rs + [r], s) == head + (OfState(rs[1..], s) + tail);
    }
  }

  /** Each bucket of the partition holds exactly the repositories in its state, in input order. */
  lemma {:induction false} PartitionBucket(rs: seq<Repository>, s: RepositoryState)
    ensures Partition(rs)[ToUsize(s)] == OfState(rs, s)
  {
    if rs != [] {
      var init, r := rs[..|rs| - 1], rs[|rs| - 1];
      assert rs == init + [r];
      PartitionBucket(init, s);
      OfStateSnoc(init, r, s);
      ToUsizeBijective(r.state, s);
    }
  }

  /** The summed length of all buckets. */
  function TotalLength(b: Buckets): nat
  {
    if b == [] then 0 else |b[0]| + TotalLength(b[1..])
  }

  lemma {:induction false} TotalLengthUpdate(b: Buckets, i: nat, v: seq<Repository>)
    requires i < |b|
    ensures TotalLength(b[i := v]) == TotalLength(b) - |b[i]| + |v|
  {
    if i > 0 {
      assert b[i := v][1..] == b[1..][i - 1 := v];
      TotalLengthUpdate(b[1..], i - 1, v);
    } else {
      assert b[i := v][1..] == b[1..];
    }
  }

  /** Nothing is lost or duplicated: the bucket lengths add up to the input length. */
  lemma {:induction false} PartitionTotal(rs: seq<Repository>)
    ensures TotalLength(Partition(rs)) == |rs|
  {
    if rs == [] {
      assert TotalLength(EmptyBuckets()) == 0 by {
        var e := EmptyBuckets();
        forall k | 0 <= k <= StateCount
          ensures TotalLength(e[k..]) == 0
        {
          EmptySuffixTotal(e, k);
        }
        assert e[0..] == e;
      }
    } else {
      var init, r := rs[..|rs| - 1], rs[|rs| - 1];
      PartitionTotal(init);
      TotalLengthUpdate(Partition(init), ToUsize(r.state), Partition(init)[ToUsize(r.state)] + [r]);
    }
  }

  lemma {:induction false} EmptySuffixTotal(e: Buckets, k: nat)
    requires k <= |e| && forall i :: 0 <= i < |e| ==> e[i] == []
    ensures TotalLength(e[k..]) == 0
    decreases |e| - k
  {
    if k < |e| {
      EmptySuffixTotal(e, k + 1);
      assert e[k..][1..] == e[k + 1..];
    }
  }

  /** Every input repository is in the bucket of its state and in no other bucket. */
  lemma ExactlyOneBucket(rs: seq<Repository>, r: Repository, s: RepositoryState)
    requires r in rs
    ensures r in Partition(rs)[ToUsize(s)] <==> s == r.state
  {
    PartitionBucket(rs, s);
    OfStateMembership(rs, r, s);
  }

  lemma {:induction false} OfStateMembership(rs: seq<Repository>, r: Repository, s: RepositoryState)
    ensures r in OfState(rs, s) <==> r in rs && r.state == s
  {
    if rs != [] {
      OfStateMembership(rs[1..], r, s);
      assert rs == [rs[0]] + rs[1..];
    }
  }

  /** The map itself: a fixed array of twelve buckets. */
  class RepositoryStateMap {
    var data: array<seq<Repository>>

    ghost predicate Valid()
      reads this
    {
      data.Length == StateCount
    }

    /** The buckets, bucket `ToUsize(s)` for state `s`. */
    function Buckets(): (b: Buckets)
      reads this, data
      requires Valid()
      ensures |b| == StateCount
    {
      data[..]
    }

    /** Every repository sits in the bucket of its own state. */
    ghost predicate Partitioned()
      reads this, data
      requires Valid()
    {
      forall i, j :: 0 <= i < StateCount && 0 <= j < |data[i]| ==> ToUsize(data[i][j].state) == i
    }

    /** `RepositoryStateMap::new()` and `default()`: all twelve buckets empty. */
    constructor ()
      ensures Valid() && fresh(data)
      ensures Buckets() == EmptyBuckets()
      ensures Partitioned()
    {
      data := new seq<Repository>[StateCount](_ => []);
    }

    /** `Index`: the bucket for state `s`, read without changing the map. */
    function Index(s: RepositoryState): (r: seq<Repository>)
      reads this, data
      requires Valid()
      ensures r == Buckets()[ToUsize(s)]
      ensures Partitioned() ==> forall x :: x in r ==> x.state == s
    {
      var r := data[ToUsize(s)];
      assert Partitioned() ==> forall x :: x in r ==> x.state == s by {
        if Partitioned() {
          forall x | x in r ensures x.state == s {
            var j :| 0 <= j < |r| && r[j] == x;
            ToUsizeBijective(x.state, s);
          }
        }
      }
      r
    }

    /** `take`: empty bucket `s` and return what it held; the other buckets are untouched. */
    method Take(s: RepositoryState) returns (v: seq<Repository>)
      requires Valid()
      modifies data
      ensures Valid()
      ensures v == old(Index(s)) && Index(s) == []
      ensures forall t :: t != s ==> Index(t) == old(Index(t))
      ensures Buckets() == old(Buckets())[ToUsize(s) := []]
      ensures old(Partitioned()) ==> Partitioned()
    {
      v := data[ToUsize(s)];
      data[ToUsize(s)] := [];
      forall t | t != s ensures ToUsize(t) != ToUsize(s) {
        ToUsizeBijective(t, s);
      }
    }

    /** `IndexMut` followed by `push`: append `repo` to bucket `s`. */
    method Push(s: RepositoryState, repo: Repository)
      requires Valid()
      modifies data
      ensures Valid()
      ensures Buckets() == old(Buckets())[ToUsize(s) := old(Index(s)) + [repo]]
      ensures old(Partitioned()) && repo.state == s ==> Partitioned()
    {
      data[ToUsize(s)] := data[ToUsize(s)] + [repo];
    }

    /**
     * `from_iter`: a new map with every repository appended to the bucket of its
     * state, in input order.
     */
    static method FromIter(repos: seq<Repository>) returns (m: RepositoryStateMap)
      ensures fresh(m) && fresh(m.data) && m.Valid()
      ensures m.Buckets() == Partition(repos)
      ensures forall s :: m.Index(s) == OfState(repos, s)
      ensures m.Partitioned()
    {
      m := new RepositoryStateMap();
      for k := 0 to |repos|
        invariant m.Valid() && fresh(m.data)
        invariant m.Buckets() == Partition(repos[..k])
        invariant m.Partitioned()
      {
        assert repos[..k + 1][..k] == repos[..k];
        m.Push(repos[k].state, repos[k]);
      }
      assert repos[..|repos|] == repos;
      forall s ensures m.Index(s) == OfState(repos, s) {
        PartitionBucket(repos, s);
      }
    }
  }

  /** Inserting states Rebase, RebaseInteractive, Rebase fills two buckets, keeping order. */
  lemma PartitionRebaseExample(a: Repository, b: Repository, c: Repository)
    requires a.state == Rebase && b.state == RebaseInteractive && c.state == Rebase
    ensures Partition([a, b, c])[ToUsize(Rebase)] == [a, c]
    ensures Partition([a, b, c])[ToUsize(RebaseInteractive)] == [b]
    ensures forall s :: s != Rebase && s != RebaseInteractive ==> Partition([a, b, c])[ToUsize(s)] == []
  {
    var rs := [a, b, c];
    assert rs[1..] == [b, c] && rs[1..][1..] == [c] && rs[1..][1..][1..] == [];
    forall s
      ensures Partition(rs)[ToUsize(s)] ==
        (if a.state == s then [a] else []) + (if b.state == s then [b] else []) + (if c.state == s then [c] else [])
    {
      PartitionBucket(rs, s);
      assert OfState([c], s) == (if c.state == s then [c] else []) + OfState([], s);
      assert OfState([b, c], s) == (if b.state == s then [b] else []) + OfState([c], s);
    }
  }
}
