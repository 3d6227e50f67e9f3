/** The commit graph: ancestor sets, the breadth-first search that picks the split
    point of a merge, and the first-parent chain that `log` walks (Main.java). */
module History {
  import opened Wrappers
  import opened Commits

  /** getCommits: the commit and everything reachable through parent and merge-in
      parent links. */
  function GetCommits(c: Commit): (s: set<Commit>)
    ensures c in s
  {
    {c}
    + (match c.parent case Some(p) => GetCommits(p) case None => {})
    + (match c.merge case Some(m) => GetCommits(m) case None => {})
  }

  /** A set of commits that contains the parents of each of its members. */
  ghost predicate Closed(s: set<Commit>)
  {
    forall x :: x in s ==>
      (x.parent.Some? ==> x.parent.value in s) && (x.merge.Some? ==> x.merge.value in s)
  }

  /** The ancestor set is closed under both parent links. */
  lemma {:induction false} GetCommitsClosed(c: Commit)
    ensures Closed(GetCommits(c))
  {
    if c.parent.Some? { GetCommitsClosed(c.parent.value); }
    if c.merge.Some? { GetCommitsClosed(c.merge.value); }
  }

  /** ... and it is the least such set containing the commit. */
  lemma {:induction false} GetCommitsLeast(c: Commit, s: set<Commit>)
    requires Closed(s) && c in s
    ensures GetCommits(c) <= s
  {
    if c.parent.Some? { GetCommitsLeast(c.parent.value, s); }
    if c.merge.Some? { GetCommitsLeast(c.merge.value, s); }
  }

  /** Reachability is transitive. */
  lemma GetCommitsTransitive(a: Commit, c: Commit)
    requires a in GetCommits(c)
    ensures GetCommits(a) <= GetCommits(c)
  {
    GetCommitsClosed(c);
    GetCommitsLeast(a, GetCommits(c));
  }

  /** The ids of a set of commits. */
  function Ids(s: set<Commit>): set<string>
  {
    set x | x in s :: x.id
  }

  /** The commits the search enqueues after visiting `c`: parent first, then the
      merge-in parent. */
  function Children(c: Commit): (r: seq<Commit>)
    ensures forall x :: x in r <==> (c.parent == Some(x) || c.merge == Some(x))
    ensures |r| == (if c.parent.Some? then 1 else 0) + (if c.merge.Some? then 1 else 0)
    ensures c.parent.Some? ==> r[0] == c.parent.value
    ensures c.merge.Some? ==> r[|r| - 1] == c.merge.value
  {
    (if c.parent.Some? then [c.parent.value] else [])
    + (if c.merge.Some? then [c.merge.value] else [])
  }

  /** The number of nodes in the commit's history unfolded into a tree; it bounds the
      work of a search that keeps no visited set. */
  function Weight(c: Commit): nat
  {
    1 + (match c.parent case Some(p) => Weight(p) case None => 0)
      + (match c.merge case Some(m) => Weight(m) case None => 0)
  }

  function QueueWeight(q: seq<Commit>): nat
  {
    if q == [] then 0 else Weight(q[0]) + QueueWeight(q[1..])
  }

  lemma {:induction false} QueueWeightAppend(a: seq<Commit>, b: seq<Commit>)
    ensures QueueWeight(a + b) == QueueWeight(a) + QueueWeight(b)
  {
    if a == [] {
      assert a + b == b;
    } else {
      assert (a + b)[0] == a[0];
      assert (a + b)[1..] == a[1..] + b;
      QueueWeightAppend(a[1..], b);
    }
  }

  lemma QueueWeightChildren(c: Commit)
    ensures QueueWeight(Children(c)) + 1 == Weight(c)
  {
    match (c.parent, c.merge)
    case (Some(p), Some(m)) =>
      assert Children(c) == [p, m];
      assert [p, m][1..] == [m];
      assert QueueWeight([m]) == Weight(m);
    case (Some(p), None) =>
      assert Children(c) == [p];
      assert QueueWeight([p]) == Weight(p);
    case (None, Some(m)) =>
      assert Children(c) == [m];
      assert QueueWeight([m]) == Weight(m);
    case (None, None) =>
      assert Children(c) == [];
  }

  /** Visiting the head of the queue and enqueueing its parents shrinks the weight. */
  lemma QueueWeightStep(q: seq<Commit>)
    requires q != []
    ensures QueueWeight(q[1..] + Children(q[0])) < QueueWeight(q)
  {
    QueueWeightAppend(q[1..], Children(q[0]));
    QueueWeightChildren(q[0]);
  }

  /** The order in which a breadth-first search with no visited set dequeues commits,
      starting from queue `q`, when it never stops early. */
  ghost function Bfs(q: seq<Commit>): seq<Commit>
    decreases QueueWeight(q)
  {
    if q == [] then []
    else
      QueueWeightStep(q);
      [q[0]] + Bfs(q[1..] + Children(q[0]))
  }

  /** The first commit of `s` whose id is in `ids`. */
  function FirstWithId(s: seq<Commit>, ids: set<string>): (r: Option<Commit>)
    ensures r.Some? ==> r.value in s && r.value.id in ids
    ensures r.Some? ==> exists k :: 0 <= k < |s| && s[k] == r.value
                                    && forall j :: 0 <= j < k ==> s[j].id !in ids
    ensures r.None? <==> forall i :: 0 <= i < |s| ==> s[i].id !in ids
  {
    if s == [] then None
    else if s[0].id in ids then Some(s[0])
    else FirstWithId(s[1..], ids)
  }

  /** The ancestors of all commits in a queue. */
  function Reach(q: seq<Commit>): set<Commit>
  {
    if q == [] then {} else GetCommits(q[0]) + Reach(q[1..])
  }

  lemma {:induction false} ReachAppend(a: seq<Commit>, b: seq<Commit>)
    ensures Reach(a + b) == Reach(a) + Reach(b)
  {
    if a == [] {
      assert a + b == b;
    } else {
      assert (a + b)[0] == a[0];
      assert (a + b)[1..] == a[1..] + b;
      ReachAppend(a[1..], b);
    }
  }

  lemma ReachChildren(c: Commit)
    ensures GetCommits(c) == {c} + Reach(Children(c))
  {
    match (c.parent, c.merge)
    case (Some(p), Some(m)) =>
      assert Children(c) == [p, m];
      assert [p, m][1..] == [m];
      assert Reach([m]) == GetCommits(m);
    case (Some(p), None) =>
      assert Children(c) == [p];
      assert Reach([p]) == GetCommits(p);
    case (None, Some(m)) =>
      assert Children(c) == [m];
      assert Reach([m]) == GetCommits(m);
    case (None, None) =>
      assert Children(c) == [];
  }

  /** The search dequeues exactly the ancestors of the queue's commits. */
  lemma {:induction false} BfsVisitsReach(q: seq<Commit>)
    ensures forall x :: x in Bfs(q) <==> x in Reach(q)
    decreases QueueWeight(q)
  {
    if q != [] {
      var next := q[1..] + Children(q[0]);
      QueueWeightStep(q);
      BfsVisitsReach(next);
      ReachAppend(q[1..], Children(q[0]));
      ReachChildren(q[0]);
      assert Bfs(q) == [q[0]] + Bfs(next);
      assert Reach(q) == GetCommits(q[0]) + Reach(q[1..]);
    }
  }

  /** The merge base the search below settles on. */
  ghost function SplitPoint(head: Commit, other: Commit): Option<Commit>
  {
    FirstWithId(Bfs([head]), Ids(GetCommits(other)))
  }

  /** Two histories that share a commit always have a split point. */
  lemma SplitPointExists(head: Commit, other: Commit, shared: Commit)
    requires shared in GetCommits(head) && shared in GetCommits(other)
    ensures SplitPoint(head, other).Some?
  {
    BfsVisitsReach([head]);
    assert Reach([head]) == GetCommits(head);
    var i :| 0 <= i < |Bfs([head])| && Bfs([head])[i] == shared;
  }

  /** lca: breadth-first from the active head `head`, parent enqueued before merge-in
      parent, returning the first dequeued commit whose id is the id of an ancestor of
      `other`. It is an ancestor of `head` that equals an ancestor of `other`, and it
      is missing only when the two histories share no id. */
  method Lca(head: Commit, other: Commit) returns (r: Option<Commit>)
    ensures r == SplitPoint(head, other)
    ensures r.Some? ==> r.value in GetCommits(head) && r.value.id in Ids(GetCommits(other))
    ensures r.None? <==> forall x :: x in GetCommits(head) ==> x.id !in Ids(GetCommits(other))
  {
    var commitIds := Ids(GetCommits(other));
    var queue := [head];
    r := None;
    while queue != []
      invariant FirstWithId(Bfs([head]), commitIds) == FirstWithId(Bfs(queue), commitIds)
      decreases QueueWeight(queue)
    {
      var commit := queue[0];
      QueueWeightStep(queue);
      assert Bfs(queue) == [commit] + Bfs(queue[1..] + Children(commit));
      if commit.id in commitIds {
        r := Some(commit);
        break;
      }
      queue := queue[1..] + Children(commit);
    }
    BfsVisitsReach([head]);
    assert Reach([head]) == GetCommits(head);
  }

  /** The first-parent chain from `c` back to a commit without a parent: what `log`
      prints, most recent first. */
  function FirstParents(c: Commit): (r: seq<Commit>)
    ensures r != [] && r[0] == c
  {
    [c] + (match c.parent case Some(p) => FirstParents(p) case None => [])
  }

  /** Each entry of the chain is the parent of the one before, the last has no parent,
      and every entry is an ancestor of `c`. */
  lemma {:induction false} FirstParentsChain(c: Commit)
    ensures forall i :: 0 <= i < |FirstParents(c)| - 1 ==>
      FirstParents(c)[i].parent == Some(FirstParents(c)[i + 1])
    ensures FirstParents(c)[|FirstParents(c)| - 1].parent.None?
    ensures forall x :: x in FirstParents(c) ==> x in GetCommits(c)
  {
    if c.parent.Some? {
      var p := c.parent.value;
      FirstParentsChain(p);
      assert FirstParents(c) == [c] + FirstParents(p);
    }
  }
}
