/** The repository of Main.java as a state machine: the working tree, the staging area,
    the branch directory with its `active` entry, the commit store and the `current`
    slot, with one method per command. Files and directories are maps; a command that
    prints a message and exits returns an error and leaves the state as it was. */
module Repository {
  import opened Wrappers
  import opened Blobs
  import opened Commits
  import opened History
  import opened Merging
  import opened TreeOps

  /** The entry of the branch directory that names the active branch. */
  const ActiveEntry: string := "active"

  /** What the `active` entry of the branch directory holds. */
  datatype ActiveSlot =
    | Named(name: string)          // a branch name, as init and checkout write it
    | Overwritten(commit: Commit)  // a serialised commit, as a fast-forward writes it
    | Deleted                      // nothing: `rm-branch active` deleted it
  {
    /** How reading the active head fails when the entry does not name a branch: a
        missing entry is reported and the command exits; a serialised commit read as a
        name leads to a branch file that does not exist, and the read throws. */
    function ReadError(): (e: Error)
      requires !Named?
      ensures e == NoActiveEntry <==> Deleted?
    {
      if Deleted? then NoActiveEntry else Corrupt
    }
  }

  /** The messages a command exits with. */
  datatype Error =
    | FileDoesNotExist     // add: the working tree has no such file
    | EmptyMessage         // commit: the message is empty
    | NoChanges            // commit: nothing is staged
    | NothingToRemove      // rm: the file is neither staged nor tracked
    | NotInCommit          // checkout: the commit does not track the file
    | NoSuchCommit         // no commit id starts with the given prefix
    | AlreadyOnBranch      // checkout of the active branch
    | NoSuchBranch         // the branch directory has no such entry
    | BranchExists         // branch: the entry already exists
    | CannotRemoveCurrent  // rm-branch of the active branch
    | UntrackedInTheWay    // an untracked file would be overwritten
    | NoCommitWithMessage  // find: no commit has the message
    | UncommittedChanges   // merge: the staging area is not empty
    | SelfMerge            // merge: the given head equals the active head
    | GivenIsAncestor      // merge: the split point is the given head
    | NoActiveEntry        // the `active` entry is missing
    | Corrupt              // an entry does not hold what is read from it (the source throws)

  datatype Outcome = Done | Failed(error: Error)

  datatype MergeOutcome = Merged(conflict: bool) | FastForwarded | MergeFailed(error: Error)

  /** The working tree after one action of a merge plan. */
  function TreeAfter(tree: map<string, Bytes>, n: string, a: Action): map<string, Bytes>
  {
    if a.Writes() then tree[n := a.Written()] else if a.Remove? then tree - {n} else tree
  }

  /** The staged additions after one action: `add` stages a written file unless its blob
      equals the saved commit's, `rm` unstages a removed one. */
  function AdditionsAfter(additions: map<string, Blob>, n: string, a: Action, saved: Commit): map<string, Blob>
  {
    if a.Writes() then
      (if Blob(a.Written()).Equals(saved.GetBlob(n)) then additions else additions[n := Blob(a.Written())])
    else if a.Remove? then additions - {n}
    else additions
  }

  /** The staged removals after one action. */
  function RemovalsAfter(removals: set<string>, n: string, a: Action): set<string>
  {
    if a.Writes() then removals - {n} else if a.Remove? then removals + {n} else removals
  }

  lemma TreeStep(tree: map<string, Bytes>, w: map<string, Bytes>, r: set<string>, n: string, a: Action)
    requires n !in w && n !in r
    ensures TreeAfter((tree + w) - r, n, a)
         == (tree + (if a.Writes() then w[n := a.Written()] else w)) - (if a.Remove? then r + {n} else r)
  {
    if a.Writes() {
      assert ((tree + w) - r)[n := a.Written()] == (tree + w[n := a.Written()]) - r;
    } else if a.Remove? {
      assert ((tree + w) - r) - {n} == (tree + w) - (r + {n});
    }
  }

  lemma AdditionsStep(additions: map<string, Blob>, r: set<string>, st: map<string, Blob>,
                      n: string, a: Action, saved: Commit)
    requires n !in st && n !in r
    ensures AdditionsAfter((additions - r) + st, n, a, saved)
         == (additions - (if a.Remove? then r + {n} else r))
            + (if a.Writes() && !Blob(a.Written()).Equals(saved.GetBlob(n))
               then st[n := Blob(a.Written())] else st)
  {
    if a.Writes() && !Blob(a.Written()).Equals(saved.GetBlob(n)) {
      assert ((additions - r) + st)[n := Blob(a.Written())] == (additions - r) + st[n := Blob(a.Written())];
    } else if a.Remove? {
      assert ((additions - r) + st) - {n} == (additions - (r + {n})) + st;
    }
  }

  lemma RemovalsStep(removals: set<string>, w: set<string>, r: set<string>, n: string, a: Action)
    requires n !in w && n !in r
    ensures RemovalsAfter((removals - w) + r, n, a)
         == (removals - (if a.Writes() then w + {n} else w)) + (if a.Remove? then r + {n} else r)
  {
  }

  /** Staging one more action of a plan, file by file, ends where the plan summaries
      say: the order in which a merge visits the files does not matter. */
  lemma ApplyStep(tree: map<string, Bytes>, additions: map<string, Blob>, removals: set<string>,
                  done: map<string, Action>, n: string, a: Action, saved: Commit)
    requires n !in done
    ensures TreeAfter((tree + WriteSet(done)) - RemoveSet(done), n, a)
         == (tree + WriteSet(done[n := a])) - RemoveSet(done[n := a])
    ensures AdditionsAfter((additions - RemoveSet(done)) + StagedBy(done, saved), n, a, saved)
         == (additions - RemoveSet(done[n := a])) + StagedBy(done[n := a], saved)
    ensures RemovalsAfter((removals - WriteSet(done).Keys) + RemoveSet(done), n, a)
         == (removals - WriteSet(done[n := a]).Keys) + RemoveSet(done[n := a])
  {
    WriteSetExtend(done, n, a);
    RemoveSetExtend(done, n, a);
    StagedByExtend(done, n, a, saved);
    var w, r, st := WriteSet(done), RemoveSet(done), StagedBy(done, saved);
    assert n !in w && n !in r && n !in st;
    TreeStep(tree, w, r, n, a);
    AdditionsStep(additions, r, st, n, a, saved);
    RemovalsStep(removals, w.Keys, r, n, a);
    if a.Writes() {
      assert WriteSet(done[n := a]).Keys == w.Keys + {n};
    }
  }

  /** Staging the split point's plan and then the new files' plan, from an empty
      staging area, sums up as the two plans' writes, additions and removals. */
  lemma ComposePlans(tree: map<string, Bytes>, p1: map<string, Action>, p2: map<string, Action>,
                     saved: Commit)
    requires p1.Keys !! p2.Keys
    requires forall n :: n in p2 ==> p2[n].Adopt?
    ensures RemoveSet(p2) == {}
    ensures (((tree + WriteSet(p1)) - RemoveSet(p1)) + WriteSet(p2)) - RemoveSet(p2)
         == ((tree + WriteSet(p1)) - RemoveSet(p1)) + WriteSet(p2)
    ensures (((map[] - RemoveSet(p1)) + StagedBy(p1, saved)) - RemoveSet(p2)) + StagedBy(p2, saved)
         == StagedBy(p1, saved) + StagedBy(p2, saved)
    ensures ((({} - WriteSet(p1).Keys) + RemoveSet(p1)) - WriteSet(p2).Keys) + RemoveSet(p2)
         == RemoveSet(p1)
  {
    assert RemoveSet(p2) == {};
    assert WriteSet(p2).Keys !! RemoveSet(p1);
  }

  /** Taking one more file of a plan out of the files still to visit. */
  lemma PlanTake(plan: map<string, Action>, todo: set<string>, n: string)
    requires n in todo && todo <= plan.Keys
    ensures (plan - todo)[n := plan[n]] == plan - (todo - {n})
  {
  }

  /** Every branch head, every stored commit and the saved one descend from `root`, and
      the store is keyed by id. */
  ghost predicate Rooted(root: Commit, branches: map<string, Commit>, commits: map<string, Commit>,
                         current: Commit)
  {
    && (forall b :: b in branches ==> root in GetCommits(branches[b]))
    && (forall id :: id in commits ==> commits[id].id == id && root in GetCommits(commits[id]))
    && root in GetCommits(current)
  }

  class Repo {
    /** The working directory: file name to contents. */
    var tree: map<string, Bytes>
    /** Staged additions (`.gitlet/Stage/Addition`). */
    var additions: map<string, Blob>
    /** Staged removals (`.gitlet/Stage/Removal`). */
    var removals: set<string>
    /** The branch heads (`.gitlet/branch`, without its `active` entry). */
    var branches: map<string, Commit>
    /** The `active` entry of the branch directory. */
    var active: ActiveSlot
    /** The commit store, keyed by id. */
    var commits: map<string, Commit>
    /** The `current` slot: the commit saved last, which `add` and `checkout -- f`
        read. It is not always the active head. */
    var current: Commit
    /** SHA-1 of a serialised commit. */
    const sha1: Commit -> string
    /** The commit init made. */
    ghost const root: Commit

    /** Every branch head, the active one and every stored commit descend from the
        initial commit; the store is keyed by id; no name is staged both ways. */
    ghost predicate Valid()
      reads this
    {
      && ActiveEntry !in branches
      && (active.Named? ==> active.name in branches)
      && additions.Keys !! removals
      && Rooted(root, branches, commits, current)
    }

    /** init: the initial commit, saved, and `master` pointing at it as the active branch. */
    constructor Init(workTree: map<string, Bytes>, digest: Commit -> string)
      ensures Valid()
      ensures sha1 == digest
      ensures current == NewCommit("initial commit", map[], None, true, None, 0, digest)
      ensures root == current
      ensures commits == map[current.id := current]
      ensures branches == map["master" := current] && active == Named("master")
      ensures tree == workTree && additions == map[] && removals == {}
    {
      var c := NewCommit("initial commit", map[], None, true, None, 0, digest);
      tree := workTree;
      additions := map[];
      removals := {};
      commits := map[c.id := c];
      current := c;
      branches := map["master" := c];
      active := Named("master");
      sha1 := digest;
      root := c;
    }

    /** getActive: the head of the active branch, when the `active` entry names one. */
    function ActiveHead(): (r: Option<Commit>)
      reads this
      requires Valid()
      ensures r.Some? <==> active.Named?
      ensures r.Some? ==> r.value == branches[active.name]
    {
      if active.Named? then Some(branches[active.name]) else None
    }

    /** The names the branch directory lists. */
    function BranchListing(): (s: set<string>)
      reads this
      ensures forall n :: n in s <==> n in branches || (n == ActiveEntry && !active.Deleted?)
    {
      branches.Keys + (if active.Deleted? then {} else {ActiveEntry})
    }

    /** getBranch: the commit stored in a file of the branch directory. The `active`
        entry holds a commit only after a fast-forward overwrote it; while it names a
        branch, reading it as a commit fails. */
    function GetBranch(name: string): (r: Result<Commit, Error>)
      reads this
      requires Valid()
      ensures r.Ok? <==> name in branches || (name == ActiveEntry && active.Overwritten?)
      ensures name in branches ==> r == Ok(branches[name])
      ensures name == ActiveEntry && active.Overwritten? ==> r == Ok(active.commit)
      ensures r.Err? ==> r.error == (if name == ActiveEntry && active.Named? then Corrupt else NoSuchBranch)
    {
      if name == ActiveEntry then
        match active
        case Named(_) => Err(Corrupt)
        case Overwritten(c) => Ok(c)
        case Deleted => Err(NoSuchBranch)
      else if name in branches then Ok(branches[name])
      else Err(NoSuchBranch)
    }

    /** The listing holds exactly the ids of the commit store. */
    ghost predicate ListsStore(listing: seq<string>)
      reads this
    {
      forall id :: id in listing <==> id in commits
    }

    /** add: clears a pending removal of the file and stages its contents unless they
        equal the `current` commit's blob for it; an unchanged file leaves the
        additions as they were. */
    method Add(name: string) returns (res: Outcome)
      requires Valid()
      modifies this
      ensures Valid()
      ensures name !in old(tree) ==> res == Failed(FileDoesNotExist) && unchanged(this)
      ensures name in old(tree) ==>
        var blob := Blob(old(tree)[name]);
        && res == Done
        && removals == old(removals) - {name}
        && additions == (if blob.Equals(old(current).GetBlob(name)) then old(additions)
                         else old(additions)[name := blob])
        && tree == old(tree) && branches == old(branches) && active == old(active)
        && commits == old(commits) && current == old(current)
    {
      if name !in tree {
        return Failed(FileDoesNotExist);
      }
      var blob := Blob(tree[name]);
      if name in removals {
        removals := removals - {name};
      }
      if !blob.Equals(current.GetBlob(name)) {
        additions := additions[name := blob];
      }
      res := Done;
    }

    /** rm: fails when the file is neither staged nor tracked by the active head;
        otherwise unstages it and, when the head tracks it, stages its removal and
        deletes it from the working tree. */
    method Rm(name: string) returns (res: Outcome)
      requires Valid()
      modifies this
      ensures Valid()
      ensures !old(active).Named? ==> res == Failed(old(active).ReadError()) && unchanged(this)
      ensures old(active).Named? ==>
        var head := old(branches)[old(active).name];
        && (name !in old(additions) && name !in head.snapshot ==>
              res == Failed(NothingToRemove) && unchanged(this))
        && (name in old(additions) || name in head.snapshot ==>
              && res == Done
              && additions == old(additions) - {name}
              && removals == (if name in head.snapshot then old(removals) + {name} else old(removals))
              && tree == (if name in head.snapshot then old(tree) - {name} else old(tree))
              && branches == old(branches) && active == old(active)
              && commits == old(commits) && current == old(current))
    {
      if !active.Named? {
        return Failed(active.ReadError());
      }
      var reference := branches[active.name].snapshot;
      if name !in additions && name !in reference {
        return Failed(NothingToRemove);
      }
      if name in additions {
        additions := additions - {name};
      }
      if name in reference {
        removals := removals + {name};
        tree := tree - {name};
      }
      res := Done;
    }

    /** saveCommit: stores the commit under its id and makes it the `current` one. */
    method SaveCommit(c: Commit)
      requires Valid() && root in GetCommits(c)
      modifies this
      ensures Valid()
      ensures commits == old(commits)[c.id := c] && current == c
      ensures tree == old(tree) && additions == old(additions) && removals == old(removals)
      ensures branches == old(branches) && active == old(active)
    {
      commits := commits[c.id := c];
      current := c;
    }

    /** clearStage: deletes every staged removal, then every staged addition. */
    method ClearStage()
      requires Valid()
      modifies this
      ensures Valid()
      ensures additions == map[] && removals == {}
      ensures tree == old(tree) && branches == old(branches) && active == old(active)
      ensures commits == old(commits) && current == old(current)
    {
      while removals != {}
        invariant Valid()
        invariant tree == old(tree) && branches == old(branches) && active == old(active)
        invariant commits == old(commits) && current == old(current)
        decreases |removals|
      {
        var s :| s in removals;
        removals := removals - {s};
      }
      while additions != map[]
        invariant Valid() && removals == {}
        invariant tree == old(tree) && branches == old(branches) && active == old(active)
        invariant commits == old(commits) && current == old(current)
        decreases |additions|
      {
        var s :| s in additions;
        additions := additions - {s};
      }
    }

    /** The end of commit and merge: the active head's snapshot minus the staged
        removals, overwritten by the staged additions, becomes a commit whose parent is
        the head; it is saved, the staging area is emptied and the active branch moves
        to it. */
    method CommitStaged(message: string, mergeIn: Option<Commit>, now: int) returns (c: Commit)
      requires Valid() && active.Named?
      modifies this
      ensures Valid()
      ensures var head := old(branches)[old(active).name];
        c == NewCommit(message, (head.snapshot - old(removals)) + old(additions),
                       Some(head), false, mergeIn, now, sha1)
      ensures current == c && commits == old(commits)[c.id := c]
      ensures branches == old(branches)[old(active).name := c] && active == old(active)
      ensures additions == map[] && removals == {} && tree == old(tree)
    {
      var head := branches[active.name];
      var reference := RemoveNames(head.snapshot, removals);
      reference := PutAll(reference, additions);
      c := NewCommit(message, reference, Some(head), false, mergeIn, now, sha1);
      SaveCommit(c);
      ClearStage();
      branches := branches[active.name := c];
    }

    /** commit: fails on an empty message or an empty staging area; otherwise records
        the staged changes on top of the active head and advances the active branch. */
    method Commit(message: string, now: int) returns (res: Outcome)
      requires Valid()
      modifies this
      ensures Valid()
      ensures message == "" ==> res == Failed(EmptyMessage) && unchanged(this)
      ensures message != "" && old(additions) == map[] && old(removals) == {} ==>
        res == Failed(NoChanges) && unchanged(this)
      ensures message != "" && (old(additions) != map[] || old(removals) != {}) && !old(active).Named? ==>
        res == Failed(old(active).ReadError()) && unchanged(this)
      ensures message != "" && (old(additions) != map[] || old(removals) != {}) && old(active).Named? ==>
        var head := old(branches)[old(active).name];
        var c := NewCommit(message, (head.snapshot - old(removals)) + old(additions),
                           Some(head), false, None, now, sha1);
        && res == Done
        && current == c && commits == old(commits)[c.id := c]
        && branches == old(branches)[old(active).name := c] && active == old(active)
        && additions == map[] && removals == {} && tree == old(tree)
    {
      if message == "" {
        return Failed(EmptyMessage);
      }
      if additions == map[] && removals == {} {
        return Failed(NoChanges);
      }
      if !active.Named? {
        return Failed(active.ReadError());
      }
      var c := CommitStaged(message, None, now);
      res := Done;
    }

    /** checkout -- f: writes the `current` commit's version of the file. */
    method CheckoutFile(name: string) returns (res: Outcome)
      requires Valid()
      modifies this
      ensures Valid()
      ensures name !in old(current).snapshot ==> res == Failed(NotInCommit) && unchanged(this)
      ensures name in old(current).snapshot ==>
        && res == Done && tree == old(tree)[name := old(current).snapshot[name].content]
        && additions == old(additions) && removals == old(removals) && branches == old(branches)
        && active == old(active) && commits == old(commits) && current == old(current)
    {
      if name !in current.snapshot {
        return Failed(NotInCommit);
      }
      tree := tree[name := current.snapshot[name].content];
      res := Done;
    }

    /** checkout <id> -- f: writes the file as the first commit whose id starts with the
        prefix records it. */
    method CheckoutFileAt(prefix: string, name: string, listing: seq<string>) returns (res: Outcome)
      requires Valid() && ListsStore(listing)
      requires forall i :: 0 <= i < |listing| ==> |prefix| <= |listing[i]|
      modifies this
      ensures Valid()
      ensures FirstWithPrefix(listing, prefix).None? ==> res == Failed(NoSuchCommit) && unchanged(this)
      ensures FirstWithPrefix(listing, prefix).Some? ==>
        var c := old(commits)[FirstWithPrefix(listing, prefix).value];
        && (name !in c.snapshot ==> res == Failed(NotInCommit) && unchanged(this))
        && (name in c.snapshot ==>
              && res == Done && tree == old(tree)[name := c.snapshot[name].content]
              && additions == old(additions) && removals == old(removals)
              && branches == old(branches) && active == old(active)
              && commits == old(commits) && current == old(current))
    {
      var target := FindByPrefix(listing, prefix);
      if target.None? {
        return Failed(NoSuchCommit);
      }
      var c := commits[target.value];
      if name !in c.snapshot {
        return Failed(NotInCommit);
      }
      tree := tree[name := c.snapshot[name].content];
      res := Done;
    }

    /** checkout <branch>: refuses the active branch, a missing branch and an untracked
        file in the way of the target; otherwise writes the target head's files, deletes
        the files only the old head tracks, and names the branch active last. The
        staging area and the `current` slot are left alone. */
    method CheckoutBranch(name: string) returns (res: Outcome)
      requires Valid()
      modifies this
      ensures Valid()
      ensures old(active).Deleted? ==> res == Failed(NoActiveEntry) && unchanged(this)
      ensures old(active) == Named(name) ==> res == Failed(AlreadyOnBranch) && unchanged(this)
      ensures !old(active).Deleted? && old(active) != Named(name) && name !in old(BranchListing()) ==>
        res == Failed(NoSuchBranch) && unchanged(this)
      ensures old(active).Overwritten? && name in old(BranchListing()) ==>
        res == Failed(Corrupt) && unchanged(this)
      ensures old(active).Named? && old(active).name != name && name == ActiveEntry ==>
        res == Failed(Corrupt) && unchanged(this)
      ensures old(active).Named? && old(active).name != name && name in old(branches) ==>
        var head := old(branches)[old(active).name];
        var target := old(branches)[name];
        && ((exists n :: n in target.snapshot && n !in head.snapshot && n in old(tree)) ==>
              res == Failed(UntrackedInTheWay) && unchanged(this))
        && (!(exists n :: n in target.snapshot && n !in head.snapshot && n in old(tree)) ==>
              && res == Done
              && tree == (old(tree) + Contents(target.snapshot)) - (head.snapshot.Keys - target.snapshot.Keys)
              && active == Named(name)
              && additions == old(additions) && removals == old(removals)
              && branches == old(branches) && commits == old(commits) && current == old(current))
    {
      if active.Deleted? {
        return Failed(NoActiveEntry);
      }
      if active.Named? && active.name == name {
        return Failed(AlreadyOnBranch);
      }
      if name !in BranchListing() {
        return Failed(NoSuchBranch);
      }
      if !active.Named? || name == ActiveEntry {
        return Failed(Corrupt);
      }
      var head := branches[active.name];
      var target := branches[name];
      var blocked := Obstructed(target.snapshot.Keys, head.snapshot.Keys, tree);
      if blocked {
        return Failed(UntrackedInTheWay);
      }
      tree := WriteSnapshot(tree, target.snapshot);
      tree := DeleteDropped(tree, head.snapshot.Keys, target.snapshot);
      active := Named(name);
      res := Done;
    }

    /** branch: fails when the name is listed; otherwise adds exactly one entry, the
        active head. */
    method Branch(name: string) returns (res: Outcome)
      requires Valid()
      modifies this
      ensures Valid()
      ensures name in old(BranchListing()) ==> res == Failed(BranchExists) && unchanged(this)
      ensures name !in old(BranchListing()) && !old(active).Named? ==>
        res == Failed(old(active).ReadError()) && unchanged(this)
      ensures name !in old(BranchListing()) && old(active).Named? ==>
        && res == Done
        && branches == old(branches)[name := old(branches)[old(active).name]]
        && tree == old(tree) && additions == old(additions) && removals == old(removals)
        && active == old(active) && commits == old(commits) && current == old(current)
    {
      if name in BranchListing() {
        return Failed(BranchExists);
      }
      if !active.Named? {
        return Failed(active.ReadError());
      }
      branches := branches[name := branches[active.name]];
      res := Done;
    }

    /** rm-branch: fails when the name is not listed or is the active branch; otherwise
        deletes only that entry, which may be the `active` entry itself. */
    method RmBranch(name: string) returns (res: Outcome)
      requires Valid()
      modifies this
      ensures Valid()
      ensures name !in old(BranchListing()) ==> res == Failed(NoSuchBranch) && unchanged(this)
      ensures name in old(BranchListing()) && old(active).Deleted? ==>
        res == Failed(NoActiveEntry) && unchanged(this)
      ensures name in old(BranchListing()) && old(active) == Named(name) ==>
        res == Failed(CannotRemoveCurrent) && unchanged(this)
      ensures name in old(BranchListing()) && !old(active).Deleted? && old(active) != Named(name) ==>
        && res == Done
        && branches == old(branches) - {name}
        && active == (if name == ActiveEntry then Deleted else old(active))
        && tree == old(tree) && additions == old(additions) && removals == old(removals)
        && commits == old(commits) && current == old(current)
    {
      if name !in BranchListing() {
        return Failed(NoSuchBranch);
      }
      if active.Deleted? {
        return Failed(NoActiveEntry);
      }
      if active.Named? && active.name == name {
        return Failed(CannotRemoveCurrent);
      }
      if name == ActiveEntry {
        active := Deleted;
      } else {
        branches := branches - {name};
      }
      res := Done;
    }

    /** reset: resolves the first id with the prefix, refuses an untracked file in the
        way, empties the staging area, checks out every file of the commit, deletes the
        files only the old head tracks and moves the active branch to the commit. */
    method Reset(prefix: string, listing: seq<string>) returns (res: Outcome)
      requires Valid() && ListsStore(listing)
      requires forall i :: 0 <= i < |listing| ==> |prefix| <= |listing[i]|
      modifies this
      ensures Valid()
      ensures FirstWithPrefix(listing, prefix).None? ==> res == Failed(NoSuchCommit) && unchanged(this)
      ensures FirstWithPrefix(listing, prefix).Some? && !old(active).Named? ==>
        res == Failed(old(active).ReadError()) && unchanged(this)
      ensures FirstWithPrefix(listing, prefix).Some? && old(active).Named? ==>
        var target := old(commits)[FirstWithPrefix(listing, prefix).value];
        var head := old(branches)[old(active).name];
        && ((exists n :: n in target.snapshot && n !in head.snapshot && n in old(tree)) ==>
              res == Failed(UntrackedInTheWay) && unchanged(this))
        && (!(exists n :: n in target.snapshot && n !in head.snapshot && n in old(tree)) ==>
              && res == Done
              && tree == (old(tree) + Contents(target.snapshot)) - (head.snapshot.Keys - target.snapshot.Keys)
              && additions == map[] && removals == {}
              && branches == old(branches)[old(active).name := target]
              && active == old(active) && commits == old(commits) && current == old(current))
    {
      var id := FindByPrefix(listing, prefix);
      if id.None? {
        return Failed(NoSuchCommit);
      }
      var target := commits[id.value];
      if !active.Named? {
        return Failed(active.ReadError());
      }
      var head := branches[active.name];
      var blocked := Obstructed(target.snapshot.Keys, head.snapshot.Keys, tree);
      if blocked {
        return Failed(UntrackedInTheWay);
      }
      ClearStage();
      tree := WriteSnapshot(tree, target.snapshot);
      tree := DeleteDropped(tree, head.snapshot.Keys, target.snapshot);
      branches := branches[active.name := target];
      res := Done;
    }

    /** log: the active head's first-parent chain, most recent first. */
    method Log() returns (r: Result<seq<Commit>, Error>)
      requires Valid()
      ensures !active.Named? ==> r == Err(active.ReadError())
      ensures active.Named? ==> r == Ok(FirstParents(branches[active.name]))
    {
      if !active.Named? {
        return Err(active.ReadError());
      }
      var c := branches[active.name];
      var shown: seq<Commit> := [];
      while c.parent.Some?
        invariant FirstParents(branches[active.name]) == shown + FirstParents(c)
        decreases c
      {
        assert FirstParents(c) == [c] + FirstParents(c.parent.value);
        shown := shown + [c];
        c := c.parent.value;
      }
      assert FirstParents(c) == [c];
      r := Ok(shown + [c]);
    }

    /** find: the ids of the stored commits with the message, in listing order. */
    method Find(message: string, listing: seq<string>) returns (r: Result<seq<string>, Error>)
      requires Valid() && ListsStore(listing)
      ensures r.Ok? || r == Err(NoCommitWithMessage)
      ensures r.Ok? ==> r.value == Matching(commits, listing, message)
      ensures r.Ok? ==> forall id :: id in r.value <==> id in commits && commits[id].message == message
      ensures r == Err(NoCommitWithMessage) <==> forall id :: id in commits ==> commits[id].message != message
    {
      var found := FindByMessage(commits, listing, message);
      if found.None? {
        return Err(NoCommitWithMessage);
      }
      r := Ok(found.value);
    }

    /** One action of a merge plan: an adopted or conflicting file is written to the
        working tree and added; a removed file, which the active head tracks, is
        removed with rm. */
    method Stage(n: string, a: Action)
      requires Valid() && active.Named?
      requires a.Remove? ==> n in branches[active.name].snapshot
      modifies this
      ensures Valid()
      ensures tree == TreeAfter(old(tree), n, a)
      ensures additions == AdditionsAfter(old(additions), n, a, old(current))
      ensures removals == RemovalsAfter(old(removals), n, a)
      ensures branches == old(branches) && active == old(active)
      ensures commits == old(commits) && current == old(current)
    {
      match a {
        case Adopt(b) =>
          tree := tree[n := b.content];
          var _ := Add(n);
        case Conflict(t) =>
          tree := tree[n := t];
          var _ := Add(n);
        case Remove =>
          var _ := Rm(n);
        case Keep =>
      }
    }

    /** Stage, with the state described by the plan summaries before and after. */
    method StageNext(ghost done: map<string, Action>, n: string, a: Action,
                     ghost tree0: map<string, Bytes>, ghost additions0: map<string, Blob>,
                     ghost removals0: set<string>)
      requires Valid() && active.Named? && n !in done
      requires a.Remove? ==> n in branches[active.name].snapshot
      requires Summarised(done, tree0, additions0, removals0, current)
      modifies this
      ensures Valid()
      ensures Summarised(done[n := a], tree0, additions0, removals0, current)
      ensures branches == old(branches) && active == old(active)
      ensures commits == old(commits) && current == old(current)
    {
      ApplyStep(tree0, additions0, removals0, done, n, a, current);
      Stage(n, a);
    }

    /** The tree and staging area after staging the actions of `done`, starting from the
        given tree and staging area. */
    ghost predicate Summarised(done: map<string, Action>, tree0: map<string, Bytes>,
                               additions0: map<string, Blob>, removals0: set<string>, saved: Commit)
      reads this
    {
      && tree == (tree0 + WriteSet(done)) - RemoveSet(done)
      && additions == (additions0 - RemoveSet(done)) + StagedBy(done, saved)
      && removals == (removals0 - WriteSet(done).Keys) + RemoveSet(done)
    }

    /** The staging a merge plan performs, one file at a time as mergeAddRm and merge
        do: an adopted or conflicting file is written and added, a removed file is
        removed with rm. Reports whether a conflict was written. */
    method Apply(plan: map<string, Action>) returns (hit: bool)
      requires Valid() && active.Named?
      requires forall n :: n in plan && plan[n].Remove? ==> n in branches[active.name].snapshot
      modifies this
      ensures Valid()
      ensures Summarised(plan, old(tree), old(additions), old(removals), old(current))
      ensures hit == HasConflict(plan)
      ensures branches == old(branches) && active == old(active)
      ensures commits == old(commits) && current == old(current)
    {
      var todo := plan.Keys;
      ghost var done: map<string, Action> := map[];
      hit := false;
      while todo != {}
        invariant Valid() && todo <= plan.Keys
        invariant done == plan - todo
        invariant Summarised(done, old(tree), old(additions), old(removals), old(current))
        invariant hit == HasConflict(done)
        invariant branches == old(branches) && active == old(active)
        invariant commits == old(commits) && current == old(current)
        decreases |todo|
      {
        var n :| n in todo;
        var a := plan[n];
        HasConflictExtend(done, n, a);
        StageNext(done, n, a, old(tree), old(additions), old(removals));
        if a.Conflict? {
          hit := true;
        }
        PlanTake(plan, todo, n);
        done := done[n := a];
        todo := todo - {n};
      }
      assert done == plan;
    }

    /** checkMerge, after the split point is known: refuses a non-empty staging area,
        a merge with the active head itself and a given head that is the split point;
        fast-forwards when the split point is the active head, writing the given head
        into the `active` entry; refuses an untracked file the given head would
        overwrite. `None` lets the merge go on. */
    method CheckMerge(head: Commit, given: Commit, split: Commit) returns (stop: Option<MergeOutcome>)
      requires Valid() && active.Named? && head == branches[active.name]
      modifies this
      ensures Valid()
      ensures old(additions) != map[] || old(removals) != {} ==>
        stop == Some(MergeFailed(UncommittedChanges)) && unchanged(this)
      ensures old(additions) == map[] && old(removals) == {} && head.id == given.id ==>
        stop == Some(MergeFailed(SelfMerge)) && unchanged(this)
      ensures old(additions) == map[] && old(removals) == {} && head.id != given.id
              && split.id == given.id ==>
        stop == Some(MergeFailed(GivenIsAncestor)) && unchanged(this)
      ensures old(additions) == map[] && old(removals) == {} && head.id != given.id
              && split.id != given.id && split.id == head.id ==>
        && stop == Some(FastForwarded) && active == Overwritten(given)
        && tree == (old(tree) + Contents(given.snapshot)) - (head.snapshot.Keys - given.snapshot.Keys)
        && additions == old(additions) && removals == old(removals)
        && branches == old(branches) && commits == old(commits) && current == old(current)
      ensures old(additions) == map[] && old(removals) == {} && head.id != given.id
              && split.id != given.id && split.id != head.id ==>
        && (stop.Some? <==> exists n :: n in given.snapshot && n !in head.snapshot && n in old(tree))
        && (stop.Some? ==> stop == Some(MergeFailed(UntrackedInTheWay)))
        && unchanged(this)
      ensures stop.None? ==> unchanged(this)
    {
      if additions != map[] || removals != {} {
        return Some(MergeFailed(UncommittedChanges));
      }
      if head.Equals(Some(given)) {
        return Some(MergeFailed(SelfMerge));
      }
      if split.Equals(Some(given)) {
        return Some(MergeFailed(GivenIsAncestor));
      }
      if split.Equals(Some(head)) {
        active := Overwritten(given);
        tree := WriteSnapshot(tree, given.snapshot);
        tree := DeleteDropped(tree, head.snapshot.Keys, given.snapshot);
        return Some(FastForwarded);
      }
      var blocked := Obstructed(given.snapshot.Keys, head.snapshot.Keys, tree);
      if blocked {
        return Some(MergeFailed(UntrackedInTheWay));
      }
      stop := None;
    }

    /** The second half of merge: mergeAddRm's actions for the split point's files,
        then the given branch's new files, then the merge commit. */
    method MergeStaged(branch: string, given: Commit, split: Commit, now: int) returns (conflict: bool)
      requires Valid() && active.Named? && additions == map[] && removals == {}
      modifies this
      ensures Valid()
      ensures var head := old(branches)[old(active).name];
        var p1 := SplitPlan(split, head, given);
        var p2 := NewFilePlan(split, given);
        var c := NewCommit("Merged " + branch + " into " + old(active).name + ".",
                           MergedSnapshot(split, head, given, old(current)),
                           Some(head), false, Some(given), now, sha1);
        && conflict == HasConflict(p1)
        && tree == ((old(tree) + WriteSet(p1)) - RemoveSet(p1)) + WriteSet(p2)
        && additions == map[] && removals == {}
        && branches == old(branches)[old(active).name := c] && active == old(active)
        && current == c && commits == old(commits)[c.id := c]
    {
      var head := branches[active.name];
      var p1 := SplitPlan(split, head, given);
      var p2 := NewFilePlan(split, given);
      forall n | n in p1 && p1[n].Remove?
        ensures n in head.snapshot
      {
        DecideRemoveTracked(split, head, given, n);
      }
      ComposePlans(tree, p1, p2, current);
      conflict := Apply(p1);
      var _ := Apply(p2);
      var message := "Merged " + branch + " into " + active.name + ".";
      var c := CommitStaged(message, Some(given), now);
    }

    /** merge: reads the active and the given head, finds their split point (which
        always exists, since both descend from the initial commit), runs checkMerge,
        stages the decision table's actions for the split point's files and adopts the
        given branch's new files, then commits with the given head as second parent. */
    method Merge(branch: string, now: int) returns (res: MergeOutcome)
      requires Valid()
      modifies this
      ensures Valid()
      ensures !old(active).Named? ==> res == MergeFailed(old(active).ReadError()) && unchanged(this)
      ensures old(active).Named? && branch !in old(branches) ==>
        res == MergeFailed(if branch == ActiveEntry then Corrupt else NoSuchBranch) && unchanged(this)
      ensures old(active).Named? && branch in old(branches) ==>
        SplitPoint(old(branches)[old(active).name], old(branches)[branch]).Some?
      ensures old(active).Named? && branch in old(branches) ==>
        var head := old(branches)[old(active).name];
        var given := old(branches)[branch];
        var split := SplitPoint(head, given).value;
        var staged := old(additions) == map[] && old(removals) == {};
        && (!staged ==> res == MergeFailed(UncommittedChanges) && unchanged(this))
        && (staged && head.id == given.id ==> res == MergeFailed(SelfMerge) && unchanged(this))
        && (staged && head.id != given.id && split.id == given.id ==>
              res == MergeFailed(GivenIsAncestor) && unchanged(this))
        && (staged && head.id != given.id && split.id != given.id && split.id == head.id ==>
              && res == FastForwarded && active == Overwritten(given)
              && tree == (old(tree) + Contents(given.snapshot)) - (head.snapshot.Keys - given.snapshot.Keys)
              && additions == old(additions) && removals == old(removals)
              && branches == old(branches) && commits == old(commits) && current == old(current))
        && (staged && head.id != given.id && split.id != given.id && split.id != head.id
            && (exists n :: n in given.snapshot && n !in head.snapshot && n in old(tree)) ==>
              res == MergeFailed(UntrackedInTheWay) && unchanged(this))
        && (staged && head.id != given.id && split.id != given.id && split.id != head.id
            && !(exists n :: n in given.snapshot && n !in head.snapshot && n in old(tree)) ==>
              var p1 := SplitPlan(split, head, given);
              var p2 := NewFilePlan(split, given);
              var c := NewCommit("Merged " + branch + " into " + old(active).name + ".",
                                 MergedSnapshot(split, head, given, old(current)),
                                 Some(head), false, Some(given), now, sha1);
              && res == Merged(HasConflict(p1))
              && tree == ((old(tree) + WriteSet(p1)) - RemoveSet(p1)) + WriteSet(p2)
              && additions == map[] && removals == {}
              && branches == old(branches)[old(active).name := c] && active == old(active)
              && current == c && commits == old(commits)[c.id := c])
    {
      if !active.Named? {
        return MergeFailed(active.ReadError());
      }
      var head := branches[active.name];
      var got := GetBranch(branch);
      if got.Err? {
        return MergeFailed(got.error);
      }
      var given := got.value;
      SplitPointExists(head, given, root);
      var lca := Lca(head, given);
      var split := lca.value;
      var stop := CheckMerge(head, given, split);
      if stop.Some? {
        return stop.value;
      }
      var conflict := MergeStaged(branch, given, split, now);
      res := Merged(conflict);
    }
  }
}
