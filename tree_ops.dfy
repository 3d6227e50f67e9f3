/** The loops Main.java runs over lists of file names and commit ids, each as a method
    over values: writing a snapshot into the working tree, deleting files a target does
    not track, looking for an untracked file in the way, editing a snapshot, and
    resolving a commit id prefix. */
module TreeOps {
  import opened Wrappers
  import opened Blobs
  import opened Commits

  /** The file contents a snapshot records. */
  function Contents(snap: map<string, Blob>): (t: map<string, Bytes>)
    ensures t.Keys == snap.Keys
    ensures forall n :: n in snap ==> t[n] == snap[n].content
  {
    map n | n in snap :: snap[n].content
  }

  /** Writes every blob of `snap` into the working tree `tree`, overwriting. */
  method WriteSnapshot(tree: map<string, Bytes>, snap: map<string, Blob>)
    returns (t: map<string, Bytes>)
    ensures t == tree + Contents(snap)
  {
    t := tree;
    var todo := snap.Keys;
    while todo != {}
      invariant todo <= snap.Keys
      invariant t == tree + Contents(snap - todo)
      decreases todo
    {
      var s :| s in todo;
      t := t[s := snap[s].content];
      todo := todo - {s};
    }
    assert snap - {} == snap;
  }

  /** Deletes each file tracked by `was` that `target` does not track. */
  method DeleteDropped(tree: map<string, Bytes>, was: set<string>, target: map<string, Blob>)
    returns (t: map<string, Bytes>)
    ensures t == tree - (was - target.Keys)
  {
    t := tree;
    var todo := was;
    while todo != {}
      invariant todo <= was
      invariant t == tree - (was - todo - target.Keys)
      decreases todo
    {
      var s :| s in todo;
      if s !in target {
        t := t - {s};
      }
      todo := todo - {s};
    }
  }

  /** The untracked-file check: is some file of `incoming` that `tracked` lacks already
      present in the working tree? */
  method Obstructed(incoming: set<string>, tracked: set<string>, tree: map<string, Bytes>)
    returns (blocked: bool)
    ensures blocked <==> exists n :: n in incoming && n !in tracked && n in tree
  {
    var untracked: set<string> := {};
    var todo := incoming;
    while todo != {}
      invariant todo <= incoming
      invariant untracked == (incoming - todo) - tracked
      decreases todo
    {
      var s :| s in todo;
      if s !in tracked {
        untracked := untracked + {s};
      }
      todo := todo - {s};
    }
    blocked := false;
    todo := untracked;
    while todo != {}
      invariant todo <= untracked
      invariant !blocked ==> forall n :: n in untracked - todo ==> n !in tree
      invariant blocked ==> exists n :: n in untracked && n in tree
      decreases todo
    {
      var s :| s in todo;
      if s in tree {
        blocked := true;
        break;
      }
      todo := todo - {s};
    }
  }

  /** The removal loop of commit and merge: drops each name from the snapshot. */
  method RemoveNames(snap: map<string, Blob>, names: set<string>)
    returns (r: map<string, Blob>)
    ensures r == snap - names
  {
    r := snap;
    var todo := names;
    while todo != {}
      invariant todo <= names
      invariant r == snap - (names - todo)
      decreases todo
    {
      var s :| s in todo;
      if s in r {
        r := r - {s};
      }
      todo := todo - {s};
    }
  }

  /** The addition loop of commit and merge: puts each staged blob into the snapshot. */
  method PutAll(snap: map<string, Blob>, adds: map<string, Blob>)
    returns (r: map<string, Blob>)
    ensures r == snap + adds
  {
    r := snap;
    var todo := adds.Keys;
    while todo != {}
      invariant todo <= adds.Keys
      invariant r == snap + (adds - todo)
      decreases todo
    {
      var s :| s in todo;
      r := r[s := adds[s]];
      todo := todo - {s};
    }
    assert adds - {} == adds;
  }

  /** The first id of the listing that starts with `prefix`. */
  function FirstWithPrefix(listing: seq<string>, prefix: string): (r: Option<string>)
    ensures r.Some? ==> exists k :: 0 <= k < |listing| && listing[k] == r.value
                          && prefix <= listing[k]
                          && forall j :: 0 <= j < k ==> !(prefix <= listing[j])
    ensures r.None? <==> forall j :: 0 <= j < |listing| ==> !(prefix <= listing[j])
  {
    if listing == [] then None
    else if prefix <= listing[0] then Some(listing[0])
    else
      var r := FirstWithPrefix(listing[1..], prefix);
      assert r.Some? ==> exists k :: 1 <= k < |listing| && listing[k] == r.value
                            && prefix <= listing[k]
                            && forall j :: 1 <= j < k ==> !(prefix <= listing[j]) by {
        if r.Some? {
          var k :| 0 <= k < |listing[1..]| && listing[1..][k] == r.value && prefix <= listing[1..][k]
                   && forall j :: 0 <= j < k ==> !(prefix <= listing[1..][j]);
          assert listing[k + 1] == r.value;
          assert forall j :: 1 <= j < k + 1 ==> listing[j] == listing[1..][j - 1];
        }
      }
      assert r.None? ==> forall j :: 1 <= j < |listing| ==> !(prefix <= listing[j]) by {
        if r.None? {
          assert forall j :: 1 <= j < |listing| ==> listing[j] == listing[1..][j - 1];
        }
      }
      r
  }

  /** The id lookup of `checkout <id> -- <file>` and `reset`: a loop over the commit
      directory's listing that stops at the first id starting with `prefix`. */
  method FindByPrefix(listing: seq<string>, prefix: string) returns (r: Option<string>)
    requires forall i :: 0 <= i < |listing| ==> |prefix| <= |listing[i]|
    ensures r == FirstWithPrefix(listing, prefix)
  {
    r := None;
    var k := 0;
    while k < |listing|
      invariant 0 <= k <= |listing|
      invariant FirstWithPrefix(listing[k..], prefix) == FirstWithPrefix(listing, prefix)
    {
      var s := listing[k];
      assert listing[k..][1..] == listing[k + 1..];
      if s[..|prefix|] == prefix {
        r := Some(s);
        return;
      }
      k := k + 1;
    }
  }

  /** The ids of the listing whose commit has the message, in listing order. */
  function Matching(commits: map<string, Commit>, listing: seq<string>, message: string): (r: seq<string>)
    requires forall i :: 0 <= i < |listing| ==> listing[i] in commits
    ensures forall id :: id in r <==> id in listing && commits[id].message == message
    ensures |r| <= |listing|
    decreases |listing|
  {
    if listing == [] then []
    else
      var id := listing[|listing| - 1];
      var rest := listing[..|listing| - 1];
      assert listing == rest + [id];
      Matching(commits, rest, message) + (if commits[id].message == message then [id] else [])
  }

  /** find: the ids of the listing whose commit has the message, in listing order;
      nothing when there is none. */
  method FindByMessage(commits: map<string, Commit>, listing: seq<string>, message: string)
    returns (r: Option<seq<string>>)
    requires forall i :: 0 <= i < |listing| ==> listing[i] in commits
    ensures r.Some? ==> r.value == Matching(commits, listing, message)
    ensures r.Some? ==> forall id :: id in r.value <==> id in listing && commits[id].message == message
    ensures r.None? <==> forall i :: 0 <= i < |listing| ==> commits[listing[i]].message != message
  {
    var found: seq<string> := [];
    var k := 0;
    while k < |listing|
      invariant 0 <= k <= |listing|
      invariant found == Matching(commits, listing[..k], message)
    {
      var id := listing[k];
      assert listing[..k + 1] == listing[..k] + [id];
      if commits[id].message == message {
        found := found + [id];
      }
      k := k + 1;
    }
    assert listing[..k] == listing;
    if found == [] {
      forall i | 0 <= i < |listing| ensures commits[listing[i]].message != message {
        assert listing[i] !in found;
      }
      r := None;
    } else {
      assert found[0] in found;
      r := Some(found);
    }
  }
}
