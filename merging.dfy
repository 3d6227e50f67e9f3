/** The three-way merge rules of Main.java: per-file content comparison, the decision
    table that mergeAddRm applies to every file of the split point, the conflict text,
    and the snapshot a merge commit ends up with. */
module Merging {
  import opened Wrappers
  import opened Blobs
  import opened Commits

  /** sameContent: both commits lack the file, or both have it with blobs of equal
      contents. */
  function SameContent(c1: Commit, c2: Commit, file: string): (r: bool)
    ensures r <==> ((file !in c1.snapshot && file !in c2.snapshot)
                    || (file in c1.snapshot && file in c2.snapshot
                        && c1.snapshot[file].content == c2.snapshot[file].content))
  {
    match c1.GetBlob(file)
    case Some(b) => b.Equals(c2.GetBlob(file))
    case None => c2.GetBlob(file).None?
  }

  lemma SameContentSymmetric(c1: Commit, c2: Commit, file: string)
    ensures SameContent(c1, c2, file) == SameContent(c2, c1, file)
  {
  }

  /** Same content is transitive, which is what makes the decision table consistent. */
  lemma SameContentTransitive(c1: Commit, c2: Commit, c3: Commit, file: string)
    requires SameContent(c1, c2, file) && SameContent(c2, c3, file)
    ensures SameContent(c1, c3, file)
  {
  }

  const ConflictHead: Bytes := Ascii("<<<<<<< HEAD\n")
  const ConflictSeparator: Bytes := Ascii("=======\n")
  const ConflictTail: Bytes := Ascii(">>>>>>>\n")

  /** The contents of a blob, or nothing for an absent side. */
  function ContentOr(b: Option<Blob>): (r: Bytes)
    ensures b.Some? ==> r == b.value.content
    ensures b.None? ==> r == []
  {
    match b case Some(x) => x.content case None => []
  }

  /** The text written for a conflicted file: the head's side, then the given branch's,
      each verbatim between the markers, so the text is longer than either side. */
  function ConflictText(current: Option<Blob>, given: Option<Blob>): (t: Bytes)
    ensures var n := |ContentOr(current)|;
            && |t| == 29 + n + |ContentOr(given)|
            && t[..13] == ConflictHead
            && t[13..13 + n] == ContentOr(current)
            && t[13 + n..21 + n] == ConflictSeparator
            && t[21 + n..|t| - 8] == ContentOr(given)
            && t[|t| - 8..] == ConflictTail
  {
    ConflictHead + ContentOr(current) + ConflictSeparator + ContentOr(given) + ConflictTail
  }

  /** What mergeAddRm does with one file of the split point. */
  datatype Action =
    | Keep                    // nothing
    | Adopt(blob: Blob)       // write the given branch's blob and `add` it
    | Remove                  // `rm` the file
    | Conflict(text: Bytes)   // write the conflict text, `add` it, report a conflict
  {
    predicate Writes() { Adopt? || Conflict? }

    /** The bytes an Adopt or Conflict action writes into the working tree. */
    function Written(): Bytes
      requires Writes()
    {
      if Adopt? then blob.content else text
    }
  }

  /** mergeAddRm's decision for a file of the split point `split`, with `head` the active
      branch's commit and `other` the given branch's. */
  function Decide(split: Commit, head: Commit, other: Commit, name: string): (a: Action)
    requires name in split.snapshot
    ensures a.Adopt? <==> !SameContent(split, other, name) && SameContent(split, head, name)
                          && name in other.snapshot
    ensures a.Adopt? ==> a.blob == other.snapshot[name]
    ensures a.Remove? <==> SameContent(split, head, name) && name !in other.snapshot
    ensures a.Conflict? <==> !SameContent(split, other, name) && !SameContent(split, head, name)
                             && !SameContent(head, other, name)
    ensures a.Conflict? ==> a.text == ConflictText(head.GetBlob(name), other.GetBlob(name))
  {
    if !SameContent(split, other, name) && SameContent(split, head, name) && name in other.snapshot then
      Adopt(other.GetBlob(name).value)
    else if SameContent(split, head, name) && name !in other.snapshot then
      Remove
    else if !SameContent(split, other, name) && !SameContent(split, head, name)
            && !SameContent(head, other, name) then
      Conflict(ConflictText(head.GetBlob(name), other.GetBlob(name)))
    else
      Keep
  }

  /** A file the given branch left alone keeps the head's version, and so does a file
      both sides changed the same way. */
  lemma DecideKeeps(split: Commit, head: Commit, other: Commit, name: string)
    requires name in split.snapshot
    requires SameContent(split, other, name) || SameContent(head, other, name)
    ensures Decide(split, head, other, name) == Keep
  {
    if SameContent(head, other, name) && SameContent(split, head, name) {
      SameContentTransitive(split, head, other, name);
    }
  }

  /** A removal is only ever decided for a file the head tracks, so the `rm` it runs
      never fails. */
  lemma DecideRemoveTracked(split: Commit, head: Commit, other: Commit, name: string)
    requires name in split.snapshot && Decide(split, head, other, name) == Remove
    ensures name in head.snapshot
  {
  }

  /** The actions for every file of the split point. */
  function SplitPlan(split: Commit, head: Commit, other: Commit): (p: map<string, Action>)
    ensures p.Keys == split.snapshot.Keys
  {
    map n | n in split.snapshot :: Decide(split, head, other, n)
  }

  /** merge's loop after mergeAddRm: every file of the given branch that the split point
      lacks is written and added, whatever the head has for it. */
  function NewFilePlan(split: Commit, other: Commit): (p: map<string, Action>)
    ensures p.Keys == other.snapshot.Keys - split.snapshot.Keys
    ensures forall n :: n in p ==> p[n] == Adopt(other.snapshot[n])
  {
    map n | n in other.snapshot && n !in split.snapshot :: Adopt(other.snapshot[n])
  }

  /** The working-tree writes of a plan. */
  function WriteSet(plan: map<string, Action>): (w: map<string, Bytes>)
    ensures forall n :: n in w <==> n in plan && plan[n].Writes()
  {
    map n | n in plan && plan[n].Writes() :: plan[n].Written()
  }

  /** The files a plan removes. */
  function RemoveSet(plan: map<string, Action>): (r: set<string>)
    ensures forall n :: n in r <==> n in plan && plan[n].Remove?
  {
    set n | n in plan && plan[n].Remove?
  }

  /** The additions `add` stages for a plan's writes: only those whose blob differs from
      the one `saved` (the last saved commit) records. */
  function StagedBy(plan: map<string, Action>, saved: Commit): (s: map<string, Blob>)
    ensures forall n :: n in s <==> n in WriteSet(plan) && !Blob(WriteSet(plan)[n]).Equals(saved.GetBlob(n))
  {
    var w := WriteSet(plan);
    map n | n in w && !Blob(w[n]).Equals(saved.GetBlob(n)) :: Blob(w[n])
  }

  /** One more action adds its write, if it writes, and nothing else. */
  lemma WriteSetExtend(p: map<string, Action>, n: string, a: Action)
    requires n !in p
    ensures WriteSet(p[n := a]) == if a.Writes() then WriteSet(p)[n := a.Written()] else WriteSet(p)
  {
  }

  /** One more action adds its file to the removals, if it removes. */
  lemma RemoveSetExtend(p: map<string, Action>, n: string, a: Action)
    requires n !in p
    ensures RemoveSet(p[n := a]) == if a.Remove? then RemoveSet(p) + {n} else RemoveSet(p)
  {
  }

  /** One more write is staged exactly when its blob differs from the saved commit's. */
  lemma StagedByExtend(p: map<string, Action>, n: string, a: Action, saved: Commit)
    requires n !in p
    ensures StagedBy(p[n := a], saved)
         == if a.Writes() && !Blob(a.Written()).Equals(saved.GetBlob(n))
            then StagedBy(p, saved)[n := Blob(a.Written())]
            else StagedBy(p, saved)
  {
    WriteSetExtend(p, n, a);
  }

  /** Whether a plan writes a conflict. */
  predicate HasConflict(plan: map<string, Action>)
  {
    exists n :: n in plan && plan[n].Conflict?
  }

  lemma HasConflictExtend(p: map<string, Action>, n: string, a: Action)
    requires n !in p
    ensures HasConflict(p[n := a]) <==> HasConflict(p) || a.Conflict?
  {
    if a.Conflict? {
      assert p[n := a][n].Conflict?;
    }
    if HasConflict(p) {
      var k :| k in p && p[k].Conflict?;
      assert p[n := a][k].Conflict?;
    }
  }

  /** The file is in `m` exactly when the head tracks it, with the head's blob. */
  predicate KeepsHead(m: map<string, Blob>, head: Commit, n: string)
  {
    (n in m <==> n in head.snapshot) && (n in m ==> m[n] == head.snapshot[n])
  }

  /** A written file lands in `m` with the written bytes, unless `add` found them equal to
      the saved commit's blob and staged nothing, in which case the head's version stays. */
  predicate Lands(m: map<string, Blob>, head: Commit, saved: Commit, n: string, w: Bytes)
  {
    if Blob(w).Equals(saved.GetBlob(n)) then KeepsHead(m, head, n) else n in m && m[n] == Blob(w)
  }

  /** What the merge commit holds for one file: files of the split point follow the
      decision table, other files of the given branch are written, and every other file
      keeps the head's version. */
  predicate MergeRule(m: map<string, Blob>, split: Commit, head: Commit, other: Commit, saved: Commit,
                      n: string)
  {
    if n in split.snapshot then
      match Decide(split, head, other, n)
      case Remove => n !in m
      case Keep => KeepsHead(m, head, n)
      case Adopt(b) => Lands(m, head, saved, n, b.content)
      case Conflict(t) => Lands(m, head, saved, n, t)
    else if n in other.snapshot then Lands(m, head, saved, n, other.snapshot[n].content)
    else KeepsHead(m, head, n)
  }

  lemma MergeRuleAt(split: Commit, head: Commit, other: Commit, saved: Commit,
                    m: map<string, Blob>, n: string)
    requires m == (head.snapshot - RemoveSet(SplitPlan(split, head, other)))
                  + (StagedBy(SplitPlan(split, head, other), saved) + StagedBy(NewFilePlan(split, other), saved))
    ensures MergeRule(m, split, head, other, saved, n)
  {
    var p1 := SplitPlan(split, head, other);
    var p2 := NewFilePlan(split, other);
    if n in split.snapshot {
      assert n !in p2;
      match Decide(split, head, other, n)
      case Adopt(b) =>
        assert WriteSet(p1)[n] == b.content;
      case Conflict(t) =>
        assert WriteSet(p1)[n] == t;
      case Remove =>
      case Keep =>
    } else if n in other.snapshot {
      assert n !in p1;
      assert WriteSet(p2)[n] == other.snapshot[n].content;
    } else {
      assert n !in p1 && n !in p2;
    }
  }

  lemma MergeRules(split: Commit, head: Commit, other: Commit, saved: Commit, m: map<string, Blob>)
    requires m == (head.snapshot - RemoveSet(SplitPlan(split, head, other)))
                  + (StagedBy(SplitPlan(split, head, other), saved) + StagedBy(NewFilePlan(split, other), saved))
    ensures forall n :: MergeRule(m, split, head, other, saved, n)
  {
    forall n ensures MergeRule(m, split, head, other, saved, n) {
      MergeRuleAt(split, head, other, saved, m, n);
    }
  }

  /** The snapshot of the merge commit: the head's, minus the removals, plus what both
      loops staged. Per file it is what MergeRule says. */
  function MergedSnapshot(split: Commit, head: Commit, other: Commit, saved: Commit): (m: map<string, Blob>)
    ensures forall n :: MergeRule(m, split, head, other, saved, n)
  {
    var m := (head.snapshot - RemoveSet(SplitPlan(split, head, other)))
      + (StagedBy(SplitPlan(split, head, other), saved) + StagedBy(NewFilePlan(split, other), saved));
    MergeRules(split, head, other, saved, m);
    m
  }

  /** When the last saved commit is the head (the usual case), the merge commit holds,
      for each file, exactly what the decision table says: the given blob where it is
      adopted, nothing where it is removed, the conflict text where it conflicts, the
      given blob for new files of the given branch, and the head's version elsewhere. */
  lemma MergedSnapshotAt(split: Commit, head: Commit, other: Commit, name: string)
    ensures var m := MergedSnapshot(split, head, other, head);
      && (name in split.snapshot ==>
            match Decide(split, head, other, name)
            case Adopt(b) => name in m && m[name] == b
            case Remove => name !in m
            case Conflict(t) => name in m && m[name] == Blob(t)
            case Keep => (name in m <==> name in head.snapshot)
                         && (name in m ==> m[name] == head.snapshot[name]))
      && (name !in split.snapshot && name in other.snapshot ==>
            name in m && m[name] == other.snapshot[name])
      && (name !in split.snapshot && name !in other.snapshot ==>
            (name in m <==> name in head.snapshot)
            && (name in m ==> m[name] == head.snapshot[name]))
  {
    var m := MergedSnapshot(split, head, other, head);
    assert MergeRule(m, split, head, other, head, name);
    if name in split.snapshot {
      match Decide(split, head, other, name)
      case Adopt(b) =>
        assert Blob(b.content) == b;
      case Conflict(t) =>
        assert |t| > |ContentOr(head.GetBlob(name))|;
      case Remove =>
      case Keep =>
    } else if name in other.snapshot {
      assert Blob(other.snapshot[name].content) == other.snapshot[name];
    }
  }
}
