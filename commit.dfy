/** The commit record (Commit.java). Parents are embedded commit values, as the
    source embeds parent objects, so ancestor recursion terminates structurally. */
module Commits {
  import opened Wrappers
  import opened Blobs

  /** A commit. `id` is the SHA-1 of the serialised record, computed once at
      construction; `time` is the creation time in milliseconds. */
  datatype Commit = Commit(
    message: string,
    snapshot: map<string, Blob>,
    time: int,
    parent: Option<Commit>,
    isInitial: bool,
    merge: Option<Commit>,
    id: string)
  {
    /** The blob recorded for `name`, or None (null) when the commit does not track it. */
    function GetBlob(name: string): (r: Option<Blob>)
      ensures r.Some? <==> name in snapshot
      ensures r.Some? ==> r.value == snapshot[name]
    {
      if name in snapshot then Some(snapshot[name]) else None
    }

    /** Java's equals: the same object, or another Commit with the same id; false for null. */
    function Equals(o: Option<Commit>): (r: bool)
      ensures r <==> o.Some? && o.value.id == id
    {
      match o
      case None => false
      case Some(c) => c == this || c.id == id
    }

    /** setMerge: replaces the merge-in parent. The id is not recomputed. */
    function SetMerge(m: Commit): (r: Commit)
      ensures r.merge == Some(m)
      ensures r.id == id && r.message == message && r.snapshot == snapshot
      ensures r.parent == parent && r.time == time && r.isInitial == isInitial
    {
      this.(merge := Some(m))
    }
  }

  /** The Commit constructor. The digest is taken while the id field is still unset
      (the empty string here); an initial commit is dated at the epoch. */
  function NewCommit(message: string, reference: map<string, Blob>, parent: Option<Commit>,
                     isInitial: bool, mergeInParent: Option<Commit>, now: int,
                     sha1: Commit -> string): (c: Commit)
    ensures c.message == message && c.snapshot == reference
    ensures c.parent == parent && c.merge == mergeInParent && c.isInitial == isInitial
    ensures c.time == (if isInitial then 0 else now)
    ensures c.id == sha1(c.(id := ""))
  {
    var unsaved := Commit(message, reference, if isInitial then 0 else now,
                          parent, isInitial, mergeInParent, "");
    unsaved.(id := sha1(unsaved))
  }

  /** The largest Dafny character value. */
  const MaxChar: int := 0x10FFFF

  /** The sum of the character codes of `s`. */
  function CharSum(s: string): int
  {
    if s == [] then 0 else CharSum(s[..|s| - 1]) + s[|s| - 1] as int
  }

  lemma {:induction false} CharSumBounds(s: string)
    ensures 0 <= CharSum(s) <= |s| * MaxChar
  {
    if s != [] {
      CharSumBounds(s[..|s| - 1]);
    }
  }

  /** hashCode: the sum of the first eight characters of the id. The sum never
      leaves Java's int range. */
  method HashCode(c: Commit) returns (value: int)
    requires |c.id| >= 8
    ensures value == CharSum(c.id[..8])
    ensures 0 <= value <= 8 * MaxChar < 0x8000_0000
  {
    value := 0;
    var i := 0;
    while i < 8
      invariant 0 <= i <= 8
      invariant value == CharSum(c.id[..i])
    {
      assert c.id[..i + 1][..i] == c.id[..i];
      value := value + c.id[i] as int;
      i := i + 1;
    }
    CharSumBounds(c.id[..8]);
  }

  /** Equal commits have equal hash codes: the code depends only on the id's first
      eight characters. */
  lemma EqualCommitsHashAlike(c: Commit, d: Commit)
    requires |c.id| >= 8 && c.Equals(Some(d))
    ensures CharSum(c.id[..8]) == CharSum(d.id[..8])
  {
  }
}
