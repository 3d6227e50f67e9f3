# Gitlet repository model

A Dafny model of the core of Gitlet, a small version-control system written in Java
(`Main.java`, `Commit.java`, `Blob.java`). The model covers:

- the blob and commit records;
- the commit graph (`getCommits`, the breadth-first `lca` search, the first-parent chain `log` walks);
- the merge decision table that `mergeAddRm` applies, with its conflict text;
- a `Repo` class whose methods are the commands `init`, `add`, `rm`, `commit`, `log`, `checkout`
  (three forms), `branch`, `rm-branch`, `reset`, `find` and `merge`.

The `.gitlet` directories become fields of `Repo`:

- the working tree is a map from file name to bytes;
- the staging area is a map of additions and a set of removals;
- the branch directory is a map of branch heads plus an `active` entry (`ActiveSlot`);
- the commit store is a map from id to commit;
- the `current` file holds the commit saved last.

A command that prints a message and exits returns an `Error` and leaves the state as it was.

Modules:

- `Wrappers` holds `Option` and `Result`.
- `Blobs` models `Blob.java`: content-based equality.
- `Commits` models `Commit.java`:
  - the constructor, `getBlob`, identity by id, `setMerge`;
  - `hashCode`, by a loop proved against a sum function.
- `History` holds the ancestor set and its closure properties, plus the split-point search.
  - The split point is a ghost breadth-first order `Bfs`, a parent before a merge parent, with no visited set.
  - `Lca` is the queue loop, proved to return the first commit of that order whose id is among the given head's ancestors.
  - `SplitPointExists` shows that the commits always share one: both descend from the initial commit.
- `Merging` holds `sameContent`, the per-file decision `Decide`, and the plans for the split point's files and for the given branch's new files.
  - Each plan is summarised as its working-tree writes, its removals and the additions `add` would stage for it.
  - `MergedSnapshot` is the snapshot of the merge commit.
- `TreeOps` holds the loops over file names and ids:
  - writing a snapshot and deleting the files the old head alone tracks;
  - the untracked-file check;
  - the snapshot updates of `commit`;
  - the first id with a prefix;
  - the ids with a message.
- `Repository` holds the `Repo` class with one method per command.
  - `Valid()` is its invariant: `active` is not a branch name, a named active branch exists, no name is staged for both addition and removal, and every commit descends from the initial one.

The code differs in places from what the command descriptions lead one to expect. The model follows the code:

- A fast-forward merge writes the given commit into the `active` entry of the branch directory (Main.java:596-597), not into the active branch (`ActiveSlot.Overwritten`). It updates the working tree without first checking for untracked files in the way.
- Files of the given branch that the split point lacks are written and added whatever the active head holds for them (Main.java:536-544). The test at Main.java:651 cannot hold inside the loop over the split point's files. `Decide` leaves it out.
- `add` compares against the commit saved last (the `current` file), which need not be the active head. `checkout -- f` reads that commit too.
- `checkout <branch>` neither clears the staging area nor updates `current`.
- `reset` does not update `current` either.

## Model

| member | source | states |
|---|---|---|
| Blobs.Blob.GetContent | Blob.java:16-19 | the content read back is exactly the bytes the blob was built from |
| Blobs.Blob.Equals | Blob.java:56-68 | equal exactly to another present blob whose bytes are equal; false for null; reflexive; equal blobs have equal content |
| Blobs.EqualsSymmetric | Blob.java:56-68 | blob equality is symmetric |
| Commits.Commit.GetBlob | Commit.java:108-111 | returns the tracked blob when the snapshot has the name, and none (null) exactly when it does not |
| Commits.Commit.Equals | Commit.java:81-94 | true exactly for a present commit with the same id; false for null |
| Commits.Commit.SetMerge | Commit.java:130-132 | sets the merge-in parent; the id, message, snapshot, parent and time do not change |
| Commits.NewCommit | Commit.java:27-43 | the fields are the constructor's arguments; an initial commit is dated 0, any other at the given time; the id is the digest of the record with no id yet |
| Commits.CharSumBounds | Commit.java:96-102 | a sum of character codes lies between 0 and the length times the largest code |
| Commits.HashCode | Commit.java:96-102 | the loop's result is the sum of the first eight characters of the id, and it fits in Java's int |
| Commits.EqualCommitsHashAlike | Commit.java:81-102 | commits equal under `equals` have equal hash codes |
| History.GetCommits | Main.java:768-778 | the ancestor set contains the commit itself |
| History.GetCommitsClosed | Main.java:768-778 | the ancestor set holds the parent and merge-in parent of each member |
| History.GetCommitsLeast | Main.java:768-778 | it is the least such set containing the commit |
| History.GetCommitsTransitive | Main.java:768-778 | an ancestor's ancestors are ancestors |
| History.Children | Main.java:756-761 | the commits enqueued after a visit are exactly its parent and merge-in parent, one entry each, the parent first and the merge-in parent last |
| History.QueueWeightStep | Main.java:750-762 | each round of the search makes the queue's unfolded size smaller, so the search without a visited set terminates |
| History.FirstWithId | Main.java:750-755 | a queued commit whose id is in the set and no earlier element's id is, and none exactly when no element's id is in it |
| History.BfsVisitsReach | Main.java:748-762 | the search order visits exactly the commits reachable from the queue |
| History.SplitPointExists | Main.java:740-763 | when the two heads share an ancestor, the search finds a commit, so `lca` never returns null |
| History.Lca | Main.java:740-763 | the queue loop returns the first commit in search order whose id is among the other head's ancestors; that commit is an ancestor of the head; none exactly when no ancestor of the head has such an id |
| History.FirstParents | Main.java:226-233 | the chain `log` prints starts at the head |
| History.FirstParentsChain | Main.java:226-233 | each entry is the parent of the one before, the last has no parent, and every entry is an ancestor of the head |
| Merging.SameContent | Main.java:786-795 | true exactly when both commits lack the file or both hold equal blobs for it |
| Merging.SameContentSymmetric | Main.java:786-795 | the comparison is symmetric in the two commits |
| Merging.SameContentTransitive | Main.java:786-795 | the comparison is transitive |
| Merging.ContentOr | Main.java:666-671 | a present side's bytes, or no bytes for an absent side |
| Merging.ConflictText | Main.java:666-674 | the conflict text is the head marker, the head's bytes, the separator, the given bytes and the tail marker, at the stated offsets; its length is 29 plus both sides |
| Merging.Decide | Main.java:641-681 | adopt the given blob exactly when the given side changed, the head did not and the given side has the file; remove exactly when the head did not change and the given side dropped the file; conflict exactly when all three versions differ pairwise, with the conflict text as content |
| Merging.DecideKeeps | Main.java:641-681 | a file the given branch left alone, or that both sides changed alike, is kept |
| Merging.DecideRemoveTracked | Main.java:658-662 | a file to remove is tracked by the head, so rm succeeds on it |
| Merging.SplitPlan | Main.java:641 | the plan has an action for every file of the split point and no other |
| Merging.NewFilePlan | Main.java:536-544 | every file of the given head missing from the split point is adopted with the given blob |
| Merging.WriteSet | Main.java:645-676 | a plan writes exactly the adopted and conflicting files |
| Merging.RemoveSet | Main.java:658-662 | a plan removes exactly the files marked for removal |
| Merging.StagedBy | Main.java:146-154 | a written file is staged exactly when its blob differs from the saved commit's |
| Merging.StagedByExtend | Main.java:146-154 | one more written file is staged exactly when its blob differs from the saved commit's |
| Merging.WriteSetExtend | Main.java:641-681 | one more action adds its file's written bytes to the writes if it writes, and changes nothing else |
| Merging.RemoveSetExtend | Main.java:641-681 | one more action adds its file to the removals if it removes, and changes nothing else |
| Merging.HasConflictExtend | Main.java:640-682 | the conflict flag after one more file is the old flag or that file's conflict |
| Merging.MergedSnapshot | Main.java:552-564 | for every file, the merge commit follows `MergeRule`: removed files are absent; kept files and files neither in the split point nor in the given branch keep the head's version; written files (adopted, conflicting, or new in the given branch) hold the written bytes unless `add` found them equal to the saved commit's blob, in which case the head's version stays |
| Merging.MergedSnapshotAt | Main.java:536-566 | when the saved commit is the head, the merge commit holds, per file, what the table says: the given blob where adopted, nothing where removed, the conflict text where conflicting, the given blob for new given files, the head's version elsewhere |
| TreeOps.WriteSnapshot | Main.java:322-326 | the loop writes every file of the snapshot over the tree |
| TreeOps.DeleteDropped | Main.java:327-334 | the loop deletes exactly the files the old head tracks and the target lacks |
| TreeOps.Obstructed | Main.java:308-321 | the check fires exactly when a file the target tracks and the head does not is in the tree |
| TreeOps.RemoveNames | Main.java:176-181 | the loop removes exactly the staged removals from the snapshot |
| TreeOps.PutAll | Main.java:183-188 | the loop overwrites the snapshot with the staged additions |
| TreeOps.FirstWithPrefix | Main.java:258-265 | the first listed id with the prefix, and none exactly when no id has it |
| TreeOps.FindByPrefix | Main.java:258-265 | the loop returns the first listed id with the prefix |
| TreeOps.Matching | Main.java:381-394 | the listing filtered by message: exactly the listed ids whose commit has the message |
| TreeOps.FindByMessage | Main.java:381-394 | the loop returns the listing filtered by message (`Matching`), and none exactly when no commit has it |
| Repository.ActiveSlot.ReadError | Main.java:713-720 | a missing `active` entry is reported; a commit in its place makes the read fail |
| Repository.TreeStep | Main.java:641-681 | one written or removed file updates the tree as the plan's summaries say |
| Repository.AdditionsStep | Main.java:146-154 | one file's add or rm updates the additions as the summaries say |
| Repository.ApplyStep | Main.java:641-681 | staging the files one at a time ends where the summaries say, whatever the order |
| Repository.ComposePlans | Main.java:535-564 | the split-point plan followed by the new-file plan, from an empty staging area, stages the two plans' additions and the first plan's removals |
| Repository.Repo.Init | Main.java:111-126 | the initial commit, with an empty snapshot, no parents and time 0, is saved and `master` is the active branch pointing at it |
| Repository.Repo.ActiveHead | Main.java:699-702 | the active head exists exactly when the `active` entry names a branch, and it is that branch's head |
| Repository.Repo.BranchListing | Main.java:296-304 | the branch directory lists the branches and the `active` entry, unless the latter was deleted |
| Repository.Repo.GetBranch | Main.java:725-733 | a listed branch's head; the commit a fast-forward wrote into the `active` entry; a missing file is reported; reading the `active` entry while it names a branch fails |
| Repository.Repo.Add | Main.java:132-157 | a missing file fails with no change; otherwise any pending removal is cleared and the blob is staged exactly when it differs from the saved commit's |
| Repository.Repo.Rm | Main.java:202-224 | fails with no change when the file is neither staged nor tracked; otherwise unstages it and, if tracked, records the removal and deletes the file |
| Repository.Repo.SaveCommit | Commit.java:61-65 | the commit is stored under its id and becomes the saved one |
| Repository.Repo.ClearStage | Main.java:797-810 | both staging areas end empty and nothing else changes |
| Repository.Repo.CommitStaged | Main.java:175-194 | the new commit's snapshot is the head's minus the removals, overwritten by the additions; its parent is the head; the staging area is cleared and the active branch points to it |
| Repository.Repo.Commit | Main.java:163-196 | fails with no change on an empty message or an empty staging area; otherwise records the staged changes as a commit whose parent is the old head and advances the active branch |
| Repository.Repo.CheckoutFile | Main.java:239-249 | writes the saved commit's version of the file, or fails with no change when that commit lacks it |
| Repository.Repo.CheckoutFileAt | Main.java:250-278 | writes the version of the file in the first commit with the id prefix; fails with no change when no id matches or the commit lacks the file |
| Repository.Repo.CheckoutBranch | Main.java:290-342 | fails with no change for the active or a missing branch, or when an untracked file is in the way; otherwise writes the target's files, deletes those only the old head tracks and names the branch active; staging and the saved commit stay |
| Repository.Repo.Branch | Main.java:346-359 | fails when the name is listed; otherwise adds exactly one entry, the active head |
| Repository.Repo.RmBranch | Main.java:435-453 | fails when the name is not listed or is the active branch; otherwise deletes only that entry |
| Repository.Repo.Reset | Main.java:460-516 | resolves the first id with the prefix; fails with no change when none matches or an untracked file is in the way; otherwise empties staging, checks out the commit's files, deletes those only the old head tracks and moves the active branch to the commit |
| Repository.Repo.Log | Main.java:226-233 | the active head's first-parent chain, most recent first |
| Repository.Repo.Find | Main.java:375-395 | the listing of the stored commits filtered by message, which is exactly the ids of the commits with the message; the only failure is that there is none, and it happens exactly then |
| Repository.Repo.Stage | Main.java:642-680 | an adopted or conflicting file is written and added, a removed file is removed with rm |
| Repository.Repo.Apply | Main.java:641-682 | staging a whole plan leaves the tree, additions and removals its summaries describe; reports a conflict exactly when some file conflicts |
| Repository.Repo.CheckMerge | Main.java:576-625 | rejects, in order, staged changes, a self-merge and a given head that is the split point; fast-forwards, writing the given head into the `active` entry, when the split point is the head; then rejects an untracked file in the way |
| Repository.Repo.MergeStaged | Main.java:534-570 | stages the table's actions and the new given files, then commits "Merged b into a." with the head as parent and the given head as merge-in parent and the merged snapshot; staging ends empty and the active branch points to the merge commit |
| Repository.Repo.Merge | Main.java:521-571 | reads both heads; the split point always exists; runs the checks in the source's order, then the staging and the merge commit, reporting whether a conflict was written |

## Left out

- File I/O and persistence: `Utils` and all `File` handling, `setupPersistence`, `saveBlob`, `Blob.write`, `fromFile`. Directories are fields of `Repo`, and writing a file is a map update.
- Console output and process exits. Each exit is an error result; the messages are not modelled.
- SHA-1 and Java serialisation. The commit digest is a function parameter (`sha1`) fixed at `init`. The blob digest only names the blob's file, so it is not modelled.
- The clock. `commit` and `merge` take the time as a parameter (`now`).
- `Blob.hashCode`. It parses a hex digest as a decimal integer and has no meaningful result.
- `status`, `global-log`, the printed format of `log` and of commits, and the `main` dispatch with its operand-count checks. `setup` and the `cwd` and `set` debug commands are left out too. All of these are output or argument parsing.
- The "already exists" error of `init`. The model builds a fresh repository.
- The order of a directory listing, which comes from `Utils.plainFilenamesIn` and is not part of this model. It is an input `listing` that lists exactly the stored ids.
- TreeOps.FindByPrefix: requires the prefix to be no longer than every id. The source's `substring` throws otherwise.
- Commits.HashCode: requires an id of at least eight characters, which every SHA-1 hex digest has. Dafny characters stand in for Java's UTF-16 code units.
- Merging.ConflictText: the text is built from the raw bytes. The source decodes the bytes to a `String` and encodes them back with the platform charset.
- History.Lca: the `LinkedBlockingQueue` is a sequence. The search is sequential, so its concurrency is not modelled.
- Commits.Commit.SetMerge: models the field update as a new value. Commits are values here, so aliasing of a mutated commit object is not captured. The source never calls `setMerge`.
- Repository.Repo.RmBranch: when the `active` entry holds a commit after a fast-forward, its content is taken never to equal a typed branch name (Main.java:446-447).
- Repository.Repo.CheckoutBranch: the same assumption about the overwritten `active` entry is made for the current-branch test (Main.java:296).
