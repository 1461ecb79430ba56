/**
 * The stash / pull / re-apply engine of the git manager.
 *
 * The worktree, the HEAD tree, the snapshots and the conflict directories are maps from path to
 * bytes.  Hard reset and pull are arbitrary changes of the worktree, and every system call may fail.
 */
module Stash {
  import opened Common
  import opened Text
  import opened Artifacts

  datatype StatusCode = Unmodified | Untracked | Modified | Added | Deleted | Renamed | Copied | Unmerged
  datatype FileStatus = FileStatus(staging: StatusCode, worktree: StatusCode)
  type Status = map<Path, FileStatus>

  datatype StashFile = StashFile(path: Path, deleted: bool, hadBase: bool)
  datatype Snapshot = Snapshot(files: seq<StashFile>, local: Tree, base: Tree, createdAt: string)

  datatype Outcome =
    | Nil
    | ConflictError(files: seq<Path>, conflictDir: string, stashPath: string)
    | Failed

  /*---------- What a snapshot records ----------*/

  function ChangedPaths(status: Status): set<Path> {
    set p | p in status && Changed(status[p])
  }

  predicate Changed(s: FileStatus) {
    !(s.worktree == Unmodified && s.staging == Unmodified)
  }

  predicate MarkedDeleted(s: FileStatus) {
    s.worktree == Deleted || s.staging == Deleted
  }

  function PathsOf(files: seq<StashFile>): set<Path> {
    set f | f in files :: f.path
  }

  ghost predicate DistinctPaths(files: seq<StashFile>) {
    forall i, j :: 0 <= i < j < |files| ==> files[i].path != files[j].path
  }

  /** The flags of every entry agree with the copies kept under `local/` and `base/`. */
  ghost predicate WellFormed(snap: Snapshot) {
    && DistinctPaths(snap.files)
    && FlagsAgree(snap.files, snap.local, snap.base)
  }

  /** The entries name each path of `done` once. */
  ghost predicate EntriesCover(files: seq<StashFile>, done: set<Path>) {
    && DistinctPaths(files)
    && (forall f :: f in files ==> f.path in done)
    && (forall p :: p in done ==> HasEntry(files, p))
  }

  predicate HasEntry(files: seq<StashFile>, p: Path) {
    exists f :: f in files && f.path == p
  }

  ghost predicate FlagsAgree(files: seq<StashFile>, local: Tree, base: Tree) {
    forall f :: f in files ==> f.deleted == (f.path !in local) && f.hadBase == (f.path in base)
  }

  /** The copies are the worktree and HEAD versions of exactly the paths in `done`. */
  ghost predicate CopiesMatch(local: Tree, base: Tree, done: set<Path>, status: Status, worktree: Tree, head: Tree)
    requires done <= status.Keys
  {
    && local.Keys <= done && base.Keys <= done
    && (forall p :: p in done ==>
          && Lookup(local, p) == (if MarkedDeleted(status[p]) then None else Lookup(worktree, p))
          && Lookup(base, p) == Lookup(head, p))
  }

  lemma CoverOneMore(files: seq<StashFile>, done: set<Path>, entry: StashFile)
    requires EntriesCover(files, done) && entry.path !in done
    ensures EntriesCover(files + [entry], done + {entry.path})
  {
    var more := files + [entry];
    forall p | p in done + {entry.path} ensures HasEntry(more, p) {
      if p == entry.path {
        assert entry in more;
      } else {
        var f :| f in files && f.path == p;
        assert f in more;
      }
    }
    forall i, j | 0 <= i < j < |more| ensures more[i].path != more[j].path {
      assert more[i] in files;
    }
  }

  lemma FlagsOneMore(files: seq<StashFile>, local: Tree, base: Tree, done: set<Path>, entry: StashFile,
                     localCopy: Option<Bytes>, baseCopy: Option<Bytes>)
    requires EntriesCover(files, done) && FlagsAgree(files, local, base) && entry.path !in done
    requires entry.deleted == localCopy.None? && entry.hadBase == baseCopy.Some?
    ensures FlagsAgree(files + [entry], Assign(local, entry.path, localCopy), Assign(base, entry.path, baseCopy))
  {
  }

  /** `snap` is a snapshot of exactly the changed paths of `worktree` against `head`. */
  ghost predicate Records(snap: Snapshot, status: Status, worktree: Tree, head: Tree) {
    && WellFormed(snap)
    && PathsOf(snap.files) == ChangedPaths(status)
    && (forall p :: p in ChangedPaths(status) ==>
          && Lookup(snap.local, p) == (if MarkedDeleted(status[p]) then None else Lookup(worktree, p))
          && Lookup(snap.base, p) == Lookup(head, p))
  }

  lemma CopiesOneMore(local: Tree, base: Tree, done: set<Path>, p: Path, localCopy: Option<Bytes>, baseCopy: Option<Bytes>,
                      status: Status, worktree: Tree, head: Tree)
    requires done <= status.Keys && CopiesMatch(local, base, done, status, worktree, head)
    requires p in status && p !in done
    requires localCopy == if MarkedDeleted(status[p]) then None else Lookup(worktree, p)
    requires baseCopy == Lookup(head, p)
    ensures CopiesMatch(Assign(local, p, localCopy), Assign(base, p, baseCopy), done + {p}, status, worktree, head)
  {
    var l, b := Assign(local, p, localCopy), Assign(base, p, baseCopy);
    forall q | q in done + {p}
      ensures Lookup(l, q) == (if MarkedDeleted(status[q]) then None else Lookup(worktree, q))
      ensures Lookup(b, q) == Lookup(head, q)
    {
    }
  }

  lemma RecordsWhenDone(snap: Snapshot, status: Status, worktree: Tree, head: Tree)
    requires EntriesCover(snap.files, ChangedPaths(status)) && FlagsAgree(snap.files, snap.local, snap.base)
    requires CopiesMatch(snap.local, snap.base, ChangedPaths(status), status, worktree, head)
    ensures Records(snap, status, worktree, head)
  {
    forall p | p in ChangedPaths(status) ensures p in PathsOf(snap.files) {
      assert HasEntry(snap.files, p);
    }
  }

  /*---------- The conflict decision against textbook three-way merge ----------*/

  datatype Merge = Clean(result: Option<Bytes>) | Conflict

  /** Textbook three-way merge of whole files; None is an absent file. */
  function ThreeWay(base: Option<Bytes>, local: Option<Bytes>, remote: Option<Bytes>): Merge {
    if local == remote then Clean(local)
    else if local == base then Clean(remote)
    else if remote == base then Clean(local)
    else Conflict
  }

  /** The engine regards the remote side as untouched since the base was taken. */
  predicate RemoteUntouched(base: Option<Bytes>, local: Option<Bytes>, remote: Option<Bytes>) {
    || (remote == base && !(local.Some? && base == Some([])))
    || (base.None? && local.None? && remote == Some([]))
  }

  predicate NeedsConflict(base: Option<Bytes>, local: Option<Bytes>, remote: Option<Bytes>) {
    remote != local && !RemoteUntouched(base, local, remote)
  }

  /** What re-applying one stashed file does to its target. */
  function Reapplied(base: Option<Bytes>, local: Option<Bytes>, remote: Option<Bytes>): Merge {
    if NeedsConflict(base, local, remote) then Conflict else Clean(local)
  }

  /**
   * The engine's decision equals textbook merge except in two families: the file did not really
   * differ from its base, or a file that is empty in HEAD was changed locally and left empty remotely.
   */
  lemma MergeAgreement(base: Option<Bytes>, local: Option<Bytes>, remote: Option<Bytes>)
    ensures Reapplied(base, local, remote) == ThreeWay(base, local, remote) <==>
            !(|| (local == base && remote != local)
              || (base == Some([]) && remote == base && local.Some? && local != base))
  {
  }

  /** No textbook conflict is ever overlooked, and a clean outcome always carries the local version. */
  lemma NoConflictMissed(base: Option<Bytes>, local: Option<Bytes>, remote: Option<Bytes>)
    ensures ThreeWay(base, local, remote).Conflict? ==> Reapplied(base, local, remote).Conflict?
    ensures local != base && base != Some([]) ==>
              Reapplied(base, local, remote) == ThreeWay(base, local, remote)
  {
    MergeAgreement(base, local, remote);
  }

  /*---------- What the snapshot captures ----------*/

  /** The snapshot holds the worktree version of every changed path. */
  ghost predicate Captures(snap: Snapshot, status: Status, worktree: Tree) {
    forall p :: p in ChangedPaths(status) ==> Lookup(snap.local, p) == Lookup(worktree, p)
  }

  /**
   * A file marked deleted in either status column is recorded as deleted even when it is still in the
   * worktree (`git rm --cached`): the snapshot is faithful exactly when there is no such file.
   */
  lemma CapturesUnlessUntrackedDelete(snap: Snapshot, status: Status, worktree: Tree, head: Tree)
    requires Records(snap, status, worktree, head)
    ensures Captures(snap, status, worktree) <==>
            forall p :: p in ChangedPaths(status) && MarkedDeleted(status[p]) ==> p !in worktree
  {
    forall p | p in ChangedPaths(status)
      ensures Lookup(snap.local, p) == Lookup(worktree, p) <==> !(MarkedDeleted(status[p]) && p in worktree)
    {
    }
  }

  /*---------- Whole-snapshot specification of applyStash ----------*/

  predicate Conflicts(snap: Snapshot, pulled: Tree, p: Path) {
    NeedsConflict(Lookup(snap.base, p), Lookup(snap.local, p), Lookup(pulled, p))
  }

  function ConflictSet(snap: Snapshot, pulled: Tree): set<Path> {
    set p | p in PathsOf(snap.files) && Conflicts(snap, pulled, p)
  }

  /** The pulled tree with the stashed version of every path in `paths` put back. */
  ghost predicate Overrides(result: Tree, pulled: Tree, snap: Snapshot, paths: set<Path>) {
    forall p :: Lookup(result, p) == if p in paths then Lookup(snap.local, p) else Lookup(pulled, p)
  }

  /** Every path but one has its pulled or its stashed version. */
  ghost predicate DamagedOnlyAt(atFault: Path, result: Tree, pulled: Tree, snap: Snapshot) {
    forall p :: p != atFault ==>
      || Lookup(result, p) == Lookup(pulled, p)
      || (p in PathsOf(snap.files) && Lookup(result, p) == Lookup(snap.local, p))
  }

  function BytesOf(v: Option<Bytes>): Bytes {
    if v.Some? then v.value else []
  }

  /** What the artifacts of one conflicted path contain; an empty base is not written. */
  function ArtifactContent(snap: Snapshot, pulled: Tree, p: Path, kind: Kind): Option<Bytes> {
    match kind
    case Remote => Some(if BytesOf(Lookup(pulled, p)) == [] then REMOTE_TOMBSTONE else pulled[p])
    case Local => Some(if p in snap.local then snap.local[p] else LOCAL_TOMBSTONE)
    case Base => if BytesOf(Lookup(snap.base, p)) == [] then None else Lookup(snap.base, p)
  }

  /** `tree` is the conflict directory `before` plus the artifacts of exactly `paths`. */
  ghost predicate Stored(tree: Tree, before: Tree, snap: Snapshot, pulled: Tree, paths: set<Path>) {
    && (forall p, k :: p in paths ==> HoldsArtifact(tree, before, snap, pulled, p, k))
    && (forall n :: IsNoArtifact(n, paths) ==> Lookup(tree, n) == Lookup(before, n))
  }

  predicate HoldsArtifact(tree: Tree, before: Tree, snap: Snapshot, pulled: Tree, p: Path, k: Kind) {
    var content := ArtifactContent(snap, pulled, p, k);
    Lookup(tree, ArtifactName(p, k)) == if content.Some? then content else Lookup(before, ArtifactName(p, k))
  }

  ghost predicate IsNoArtifact(n: string, paths: set<Path>) {
    forall p, k :: p in paths ==> n != ArtifactName(p, k)
  }

  function WithConflict(tree: Tree, snap: Snapshot, pulled: Tree, p: Path): Tree {
    WithArtifacts(tree, p, BytesOf(Lookup(pulled, p)), BytesOf(Lookup(snap.base, p)), Lookup(snap.local, p), p !in snap.local)
  }

  lemma HoldsOneMore(tree: Tree, before: Tree, snap: Snapshot, pulled: Tree, paths: set<Path>, p: Path, q: Path, k: Kind)
    requires Stored(tree, before, snap, pulled, paths) && p !in paths && (q in paths || q == p)
    ensures HoldsArtifact(WithConflict(tree, snap, pulled, p), before, snap, pulled, q, k)
  {
    ArtifactNameInjective(q, k, p, Remote);
    ArtifactNameInjective(q, k, p, Base);
    ArtifactNameInjective(q, k, p, Local);
    if q != p {
      assert HoldsArtifact(tree, before, snap, pulled, q, k);
    } else if k == Base {
      forall r, l | r in paths ensures ArtifactName(p, Base) != ArtifactName(r, l) {
        ArtifactNameInjective(p, Base, r, l);
      }
      assert IsNoArtifact(ArtifactName(p, Base), paths);
    }
  }

  lemma UntouchedOneMore(tree: Tree, before: Tree, snap: Snapshot, pulled: Tree, paths: set<Path>, p: Path, more: set<Path>, n: string)
    requires Stored(tree, before, snap, pulled, paths) && more == paths + {p} && IsNoArtifact(n, more)
    ensures Lookup(WithConflict(tree, snap, pulled, p), n) == Lookup(before, n)
  {
    assert IsNoArtifact(n, paths);
    assert p in more;
    assert n != ArtifactName(p, Remote) && n != ArtifactName(p, Base) && n != ArtifactName(p, Local);
  }

  lemma StoredOneMore(tree: Tree, before: Tree, snap: Snapshot, pulled: Tree, paths: set<Path>, p: Path, more: set<Path>)
    requires Stored(tree, before, snap, pulled, paths) && p !in paths && more == paths + {p}
    ensures Stored(WithConflict(tree, snap, pulled, p), before, snap, pulled, more)
  {
    var after := WithConflict(tree, snap, pulled, p);
    forall q, k | q in more ensures HoldsArtifact(after, before, snap, pulled, q, k) {
      HoldsOneMore(tree, before, snap, pulled, paths, p, q, k);
    }
    forall n: string ensures IsNoArtifact(n, more) ==> Lookup(after, n) == Lookup(before, n) {
      if IsNoArtifact(n, more) { UntouchedOneMore(tree, before, snap, pulled, paths, p, more, n); }
    }
  }

  lemma OverridesOneMore(tree: Tree, pulled: Tree, snap: Snapshot, paths: set<Path>, p: Path, more: set<Path>)
    requires Overrides(tree, pulled, snap, paths) && more == paths + {p}
    ensures Overrides(Assign(tree, p, Lookup(snap.local, p)), pulled, snap, more)
  {
  }

  function DirOrEmpty(dirs: map<string, Tree>, dir: string): Tree {
    if dir in dirs then dirs[dir] else map[]
  }

  /**
   * After a conflict every stashed file that exists locally has its bytes at its target or in its
   * `.local` artifact, and every conflicted or unstashed path still has its pulled content.
   */
  lemma NoLocalChangeLost(snap: Snapshot, pulled: Tree, worktree: Tree, before: Tree, dir: Tree)
    requires Overrides(worktree, pulled, snap, PathsOf(snap.files) - ConflictSet(snap, pulled))
    requires Stored(dir, before, snap, pulled, ConflictSet(snap, pulled))
    ensures forall p :: p in PathsOf(snap.files) && p in snap.local ==>
              || Lookup(worktree, p) == Some(snap.local[p])
              || Lookup(dir, ArtifactName(p, Local)) == Some(snap.local[p])
    ensures forall p :: p in PathsOf(snap.files) && p !in snap.local && p !in ConflictSet(snap, pulled) ==> p !in worktree
    ensures forall p :: p in ConflictSet(snap, pulled) || p !in PathsOf(snap.files) ==>
              Lookup(worktree, p) == Lookup(pulled, p)
  {
    forall p | p in PathsOf(snap.files) && p in snap.local
      ensures || Lookup(worktree, p) == Some(snap.local[p])
              || Lookup(dir, ArtifactName(p, Local)) == Some(snap.local[p])
    {
      if p in ConflictSet(snap, pulled) {
        assert HoldsArtifact(dir, before, snap, pulled, p, Local);
      }
    }
    forall p | p in PathsOf(snap.files) && p !in snap.local && p !in ConflictSet(snap, pulled) ensures p !in worktree {
      assert Lookup(worktree, p) == Lookup(snap.local, p);
    }
  }

  /*---------- Stash, hard reset, up-to-date pull, re-apply ----------*/

  /** What go-git's status promises about the trees it compares; unlisted files may be ignored ones. */
  ghost predicate StatusSound(status: Status, worktree: Tree, head: Tree) {
    && (forall p :: p !in ChangedPaths(status) && p in head ==> Lookup(worktree, p) == Lookup(head, p))
    && (forall p :: p in ChangedPaths(status) && status[p].worktree == Deleted ==> p !in worktree)
    && (forall p :: p in ChangedPaths(status) && status[p].staging == Deleted ==> p in head)
  }

  /** Hard reset restores tracked files; an untracked one is kept or removed; ignored ones stay. */
  ghost predicate AfterReset(after: Tree, before: Tree, head: Tree, status: Status) {
    forall p ::
      if p in head then Lookup(after, p) == Lookup(head, p)
      else if p in ChangedPaths(status) then Lookup(after, p) == Lookup(before, p) || p !in after
      else Lookup(after, p) == Lookup(before, p)
  }

  /** Re-applying onto `pulled` meets no conflict and yields `worktree`. */
  ghost predicate ReapplyYields(snap: Snapshot, pulled: Tree, worktree: Tree) {
    ConflictSet(snap, pulled) == {} && Overrides(worktree, pulled, snap, PathsOf(snap.files))
  }

  lemma OverridesUnique(a: Tree, b: Tree, pulled: Tree, snap: Snapshot, paths: set<Path>)
    requires Overrides(a, pulled, snap, paths) && Overrides(b, pulled, snap, paths)
    ensures a == b
  {
    SameLookups(a, b);
  }

  /** The two kinds of changed file an up-to-date pull does not bring back. */
  predicate AtRisk(p: Path, status: Status, worktree: Tree, head: Tree)
    requires p in status
  {
    p in worktree && (status[p].staging == Deleted || (Lookup(head, p) == Some([]) && worktree[p] != []))
  }

  lemma ReapplyOne(snap: Snapshot, status: Status, worktree: Tree, head: Tree, reset: Tree, p: Path)
    requires Records(snap, status, worktree, head) && StatusSound(status, worktree, head)
    requires AfterReset(reset, worktree, head, status) && p in ChangedPaths(status)
    ensures !Conflicts(snap, reset, p) && Lookup(snap.local, p) == Lookup(worktree, p) <==> !AtRisk(p, status, worktree, head)
  {
    assert if p in head then Lookup(reset, p) == Lookup(head, p) else Lookup(reset, p) == Lookup(worktree, p) || p !in reset;
  }

  /** Stash, hard reset, up-to-date pull and re-apply is the identity exactly when no file is at risk. */
  lemma RoundTripIdentity(snap: Snapshot, status: Status, worktree: Tree, head: Tree, reset: Tree)
    requires Records(snap, status, worktree, head) && StatusSound(status, worktree, head)
    requires AfterReset(reset, worktree, head, status)
    ensures ReapplyYields(snap, reset, worktree) <==>
            forall p :: p in ChangedPaths(status) ==> !AtRisk(p, status, worktree, head)
  {
    forall p | p in ChangedPaths(status)
      ensures !Conflicts(snap, reset, p) && Lookup(snap.local, p) == Lookup(worktree, p) <==> !AtRisk(p, status, worktree, head)
    {
      ReapplyOne(snap, status, worktree, head, reset, p);
    }
    if ReapplyYields(snap, reset, worktree) {
      forall p | p in ChangedPaths(status) ensures !AtRisk(p, status, worktree, head) {
        assert p !in ConflictSet(snap, reset);
        assert Lookup(worktree, p) == Lookup(snap.local, p);
      }
    }
    if forall p :: p in ChangedPaths(status) ==> !AtRisk(p, status, worktree, head) {
      forall p ensures Lookup(worktree, p) == if p in PathsOf(snap.files) then Lookup(snap.local, p) else Lookup(reset, p) {
        assert p in ChangedPaths(status) ==> !AtRisk(p, status, worktree, head);
      }
    }
  }

  ghost predicate NoneAtRisk(status: Status, worktree: Tree, head: Tree) {
    forall p :: p in ChangedPaths(status) ==> !AtRisk(p, status, worktree, head)
  }

  /** With no file at risk nothing conflicts, and only the old worktree can result. */
  lemma UpToDateRestores(snap: Snapshot, status: Status, worktree: Tree, head: Tree, reset: Tree, result: Tree)
    requires Records(snap, status, worktree, head) && StatusSound(status, worktree, head)
    requires AfterReset(reset, worktree, head, status) && NoneAtRisk(status, worktree, head)
    ensures ConflictSet(snap, reset) == {}
    ensures Overrides(result, reset, snap, PathsOf(snap.files)) ==> result == worktree
  {
    RoundTripIdentity(snap, status, worktree, head, reset);
    if Overrides(result, reset, snap, PathsOf(snap.files)) {
      OverridesUnique(result, worktree, reset, snap, PathsOf(snap.files));
    }
  }

  /**
   * A file deleted from the index but still in the worktree, with bytes that differ from HEAD: an
   * up-to-date pull leaves these bytes neither in the worktree nor in the snapshot nor in an artifact.
   */
  lemma PullLosesUntrackedDelete(snap: Snapshot, status: Status, worktree: Tree, head: Tree, reset: Tree, result: Tree,
                                 was: Tree, dir: Tree, p: Path)
    requires Records(snap, status, worktree, head) && StatusSound(status, worktree, head)
    requires AfterReset(reset, worktree, head, status)
    requires p in ChangedPaths(status) && status[p].staging == Deleted && p in worktree && Lookup(head, p) != Some(worktree[p])
    requires Overrides(result, reset, snap, PathsOf(snap.files) - ConflictSet(snap, reset))
    requires Stored(dir, was, snap, reset, ConflictSet(snap, reset))
    ensures p !in result && p !in snap.local && Lookup(snap.base, p) != Some(worktree[p])
    ensures forall k :: Lookup(dir, ArtifactName(p, k)) == Lookup(was, ArtifactName(p, k))
  {
    assert Lookup(reset, p) == Lookup(head, p) == Lookup(snap.base, p);
    assert !Conflicts(snap, reset, p);
    assert Lookup(result, p) == Lookup(snap.local, p);
    forall k ensures Lookup(dir, ArtifactName(p, k)) == Lookup(was, ArtifactName(p, k)) {
      forall q, l | q in ConflictSet(snap, reset) ensures ArtifactName(p, k) != ArtifactName(q, l) {
        ArtifactNameInjective(p, k, q, l);
      }
      assert IsNoArtifact(ArtifactName(p, k), ConflictSet(snap, reset));
    }
  }

  /** `git rm --cached a` after an edit: stash, reset, up-to-date pull and re-apply end with an empty worktree. */
  lemma UntrackedDeleteLosesLocal(local: Bytes, committed: Bytes)
    requires local != committed
    ensures var status, snap := map["a" := FileStatus(Deleted, Untracked)],
                                Snapshot([StashFile("a", true, true)], map[], map["a" := committed], "t");
            var worktree, head := map["a" := local], map["a" := committed];
            && Records(snap, status, worktree, head) && StatusSound(status, worktree, head)
            && !Captures(snap, status, worktree)
            && AfterReset(head, worktree, head, status) && ReapplyYields(snap, head, map[])
  {
    var status, snap := map["a" := FileStatus(Deleted, Untracked)],
                        Snapshot([StashFile("a", true, true)], map[], map["a" := committed], "t");
    assert snap.files[0] in snap.files;
    assert "a" in ChangedPaths(status);
  }

  predicate AmongFirst(files: seq<StashFile>, n: nat, p: Path)
    requires n <= |files|
  {
    exists j :: 0 <= j < n && files[j].path == p
  }

  /** The first `n` entries are split into the paths put back and the paths in conflict. */
  ghost predicate Partition(snap: Snapshot, pulled: Tree, n: nat, restored: set<Path>, conflicted: set<Path>)
    requires n <= |snap.files|
  {
    && (forall j :: 0 <= j < n ==>
          && (snap.files[j].path in conflicted <==> Conflicts(snap, pulled, snap.files[j].path))
          && (snap.files[j].path in restored <==> !Conflicts(snap, pulled, snap.files[j].path)))
    && (forall p :: p in restored || p in conflicted ==> AmongFirst(snap.files, n, p))
  }

  lemma RestoredAreStashed(snap: Snapshot, pulled: Tree, n: nat, restored: set<Path>, conflicted: set<Path>)
    requires n <= |snap.files| && Partition(snap, pulled, n, restored, conflicted)
    ensures restored <= PathsOf(snap.files)
  {
    forall p | p in restored ensures p in PathsOf(snap.files) {
      assert AmongFirst(snap.files, n, p);
      var j :| 0 <= j < n && snap.files[j].path == p;
      assert snap.files[j] in snap.files;
    }
  }

  lemma FreshPath(snap: Snapshot, pulled: Tree, n: nat, restored: set<Path>, conflicted: set<Path>)
    requires n < |snap.files| && WellFormed(snap) && Partition(snap, pulled, n, restored, conflicted)
    ensures snap.files[n].path !in restored && snap.files[n].path !in conflicted
    ensures snap.files[n].deleted == (snap.files[n].path !in snap.local)
    ensures snap.files[n].hadBase == (snap.files[n].path in snap.base)
  {
    assert snap.files[n] in snap.files;
  }

  lemma PartitionOneMore(snap: Snapshot, pulled: Tree, n: nat, restored: set<Path>, conflicted: set<Path>)
    requires n < |snap.files| && WellFormed(snap) && Partition(snap, pulled, n, restored, conflicted)
    ensures Conflicts(snap, pulled, snap.files[n].path) ==> Partition(snap, pulled, n + 1, restored, conflicted + {snap.files[n].path})
    ensures !Conflicts(snap, pulled, snap.files[n].path) ==> Partition(snap, pulled, n + 1, restored + {snap.files[n].path}, conflicted)
  {
    FreshPath(snap, pulled, n, restored, conflicted);
    forall p | AmongFirst(snap.files, n, p) ensures AmongFirst(snap.files, n + 1, p) {
      var j :| 0 <= j < n && snap.files[j].path == p;
      assert snap.files[j].path == p;
    }
    assert AmongFirst(snap.files, n + 1, snap.files[n].path);
  }

  lemma PartitionAtEnd(snap: Snapshot, pulled: Tree, restored: set<Path>, conflicted: set<Path>)
    requires Partition(snap, pulled, |snap.files|, restored, conflicted)
    ensures conflicted == ConflictSet(snap, pulled)
    ensures restored == PathsOf(snap.files) - ConflictSet(snap, pulled)
  {
    forall p | p in PathsOf(snap.files)
      ensures p in conflicted <==> Conflicts(snap, pulled, p)
      ensures p in restored <==> !Conflicts(snap, pulled, p)
    {
      var f :| f in snap.files && f.path == p;
      var j :| 0 <= j < |snap.files| && snap.files[j] == f;
    }
    forall p | p in restored || p in conflicted ensures p in PathsOf(snap.files) {
      assert AmongFirst(snap.files, |snap.files|, p);
      var j :| 0 <= j < |snap.files| && snap.files[j].path == p;
      assert snap.files[j] in snap.files;
    }
  }

  /** The bytes `content` of `p` are in the worktree or in the snapshot kept at `stashPath`. */
  ghost predicate Kept(p: Path, content: Bytes, worktree: Tree, stashes: map<string, Snapshot>, stashPath: string) {
    || Lookup(worktree, p) == Some(content)
    || (stashPath in stashes && Lookup(stashes[stashPath].local, p) == Some(content))
  }

  /** Nothing but the snapshot `stashPath` and the conflict directory `createdAt` differs. */
  ghost predicate OnlyOwnNames(stashPath: string, createdAt: string, stashes: map<string, Snapshot>, conflicts: map<string, Tree>,
                               newStashes: map<string, Snapshot>, newConflicts: map<string, Tree>) {
    && (forall k :: k != stashPath ==> Lookup(newStashes, k) == Lookup(stashes, k))
    && (forall d :: d != createdAt ==> Lookup(newConflicts, d) == Lookup(conflicts, d))
  }

  /** One pull as the stores see it. */
  datatype PullRecord = PullRecord(stashPath: string, createdAt: string, nil: bool)
  datatype Stores = Stores(stashes: map<string, Snapshot>, conflicts: map<string, Tree>)

  /** A run of pulls, each of which does to the stores what PullWithStash promises. */
  ghost predicate IsRunOfPulls(stores: seq<Stores>, pulls: seq<PullRecord>) {
    && |stores| == |pulls| + 1
    && forall i :: 0 <= i < |pulls| ==> PullAt(stores, pulls, i)
  }

  ghost predicate PullAt(stores: seq<Stores>, pulls: seq<PullRecord>, i: nat)
    requires |stores| == |pulls| + 1 && i < |pulls|
  {
    && OnlyOwnNames(pulls[i].stashPath, pulls[i].createdAt, stores[i].stashes, stores[i].conflicts,
                    stores[i + 1].stashes, stores[i + 1].conflicts)
    && (pulls[i].nil ==> stores[i + 1].conflicts == stores[i].conflicts)
  }

  /**
   * What one pull stored is still there after any later ones: a snapshot as long as no pull uses its
   * name again, a conflict directory as long as none with its name ends in conflicts or a failure.
   */
  lemma {:induction false} StoredOutlivesPulls(stores: seq<Stores>, pulls: seq<PullRecord>, m: nat, n: nat, k: string, d: string)
    requires IsRunOfPulls(stores, pulls) && m <= n < |stores|
    ensures (forall i :: m <= i < n ==> pulls[i].stashPath != k) ==> Lookup(stores[n].stashes, k) == Lookup(stores[m].stashes, k)
    ensures (forall i :: m <= i < n ==> pulls[i].createdAt != d || pulls[i].nil) ==>
              Lookup(stores[n].conflicts, d) == Lookup(stores[m].conflicts, d)
  {
    if m < n {
      StoredOutlivesPulls(stores, pulls, m, n - 1, k, d);
      assert PullAt(stores, pulls, n - 1);
    }
  }

  /** Every locally changed file that was not deleted is kept. */
  ghost predicate AllKept(status: Status, before: Tree, worktree: Tree, stashes: map<string, Snapshot>, stashPath: string) {
    forall p :: p in ChangedPaths(status) && !MarkedDeleted(status[p]) && p in before ==>
      Kept(p, before[p], worktree, stashes, stashPath)
  }

  /** Every locally changed file that was not deleted is in the worktree or has its `.local` artifact. */
  ghost predicate AllStored(status: Status, before: Tree, worktree: Tree, dir: Tree) {
    forall p :: p in ChangedPaths(status) && !MarkedDeleted(status[p]) && p in before ==>
      Lookup(worktree, p) == Some(before[p]) || Lookup(dir, ArtifactName(p, Local)) == Some(before[p])
  }

  lemma ConflictStoresAll(snap: Snapshot, status: Status, before: Tree, head: Tree, pulled: Tree, worktree: Tree, was: Tree, dir: Tree)
    requires Records(snap, status, before, head)
    requires Overrides(worktree, pulled, snap, PathsOf(snap.files) - ConflictSet(snap, pulled))
    requires Stored(dir, was, snap, pulled, ConflictSet(snap, pulled))
    ensures AllStored(status, before, worktree, dir)
  {
    NoLocalChangeLost(snap, pulled, worktree, was, dir);
    forall p | p in ChangedPaths(status) && !MarkedDeleted(status[p]) && p in before
      ensures Lookup(worktree, p) == Some(before[p]) || Lookup(dir, ArtifactName(p, Local)) == Some(before[p])
    {
      assert Lookup(snap.local, p) == Some(before[p]);
    }
  }

  lemma SnapshotKeepsAll(snap: Snapshot, status: Status, before: Tree, head: Tree, worktree: Tree,
                         stashes: map<string, Snapshot>, stashPath: string)
    requires Records(snap, status, before, head) && stashPath in stashes && stashes[stashPath] == snap
    ensures AllKept(status, before, worktree, stashes, stashPath)
  {
    forall p | p in ChangedPaths(status) && !MarkedDeleted(status[p]) && p in before
      ensures Kept(p, before[p], worktree, stashes, stashPath)
    {
      assert Lookup(snap.local, p) == Some(before[p]);
    }
  }

  lemma OverrideKeepsAll(snap: Snapshot, status: Status, before: Tree, head: Tree, pulled: Tree, worktree: Tree,
                         stashes: map<string, Snapshot>, stashPath: string)
    requires Records(snap, status, before, head) && Overrides(worktree, pulled, snap, PathsOf(snap.files))
    ensures AllKept(status, before, worktree, stashes, stashPath)
  {
    forall p | p in ChangedPaths(status) && !MarkedDeleted(status[p]) && p in before
      ensures Kept(p, before[p], worktree, stashes, stashPath)
    {
      assert Lookup(worktree, p) == Lookup(snap.local, p);
    }
  }

  datatype FileResult = Restored | Conflicted | Broken

  /** What a pull does: it fails and may leave anything behind, finds nothing new, or brings in new trees. */
  datatype Incoming = Fails(worktree: Tree, head: Tree) | UpToDate | Brings(worktree: Tree, head: Tree)

  class GitManager {
    const reliable: bool
    var worktree: Tree
    var head: Tree
    var stashes: map<string, Snapshot>
    var conflicts: map<string, Tree>

    /** Copies one changed path and its HEAD version; None when a system call failed. */
    method StashOne(path: Path, fileStatus: FileStatus)
      returns (r: Option<StashFile>, localCopy: Option<Bytes>, baseCopy: Option<Bytes>)
      ensures reliable ==> r.Some?
      ensures r.Some? ==> r.value == StashFile(path, localCopy.None?, baseCopy.Some?)
      ensures r.Some? ==> localCopy == if MarkedDeleted(fileStatus) then None else Lookup(worktree, path)
      ensures r.Some? ==> baseCopy == Lookup(head, path)
    {
      var entry := StashFile(path, false, false);
      localCopy, baseCopy := None, None;
      if fileStatus.worktree == Deleted || fileStatus.staging == Deleted {
        entry := entry.(deleted := true);
      } else {
        var failed := MayFail(reliable);
        if failed { return None, None, None; }
        if path !in worktree {
          entry := entry.(deleted := true);
        } else {
          localCopy := Some(worktree[path]);
        }
      }
      if path in head {
        entry := entry.(hadBase := true);
        var failed := MayFail(reliable);
        if failed { return None, None, None; }
        baseCopy := Some(head[path]);
      }
      return Some(entry), localCopy, baseCopy;
    }

    /** The loop of createStash over the status map, in whatever order the map yields its paths. */
    method CollectEntries(status: Status) returns (ok: bool, files: seq<StashFile>, local: Tree, base: Tree)
      ensures reliable ==> ok
      ensures ok ==> Records(Snapshot(files, local, base, ""), status, worktree, head)
    {
      files, local, base := [], map[], map[];
      var todo := status.Keys;
      ghost var done: set<Path> := {};
      while todo != {}
        invariant todo <= status.Keys && done <= status.Keys
        invariant forall p :: p in status ==> (p in done <==> p !in todo && Changed(status[p]))
        invariant EntriesCover(files, done)
        invariant FlagsAgree(files, local, base)
        invariant CopiesMatch(local, base, done, status, worktree, head)
        decreases |todo|
      {
        var path :| path in todo;
        var fileStatus := status[path];
        if Changed(fileStatus) {
          var entry, localCopy, baseCopy := StashOne(path, fileStatus);
          if entry.None? { return false, [], map[], map[]; }
          CoverOneMore(files, done, entry.value);
          FlagsOneMore(files, local, base, done, entry.value, localCopy, baseCopy);
          CopiesOneMore(local, base, done, path, localCopy, baseCopy, status, worktree, head);
          files := files + [entry.value];
          local := Assign(local, path, localCopy);
          base := Assign(base, path, baseCopy);
          done := done + {path};
        }
        todo := todo - {path};
      }
      ok := true;
      assert done == ChangedPaths(status);
      RecordsWhenDone(Snapshot(files, local, base, ""), status, worktree, head);
    }

    /** Copies every changed path and its HEAD base into a new snapshot directory. */
    method CreateStash(status: Status, stashPath: string, createdAt: string) returns (r: Option<Snapshot>)
      modifies this`stashes
      ensures reliable ==> r.Some?
      ensures r.Some? ==> Records(r.value, status, worktree, head) && r.value.createdAt == createdAt
      ensures stashes == if r.Some? then old(stashes)[stashPath := r.value] else old(stashes)
    {
      var ok, files, local, base := CollectEntries(status);
      var failed := MayFail(reliable);
      if !ok || failed { return None; }
      var snap := Snapshot(files, local, base, createdAt);
      stashes := stashes[stashPath := snap];
      return Some(snap);
    }

    /** Writes the three artifacts of one conflicted path into a conflict directory. */
    method PersistConflictArtifacts(dir: string, path: Path, remote: Bytes, base: Bytes, local: Option<Bytes>, localDeleted: bool)
      returns (ok: bool)
      modifies this`conflicts
      ensures reliable ==> ok
      ensures ok ==> conflicts == old(conflicts)[dir := WithArtifacts(DirOrEmpty(old(conflicts), dir), path, remote, base, local, localDeleted)]
      ensures forall d :: d != dir ==> Lookup(conflicts, d) == Lookup(old(conflicts), d)
      ensures OnlyArtifactsOf(path, DirOrEmpty(old(conflicts), dir), DirOrEmpty(conflicts, dir))
    {
      ghost var before, dirs := DirOrEmpty(conflicts, dir), conflicts;
      ok := WriteArtifact(dir, path, Remote, if |remote| > 0 then remote else REMOTE_TOMBSTONE);
      if !ok { return; }
      ghost var t1 := before[ArtifactName(path, Remote) := if |remote| > 0 then remote else REMOTE_TOMBSTONE];
      assert conflicts == dirs[dir := t1];
      UpdatedTwice(dirs, dir, t1, if |base| > 0 then t1[ArtifactName(path, Base) := base] else t1);
      if |base| > 0 {
        ok := WriteArtifact(dir, path, Base, base);
        if !ok { return; }
      }
      ghost var t2 := if |base| > 0 then t1[ArtifactName(path, Base) := base] else t1;
      assert conflicts == dirs[dir := t2];
      UpdatedTwice(dirs, dir, t2, WithArtifacts(before, path, remote, base, local, localDeleted));
      ok := WriteArtifact(dir, path, Local,
        if localDeleted then LOCAL_TOMBSTONE else if local.Some? then local.value else LOCAL_MISSING);
    }

    /** os.WriteFile into a conflict directory; a failed write may leave a partial file. */
    method WriteArtifact(dir: string, path: Path, kind: Kind, content: Bytes) returns (ok: bool)
      modifies this`conflicts
      ensures reliable ==> ok
      ensures ok ==> conflicts == old(conflicts)[dir := DirOrEmpty(old(conflicts), dir)[ArtifactName(path, kind) := content]]
      ensures forall d :: d != dir ==> Lookup(conflicts, d) == Lookup(old(conflicts), d)
      ensures OnlyArtifactsOf(path, DirOrEmpty(old(conflicts), dir), DirOrEmpty(conflicts, dir))
    {
      var failed := MayFail(reliable);
      var written := Some(content);
      if failed { written := *; }
      conflicts := conflicts[dir := Assign(DirOrEmpty(conflicts, dir), ArtifactName(path, kind), written)];
      ok := !failed;
    }

    /** ensureConflictDir: creates the directory on first use and remembers it. */
    method EnsureConflictDir(current: Option<string>, createdAt: string) returns (dir: Option<string>)
      modifies this`conflicts
      ensures reliable ==> dir.Some?
      ensures dir.Some? ==> dir == if current.Some? then current else Some(createdAt)
      ensures forall d :: DirOrEmpty(conflicts, d) == DirOrEmpty(old(conflicts), d)
      ensures forall d :: d != createdAt ==> Lookup(conflicts, d) == Lookup(old(conflicts), d)
    {
      if current.Some? { return current; }
      var failed := MayFail(reliable);
      if failed { return None; }
      if createdAt !in conflicts {
        conflicts := conflicts[createdAt := map[]];
      }
      return Some(createdAt);
    }

    /** One iteration of the loop of applyStash. */
    method ApplyFile(file: StashFile, snap: Snapshot, conflictDir: Option<string>)
      returns (r: FileResult, dirOut: Option<string>)
      requires file.deleted == (file.path !in snap.local) && file.hadBase == (file.path in snap.base)
      requires conflictDir in {None, Some(snap.createdAt)}
      modifies this`worktree, this`conflicts
      ensures dirOut in {None, Some(snap.createdAt)}
      ensures reliable ==> r != Broken
      ensures r != Broken ==> (r == Conflicted <==> Conflicts(snap, old(worktree), file.path))
      ensures r == Restored ==>
        && worktree == Assign(old(worktree), file.path, Lookup(snap.local, file.path))
        && conflicts == old(conflicts) && dirOut == conflictDir
      ensures r == Conflicted ==> worktree == old(worktree) && dirOut == Some(snap.createdAt)
      ensures r == Conflicted ==> conflicts == old(conflicts)[snap.createdAt :=
        WithConflict(DirOrEmpty(old(conflicts), snap.createdAt), snap, old(worktree), file.path)]
      ensures forall q :: q != file.path ==> Lookup(worktree, q) == Lookup(old(worktree), q)
      ensures forall d :: d != snap.createdAt ==> Lookup(conflicts, d) == Lookup(old(conflicts), d)
    {
      r, dirOut := Broken, conflictDir;
      var target := file.path;
      var failed := MayFail(reliable);
      if failed { return; }
      var targetExists := target in worktree;
      var remoteBytes := if targetExists then worktree[target] else [];
      var baseBytes := if target in snap.base then snap.base[target] else [];
      var conflict: bool;
      if file.deleted {
        if !targetExists { return Restored, conflictDir; }
        var remoteUnchanged := file.hadBase && remoteBytes == baseBytes;
        conflict := !(remoteUnchanged || (!file.hadBase && |remoteBytes| == 0));
        if !conflict {
          worktree := worktree - {target};
          return Restored, conflictDir;
        }
      } else {
        var localBytes := snap.local[target];
        if targetExists && remoteBytes == localBytes { return Restored, conflictDir; }
        var remoteChanged := targetExists;
        if targetExists {
          if |baseBytes| > 0 {
            remoteChanged := remoteBytes != baseBytes;
          }
          if remoteBytes == localBytes {
            remoteChanged := false;
          }
        } else {
          remoteChanged := file.hadBase;
        }
        conflict := remoteChanged;
        if !conflict {
          failed := MayFail(reliable);
          if failed {
            var partial: Option<Bytes> := *;
            worktree := Assign(worktree, target, partial);
            return;
          }
          worktree := worktree[target := localBytes];
          return Restored, conflictDir;
        }
      }
      dirOut := EnsureConflictDir(conflictDir, snap.createdAt);
      if dirOut.None? { return; }
      ghost var after := WithConflict(DirOrEmpty(old(conflicts), snap.createdAt), snap, old(worktree), target);
      SameUpdate(conflicts, old(conflicts), snap.createdAt, after);
      var ok := PersistConflictArtifacts(snap.createdAt, target, remoteBytes, baseBytes, Lookup(snap.local, target), file.deleted);
      if ok { r := Conflicted; }
    }

    /** The loop of applyStash over all stashed files. */
    method ReapplyAll(snap: Snapshot) returns (broken: bool, pathSet: set<Path>, ghost restored: set<Path>, ghost atFault: Path)
      requires WellFormed(snap)
      modifies this`worktree, this`conflicts
      ensures reliable ==> !broken
      ensures !broken ==>
                && pathSet == ConflictSet(snap, old(worktree)) && restored == PathsOf(snap.files) - pathSet
                && Overrides(worktree, old(worktree), snap, restored)
                && Stored(DirOrEmpty(conflicts, snap.createdAt), DirOrEmpty(old(conflicts), snap.createdAt), snap, old(worktree), pathSet)
                && (pathSet == {} ==> conflicts == old(conflicts))
      ensures forall d :: d != snap.createdAt ==> Lookup(conflicts, d) == Lookup(old(conflicts), d)
      ensures broken ==> DamagedOnlyAt(atFault, worktree, old(worktree), snap)
    {
      ghost var pulled, before := worktree, DirOrEmpty(conflicts, snap.createdAt);
      var conflictDir: Option<string> := None;
      broken, pathSet, restored, atFault := false, {}, {}, "";
      for i := 0 to |snap.files|
        invariant conflictDir in {None, Some(snap.createdAt)}
        invariant Overrides(worktree, pulled, snap, restored)
        invariant Stored(DirOrEmpty(conflicts, snap.createdAt), before, snap, pulled, pathSet)
        invariant pathSet == {} ==> conflicts == old(conflicts)
        invariant conflictDir.None? <==> pathSet == {}
        invariant Partition(snap, pulled, i, restored, pathSet) && !broken
        invariant forall d :: d != snap.createdAt ==> Lookup(conflicts, d) == Lookup(old(conflicts), d)
      {
        var file := snap.files[i];
        FreshPath(snap, pulled, i, restored, pathSet);
        ghost var tree, was := DirOrEmpty(conflicts, snap.createdAt), worktree;
        var result: FileResult;
        result, conflictDir := ApplyFile(file, snap, conflictDir);
        PartitionOneMore(snap, pulled, i, restored, pathSet);
        match result
        case Broken =>
          RestoredAreStashed(snap, pulled, i, restored, pathSet);
          return true, {}, {}, file.path;
        case Restored =>
          OverridesOneMore(was, pulled, snap, restored, file.path, restored + {file.path});
          restored := restored + {file.path};
        case Conflicted =>
          StoredOneMore(tree, before, snap, pulled, pathSet, file.path, pathSet + {file.path});
          pathSet := pathSet + {file.path};
      }
      PartitionAtEnd(snap, pulled, restored, pathSet);
    }

    /**
     * Re-applies a snapshot to the pulled worktree.  Nil means the pulled tree with every stashed
     * version put back; a conflict leaves exactly the conflicting targets pulled, keeps the snapshot
     * and stores all three versions; `atFault` is the one path a failed call may have left damaged.
     */
    method ApplyStash(snap: Snapshot, stashPath: string) returns (r: Outcome, ghost atFault: Path)
      requires WellFormed(snap)
      modifies this`worktree, this`conflicts, this`stashes
      ensures reliable ==> !r.Failed? && (r.Nil? <==> ConflictSet(snap, old(worktree)) == {})
      ensures r.Nil? ==> ConflictSet(snap, old(worktree)) == {} && conflicts == old(conflicts)
      ensures r.Nil? ==> stashes == old(stashes) - {stashPath}
      ensures r.Nil? ==> Overrides(worktree, old(worktree), snap, PathsOf(snap.files))
      ensures r.ConflictError? ==> r.conflictDir == snap.createdAt && r.stashPath == stashPath && stashes == old(stashes)
      ensures r.ConflictError? ==> r.files != [] && StrictlySorted(r.files) && Elements(r.files) == ConflictSet(snap, old(worktree))
      ensures r.ConflictError? ==>
                Overrides(worktree, old(worktree), snap, PathsOf(snap.files) - ConflictSet(snap, old(worktree)))
      ensures r.ConflictError? ==>
                Stored(DirOrEmpty(conflicts, snap.createdAt), DirOrEmpty(old(conflicts), snap.createdAt), snap, old(worktree),
                       ConflictSet(snap, old(worktree)))
      ensures forall d :: d != snap.createdAt ==> Lookup(conflicts, d) == Lookup(old(conflicts), d)
      ensures stashes == old(stashes) || Overrides(worktree, old(worktree), snap, PathsOf(snap.files))
      ensures forall k :: k != stashPath ==> Lookup(stashes, k) == Lookup(old(stashes), k)
      ensures r.Failed? ==> DamagedOnlyAt(atFault, worktree, old(worktree), snap)
    {
      var pathSet: set<Path>;
      ghost var restored;
      var broken: bool;
      broken, pathSet, restored, atFault := ReapplyAll(snap);
      if broken { return Failed, atFault; }
      if pathSet != {} {
        var files := SortedListing(pathSet);
        return ConflictError(files, snap.createdAt, stashPath), "";
      }
      var failed := MayFail(reliable);
      if failed {
        var left: Snapshot := *;
        stashes := stashes[stashPath := left];
        return Failed, "";
      }
      stashes := stashes - {stashPath};
      return Nil, "";
    }

    method HardReset(status: Status) returns (ok: bool)
      modifies this`worktree
      ensures reliable ==> ok
      ensures ok ==> AfterReset(worktree, old(worktree), head, status)
    {
      var failed := MayFail(reliable);
      if failed {
        worktree := *;
        return false;
      }
      var kept: set<Path> := *;
      worktree := (map p | p in worktree && p !in head && (p !in ChangedPaths(status) || p in kept) :: worktree[p]) + head;
      return true;
    }

    method Pull(incoming: Incoming) returns (ok: bool)
      modifies this`worktree, this`head
      ensures ok <==> !incoming.Fails?
      ensures if incoming.UpToDate? then worktree == old(worktree) && head == old(head)
              else worktree == incoming.worktree && head == incoming.head
    {
      if !incoming.UpToDate? { worktree, head := incoming.worktree, incoming.head; }
      ok := !incoming.Fails?;
    }

    /** Stash local modifications, reset, pull, re-apply. */
    method PullWithStash(status: Status, stashPath: string, createdAt: string, incoming: Incoming)
      returns (r: Outcome, ghost snap: Option<Snapshot>, ghost pulled: Tree)
      modifies this
      ensures reliable ==> (r.Failed? <==> incoming.Fails?)
      ensures reliable && !incoming.Fails? && ChangedPaths(status) != {} ==>
                snap.Some? && (r.Nil? <==> ConflictSet(snap.value, pulled) == {})
      ensures incoming.Brings? && !r.Failed? ==> pulled == incoming.worktree
      ensures OnlyOwnNames(stashPath, createdAt, old(stashes), old(conflicts), stashes, conflicts)
      ensures r.Nil? ==> conflicts == old(conflicts)
      ensures r.ConflictError? ==> r.conflictDir == createdAt && r.stashPath == stashPath && r.files != [] && StrictlySorted(r.files)
      ensures head == old(head) || (!incoming.UpToDate? && head == incoming.head)
      ensures !r.Failed? ==> head == if incoming.UpToDate? then old(head) else incoming.head
      ensures incoming.UpToDate? && !r.Failed? && ChangedPaths(status) != {} ==> AfterReset(pulled, old(worktree), old(head), status)
      ensures snap.Some? ==> Records(snap.value, status, old(worktree), old(head)) && snap.value.createdAt == createdAt
      ensures r.Nil? && ChangedPaths(status) != {} ==> snap.Some? && Overrides(worktree, pulled, snap.value, PathsOf(snap.value.files))
      ensures r.Nil? ==> forall p :: p in ChangedPaths(status) && !MarkedDeleted(status[p]) ==>
                Lookup(worktree, p) == Lookup(old(worktree), p)
      ensures r.Nil? ==> forall p :: p in ChangedPaths(status) && MarkedDeleted(status[p]) ==> p !in worktree
      ensures r.Nil? && ChangedPaths(status) != {} ==> stashPath !in stashes
      ensures r.Nil? && ChangedPaths(status) == {} ==> worktree == pulled
      ensures r.ConflictError? ==> snap.Some? && stashPath in stashes && stashes[stashPath] == snap.value
      ensures r.ConflictError? ==>
                && Elements(r.files) == ConflictSet(snap.value, pulled)
                && Overrides(worktree, pulled, snap.value, PathsOf(snap.value.files) - ConflictSet(snap.value, pulled))
      ensures r.ConflictError? ==>
                Stored(DirOrEmpty(conflicts, createdAt), DirOrEmpty(old(conflicts), createdAt), snap.value, pulled,
                       ConflictSet(snap.value, pulled))
      ensures r.Failed? && snap.Some? ==>
                || Lookup(stashes, stashPath) == Some(snap.value)
                || Overrides(worktree, pulled, snap.value, PathsOf(snap.value.files))
      ensures r.Failed? && snap.None? && ChangedPaths(status) != {} ==> worktree == old(worktree)
      ensures AllKept(status, old(worktree), worktree, stashes, stashPath)
      ensures r.ConflictError? ==> AllStored(status, old(worktree), worktree, DirOrEmpty(conflicts, createdAt))
      ensures r.Nil? && incoming.UpToDate? && ChangedPaths(status) == {} ==> worktree == old(worktree)
      ensures incoming.UpToDate? && StatusSound(status, old(worktree), old(head)) && NoneAtRisk(status, old(worktree), old(head))
              ==> !r.ConflictError? && (r.Nil? ==> worktree == old(worktree))
    {
      snap, pulled := None, worktree;
      ghost var before, base := worktree, head;
      var stash: Option<Snapshot> := None;
      if ChangedPaths(status) != {} {
        stash := CreateStash(status, stashPath, createdAt);
        if stash.None? { return Failed, snap, pulled; }
        snap := stash;
        var ok := HardReset(status);
        SnapshotKeepsAll(stash.value, status, before, base, worktree, stashes, stashPath);
        if !ok { return Failed, snap, pulled; }
      }
      ghost var reset := worktree;
      var ok := Pull(incoming);
      pulled := worktree;
      if !ok {
        if stash.Some? { SnapshotKeepsAll(stash.value, status, before, base, worktree, stashes, stashPath); }
        return Failed, snap, pulled;
      }
      if stash.Some? {
        ghost var atFault, kept, dir := "", stashes, DirOrEmpty(conflicts, createdAt);
        ghost var taken := stash.value;
        assert dir == DirOrEmpty(old(conflicts), createdAt);
        r, atFault := ApplyStash(stash.value, stashPath);
        if stashes == kept {
          SnapshotKeepsAll(stash.value, status, before, base, worktree, stashes, stashPath);
        } else {
          OverrideKeepsAll(stash.value, status, before, base, pulled, worktree, stashes, stashPath);
        }
        if r.ConflictError? {
          ElementsEmpty(r.files);
          assert Stored(DirOrEmpty(conflicts, createdAt), dir, taken, pulled, ConflictSet(taken, pulled));
          ConflictStoresAll(taken, status, before, base, pulled, worktree, dir, DirOrEmpty(conflicts, createdAt));
        }
        if incoming.UpToDate? && StatusSound(status, before, base) && NoneAtRisk(status, before, base) {
          UpToDateRestores(stash.value, status, before, base, reset, worktree);
        }
      } else {
        r := Nil;
      }
    }
  }
}
