/**
 * `dsm add` and `dsm link --force`: backup, move and link, with rollback.  Any system call may fail,
 * and a failed copy may leave any bytes at its destination.
 */
module FileTransactions {
  import opened Common

  datatype Node = File(data: Bytes) | Link(dest: Path)
  type Nodes = map<Path, Node>

  /** The path that opening `p` reaches: a symlink is followed to its destination. */
  function Resolve(nodes: Nodes, p: Path): Path {
    if p in nodes && nodes[p].Link? then nodes[p].dest else p
  }

  function ReadThrough(nodes: Nodes, p: Path): Option<Bytes> {
    var q := Resolve(nodes, p);
    if q in nodes && nodes[q].File? then Some(nodes[q].data) else None
  }

  predicate HoldsBytes(nodes: Nodes, p: Path, data: Bytes) {
    Lookup(nodes, p) == Some(File(data))
  }

  ghost predicate SameElsewhere(a: Nodes, b: Nodes, changed: set<Path>) {
    forall p :: p !in changed ==> Lookup(a, p) == Lookup(b, p)
  }

  /*---------- Copying ----------*/

  datatype CopyFault = NoFault | SourceUnreadable | TargetUnwritable | Partial(left: Bytes)

  /** copyFile: open the source, truncate the destination (through a symlink), copy. */
  function Copied(nodes: Nodes, src: Path, dst: Path, fault: CopyFault): (Nodes, bool) {
    if fault.SourceUnreadable? || fault.TargetUnwritable? || ReadThrough(nodes, src).None? then (nodes, false)
    else
      var d := Resolve(nodes, dst);
      match fault
      case Partial(left) => (nodes[d := File(left)], false)
      case _ => (nodes[d := File(if Resolve(nodes, src) == d then [] else ReadThrough(nodes, src).value)], true)
  }

  function RemovedUnless(nodes: Nodes, p: Path, fails: bool): Nodes {
    if fails then nodes else nodes - {p}
  }

  /*---------- Rollback after the configuration could not be saved ----------*/

  datatype RollbackFaults = RollbackFaults(
    removeLink: bool,
    copyBackup: CopyFault,
    removeBackup: bool,
    copyTarget: CopyFault,
    removeTarget: bool
  )

  /** The state an add transaction hands over: the link is in place, repository copy and backup hold the bytes. */
  predicate Added(nodes: Nodes, file: Path, target: Path, backup: Path, data: Bytes) {
    && file != target && file != backup && target != backup
    && Lookup(nodes, file) == Some(Link(target))
    && HoldsBytes(nodes, target, data) && HoldsBytes(nodes, backup, data)
  }

  /** The original bytes are still in a regular file somewhere the user is told to look. */
  predicate Survives(nodes: Nodes, file: Path, target: Path, backup: Path, data: Bytes) {
    HoldsBytes(nodes, file, data) || HoldsBytes(nodes, target, data) || HoldsBytes(nodes, backup, data)
  }

  /** What the two flags tell the user is so. */
  predicate ReportTrue(nodes: Nodes, restored: bool, backupRetained: bool, file: Path, backup: Path, data: Bytes) {
    && (restored ==> HoldsBytes(nodes, file, data))
    && (backupRetained <==> HoldsBytes(nodes, backup, data))
  }

  /** rollbackAfterConfigFailure: the files it leaves and the two flags it reports. */
  function Rollback(nodes: Nodes, file: Path, target: Path, backup: Path, f: RollbackFaults): (Nodes, bool, bool) {
    var n1 := RemovedUnless(nodes, file, f.removeLink);
    var (n2, fromBackup) := Copied(n1, backup, file, f.copyBackup);
    var n3 := if fromBackup then RemovedUnless(n2, backup, f.removeBackup) else n2;
    var retained := !fromBackup || f.removeBackup || backup !in n2;
    var (n4, fromTarget) := if fromBackup then (n3, false) else Copied(n3, target, file, f.copyTarget);
    var restored := fromBackup || fromTarget;
    (if restored then RemovedUnless(n4, target, f.removeTarget) else n4, restored, retained)
  }

  /**
   * The bytes are lost in exactly one pattern: the symlink cannot be removed, so the backup is copied
   * through it onto the repository copy, and then backup and repository copy are both removed.
   */
  predicate LosesBytes(f: RollbackFaults) {
    f.removeLink && f.copyBackup.NoFault? && !f.removeBackup && !f.removeTarget
  }

  /** The report is right unless the symlink stayed and a copy went through it. */
  predicate ReportsTruly(f: RollbackFaults) {
    f.removeLink ==> !f.copyBackup.NoFault? && !f.copyTarget.NoFault?
  }

  /**
   * What the rollback restores when the symlink could be removed: the file is back exactly when one of
   * the two copies worked, and what is cleaned up is exactly what could be removed after that.
   */
  predicate RolledBack(nodes: Nodes, restored: bool, file: Path, target: Path, backup: Path, f: RollbackFaults, data: Bytes) {
    && (restored <==> f.copyBackup.NoFault? || f.copyTarget.NoFault?)
    && (restored ==> HoldsBytes(nodes, file, data))
    && (target !in nodes <==> restored && !f.removeTarget)
    && (backup !in nodes <==> f.copyBackup.NoFault? && !f.removeBackup)
    && (target in nodes ==> HoldsBytes(nodes, target, data))
    && (backup in nodes ==> HoldsBytes(nodes, backup, data))
  }

  lemma RollbackRestores(nodes: Nodes, file: Path, target: Path, backup: Path, f: RollbackFaults, data: Bytes)
    requires Added(nodes, file, target, backup, data) && !f.removeLink
    ensures var (after, restored, retained) := Rollback(nodes, file, target, backup, f);
            RolledBack(after, restored, file, target, backup, f, data)
  {
  }

  /** For every fault pattern: whether the bytes survive the rollback and whether its report is true. */
  lemma RollbackVerdict(nodes: Nodes, file: Path, target: Path, backup: Path, f: RollbackFaults, data: Bytes)
    requires Added(nodes, file, target, backup, data)
    ensures var (after, restored, retained) := Rollback(nodes, file, target, backup, f);
            && (Survives(after, file, target, backup, data) <==> !LosesBytes(f))
            && (ReportTrue(after, restored, retained, file, backup, data) <==> ReportsTruly(f))
            && SameElsewhere(after, nodes, {file, target, backup})
  {
  }

  /*---------- Faults of the add and link transactions ----------*/

  datatype RestoreFaults = RestoreFaults(stat: bool, removeOld: bool, mkdir: bool, copy: CopyFault)

  /** What goes wrong from the removal of the original on. */
  datatype LinkFaults = LinkFaults(remove: bool, rel: bool, link: bool, restore: RestoreFaults, removeTarget: bool)

  /** Restoring to a path where nothing is works. */
  predicate Restores(f: RestoreFaults) {
    !f.stat && !f.mkdir && f.copy.NoFault?
  }

  predicate Links(f: LinkFaults) {
    !f.remove && !f.rel && !f.link
  }

  /**
   * The state after a failed second half: the original is there again exactly as the faults allow, the
   * repository copy is gone if it could be removed, and the backup is reported exactly when it is needed.
   */
  predicate Undone(nodes: Nodes, backupCreated: bool, file: Path, target: Path, f: LinkFaults, data: Bytes) {
    && (f.remove || Restores(f.restore) ==> HoldsBytes(nodes, file, data))
    && (backupCreated <==> f.remove || !Restores(f.restore))
    && (target in nodes <==> f.removeTarget)
  }

  class FileSystem {
    const reliable: bool
    var nodes: Nodes

    constructor (reliable: bool, nodes: Nodes)
      ensures this.reliable == reliable && this.nodes == nodes
    {
      this.reliable, this.nodes := reliable, nodes;
    }

    /**
     * A success makes the destination read as the source did, unless both are the same file, which the
     * truncation empties; only the file the destination reaches ever changes.
     */
    method CopyFile(src: Path, dst: Path, fault: CopyFault) returns (ok: bool)
      modifies this
      ensures SameElsewhere(nodes, old(nodes), {Resolve(old(nodes), dst)})
      ensures ok ==> ReadThrough(old(nodes), src).Some?
      ensures ok && Resolve(old(nodes), src) != Resolve(old(nodes), dst) ==>
                ReadThrough(nodes, dst) == ReadThrough(old(nodes), src) && ReadThrough(nodes, src) == ReadThrough(old(nodes), src)
      ensures ok && Resolve(old(nodes), src) == Resolve(old(nodes), dst) ==> ReadThrough(nodes, dst) == Some([])
      ensures !ok && !fault.Partial? ==> nodes == old(nodes)
      ensures (nodes, ok) == Copied(old(nodes), src, dst, fault)
    {
      if fault.SourceUnreadable? || fault.TargetUnwritable? { return false; }
      var data := ReadThrough(nodes, src);
      if data.None? { return false; }
      var from, into := Resolve(nodes, src), Resolve(nodes, dst);
      if fault.Partial? {
        nodes := nodes[into := File(fault.left)];
        return false;
      }
      nodes := nodes[into := File(if from == into then [] else data.value)];
      return true;
    }

    method AnyFault() returns (fault: CopyFault)
      ensures reliable ==> fault == NoFault
    {
      fault := *;
      if reliable { fault := NoFault; }
    }

    method Remove(p: Path, fails: bool) returns (ok: bool)
      modifies this
      ensures nodes == RemovedUnless(old(nodes), p, fails)
      ensures ok == (!fails && p in old(nodes))
    {
      ok := !fails && p in nodes;
      if !fails {
        nodes := nodes - {p};
      }
    }

    /** rollbackAfterConfigFailure on a completed add: every fault pattern, with the flags it reports. */
    method RollbackAfterConfigFailure(file: Path, target: Path, backup: Path, f: RollbackFaults, ghost data: Bytes)
      returns (restored: bool, backupRetained: bool)
      requires Added(nodes, file, target, backup, data)
      modifies this
      ensures (nodes, restored, backupRetained) == Rollback(old(nodes), file, target, backup, f)
      ensures Survives(nodes, file, target, backup, data) <==> !LosesBytes(f)
      ensures ReportTrue(nodes, restored, backupRetained, file, backup, data) <==> ReportsTruly(f)
      ensures !f.removeLink ==> RolledBack(nodes, restored, file, target, backup, f, data)
      ensures SameElsewhere(nodes, old(nodes), {file, target, backup})
    {
      RollbackVerdict(nodes, file, target, backup, f, data);
      if !f.removeLink { RollbackRestores(nodes, file, target, backup, f, data); }
      restored, backupRetained := false, true;
      var removed := Remove(file, f.removeLink);
      var copied := CopyFile(backup, file, f.copyBackup);
      if copied {
        restored := true;
        backupRetained := false;
        var gone := Remove(backup, f.removeBackup);
        if !gone { backupRetained := true; }
      }
      if !restored {
        copied := CopyFile(target, file, f.copyTarget);
        if copied { restored := true; }
      }
      if restored {
        removed := Remove(target, f.removeTarget);
      }
    }

    /*---------- dsm add ----------*/

    /** BackupExisting with the claimed name `backup`: the bytes of a regular file, or nothing but that name touched. */
    method BackupExisting(file: Path, backup: Path) returns (ok: bool)
      requires backup !in nodes && file != backup
      modifies this
      ensures reliable ==> (ok <==> ReadThrough(old(nodes), file).Some?)
      ensures SameElsewhere(nodes, old(nodes), {backup})
      ensures ok ==> ReadThrough(old(nodes), file).Some? && HoldsBytes(nodes, backup, ReadThrough(old(nodes), file).value)
    {
      var failed := MayFail(reliable);
      if failed || ReadThrough(nodes, file).None? { return false; }
      nodes := nodes[backup := File([])];
      var fault := AnyFault();
      ok := CopyFile(file, backup, fault);
      if !ok {
        var stuck := MayFail(reliable);
        var _ := Remove(backup, stuck);
      }
    }

    /** CreateFileSecurely: exclusive creation; a failed write may leave a partial file behind. */
    method CreateFileSecurely(target: Path, data: Bytes) returns (ok: bool)
      modifies this
      ensures reliable ==> (ok <==> target !in old(nodes))
      ensures SameElsewhere(nodes, old(nodes), {target})
      ensures target in old(nodes) ==> !ok && nodes == old(nodes)
      ensures ok ==> HoldsBytes(nodes, target, data)
    {
      if target in nodes { return false; }
      var failed := MayFail(reliable);
      if failed { return false; }
      failed := MayFail(reliable);
      if failed {
        var left: Bytes := *;
        nodes := nodes[target := File(left)];
        var stuck := MayFail(reliable);
        var _ := Remove(target, stuck);
        return false;
      }
      nodes := nodes[target := File(data)];
      return true;
    }

    /** Manager.CreateLink; `fails` is a call that goes wrong although nothing stands in the way. */
    method CreateLink(source: Path, file: Path, fails: bool) returns (ok: bool)
      modifies this
      ensures ok <==> !fails && source in old(nodes) && file !in old(nodes)
      ensures nodes == if ok then old(nodes)[file := Link(source)] else old(nodes)
    {
      if fails || source !in nodes || file in nodes { return false; }
      nodes := nodes[file := Link(source)];
      return true;
    }

    /** Manager.RestoreFromBackup for a regular backup file; the backup stays. */
    method RestoreFromBackup(backup: Path, file: Path, f: RestoreFaults) returns (ok: bool)
      requires backup in nodes && nodes[backup].File? && backup != file
      modifies this
      ensures SameElsewhere(nodes, old(nodes), {file})
      ensures file !in old(nodes) || !f.removeOld ==> (ok <==> Restores(f))
      ensures ok ==> Lookup(nodes, file) == Lookup(old(nodes), backup)
    {
      if f.stat { return false; }
      if file in nodes {
        if f.removeOld { return false; }
        nodes := nodes - {file};
      }
      if f.mkdir { return false; }
      ok := CopyFile(backup, file, f.copy);
    }

    /**
     * executeAddTransaction.  At every exit the bytes are at the source, in the repository or in the
     * backup; an existing repository file is never touched; success means the link is in place.  `f`
     * is what goes wrong once the repository copy exists.
     */
    method ExecuteAddTransaction(file: Path, target: Path, backup: Path, f: LinkFaults, ghost data: Bytes)
      returns (ok: bool, backupCreated: bool)
      requires file != target && file != backup && target != backup && backup !in nodes
      requires HoldsBytes(nodes, file, data)
      modifies this
      ensures reliable ==> (ok <==> target !in old(nodes) && Links(f))
      ensures Survives(nodes, file, target, backup, data)
      ensures ok ==> backupCreated && Added(nodes, file, target, backup, data) && target !in old(nodes)
      ensures backupCreated ==> HoldsBytes(nodes, backup, data)
      ensures !ok && !backupCreated ==> HoldsBytes(nodes, file, data)
      ensures reliable && target !in old(nodes) && !Links(f) ==> Undone(nodes, backupCreated, file, target, f, data)
      ensures !ok && target !in old(nodes) && (f.remove || Restores(f.restore)) ==> HoldsBytes(nodes, file, data)
      ensures target in old(nodes) ==> HoldsBytes(nodes, file, data) && Lookup(nodes, target) == Lookup(old(nodes), target)
      ensures SameElsewhere(nodes, old(nodes), {file, target, backup})
    {
      var backedUp := BackupExisting(file, backup);
      if !backedUp { return false, false; }
      assert Lookup(nodes, file) == Lookup(old(nodes), file);
      assert Lookup(nodes, target) == Lookup(old(nodes), target);
      backupCreated := true;
      var failed := MayFail(reliable);
      if failed { return false, backupCreated; }
      failed := MayFail(reliable);
      if failed { return false, backupCreated; }
      var sourceData := ReadThrough(nodes, file).value;
      var created := CreateFileSecurely(target, sourceData);
      if !created { return false, backupCreated; }
      ok, backupCreated := ReplaceByLink(file, target, backup, f, data);
    }

    /** The second half: remove the original, link it, and undo on failure. */
    method ReplaceByLink(file: Path, target: Path, backup: Path, f: LinkFaults, ghost data: Bytes)
      returns (ok: bool, backupCreated: bool)
      requires file != target && file != backup && target != backup
      requires HoldsBytes(nodes, file, data) && HoldsBytes(nodes, target, data) && HoldsBytes(nodes, backup, data)
      modifies this
      ensures ok <==> Links(f)
      ensures !ok ==> Undone(nodes, backupCreated, file, target, f, data)
      ensures HoldsBytes(nodes, backup, data)
      ensures ok ==> backupCreated && Added(nodes, file, target, backup, data)
      ensures !ok && !backupCreated ==> HoldsBytes(nodes, file, data)
      ensures SameElsewhere(nodes, old(nodes), {file, target})
    {
      backupCreated := true;
      var removed := Remove(file, f.remove);
      if !removed {
        var _ := Remove(target, f.removeTarget);
        return false, backupCreated;
      }
      if f.rel {
        var _ := Remove(target, f.removeTarget);
        ghost var left := nodes;
        var restored := RestoreFromBackup(backup, file, f.restore);
        assert Lookup(nodes, target) == Lookup(left, target);
        return false, !restored;
      }
      ok := CreateLink(target, file, f.link);
      if !ok {
        ghost var left := nodes;
        var restored := RestoreFromBackup(backup, file, f.restore);
        assert Lookup(nodes, target) == Lookup(left, target);
        if restored { backupCreated := false; }
        var _ := Remove(target, f.removeTarget);
      }
    }

    /**
     * executeAddTransaction and updateAndSaveConfig: only the lossy rollback pattern can lose the
     * bytes.  When the mapping path cannot be computed the add fails without any rollback.
     */
    method RunAdd(file: Path, target: Path, backup: Path, links: LinkFaults, relFails: bool, configSaved: bool, f: RollbackFaults,
                  ghost data: Bytes)
      returns (ok: bool)
      requires file != target && file != backup && target != backup && backup !in nodes
      requires HoldsBytes(nodes, file, data)
      modifies this
      ensures reliable ==> (ok <==> target !in old(nodes) && Links(links) && !relFails && configSaved)
      ensures ok ==> configSaved && Added(nodes, file, target, backup, data)
      ensures !Survives(nodes, file, target, backup, data) ==> !configSaved && LosesBytes(f)
      ensures reliable && target !in old(nodes) && Links(links) && relFails ==> Added(nodes, file, target, backup, data)
      ensures reliable && target !in old(nodes) && Links(links) && !relFails && !configSaved && !f.removeLink ==>
                RolledBack(nodes, f.copyBackup.NoFault? || f.copyTarget.NoFault?, file, target, backup, f, data)
      ensures target in old(nodes) ==> HoldsBytes(nodes, file, data) && Lookup(nodes, target) == Lookup(old(nodes), target)
      ensures SameElsewhere(nodes, old(nodes), {file, target, backup})
    {
      var backupCreated: bool;
      ok, backupCreated := ExecuteAddTransaction(file, target, backup, links, data);
      if !ok { return false; }
      if relFails { return false; }
      if !configSaved {
        var restored, retained := RollbackAfterConfigFailure(file, target, backup, f, data);
        return false;
      }
    }

    /*---------- dsm link --force ----------*/

    /**
     * The force path for a regular file at the target.  With a backup the bytes are at the target or
     * in the backup at every exit, and back at the target when only the link failed; without one they
     * are gone as soon as the file has been removed.
     */
    method LinkForce(source: Path, target: Path, backup: Path, noBackup: bool, f: LinkFaults, ghost data: Bytes)
      returns (ok: bool, removed: bool)
      requires source != target && target != backup && source != backup && backup !in nodes
      requires HoldsBytes(nodes, target, data)
      modifies this
      ensures reliable ==> (ok <==> source in old(nodes) && !f.remove && !f.link)
      ensures ok ==> Lookup(nodes, target) == Some(Link(source))
      ensures !noBackup ==> HoldsBytes(nodes, target, data) || HoldsBytes(nodes, backup, data)
      ensures !noBackup && !ok && (!removed || Restores(f.restore)) ==> HoldsBytes(nodes, target, data)
      ensures noBackup ==> (HoldsBytes(nodes, target, data) <==> !removed)
      ensures SameElsewhere(nodes, old(nodes), {target, backup})
    {
      ok, removed := false, false;
      var unknown := MayFail(reliable);
      if unknown || source !in nodes { return; }
      if !noBackup {
        var backedUp := BackupExisting(target, backup);
        if !backedUp {
          assert Lookup(nodes, target) == Lookup(old(nodes), target);
          return false, removed;
        }
      }
      assert Lookup(nodes, target) == Lookup(old(nodes), target);
      assert Lookup(nodes, source) == Lookup(old(nodes), source);
      removed := Remove(target, f.remove);
      if !removed { return false, removed; }
      ok := CreateLink(source, target, f.link);
      if !ok && !noBackup {
        var restored := RestoreFromBackup(backup, target, f.restore);
      }
    }
  }
}
