/** What the conflict service reads back is what re-applying the stash stored. */
module ReadBack {
  import opened Common
  import opened Text
  import opened Artifacts
  import opened Stash
  import opened ConflictStore

  lemma StoredNames(tree: Tree, snap: Snapshot, pulled: Tree, paths: set<Path>, f: Path)
    requires Stored(tree, map[], snap, pulled, paths)
    ensures ArtifactName(f, Remote) in tree <==> f in paths
  {
    if f in paths {
      assert HoldsArtifact(tree, map[], snap, pulled, f, Remote);
    } else {
      forall p, k | p in paths ensures ArtifactName(f, Remote) != ArtifactName(p, k) {
        ArtifactNameInjective(f, Remote, p, k);
      }
      assert IsNoArtifact(ArtifactName(f, Remote), paths);
    }
  }

  /** In a store with one conflict directory the service lists the slash-free conflicted files and no others. */
  lemma ListsTheConflicts(parse: TimeParser, t: string, tree: Tree, snap: Snapshot, pulled: Tree, listing: seq<Path>)
    requires parse(t).Some? && Stored(tree, map[], snap, pulled, ConflictSet(snap, pulled))
    requires IsListing(parse, map[t := tree], listing)
    ensures forall f :: f in listing <==> f in ConflictSet(snap, pulled) && SlashFree(f)
  {
    var dirs := map[t := tree];
    forall f ensures f in listing <==> f in ConflictSet(snap, pulled) && SlashFree(f) {
      StoredNames(tree, snap, pulled, ConflictSet(snap, pulled), f);
      if f in ConflictSet(snap, pulled) { assert Holds(parse, dirs, t, f); }
      if f in listing {
        assert Listed(parse, dirs, f);
        var d :| Holds(parse, dirs, d, f);
      }
    }
  }

  /** With slash-free paths GetConflicts returns ConflictError.Files, in the same order. */
  lemma ListingIsConflictErrorFiles(parse: TimeParser, t: string, tree: Tree, snap: Snapshot, pulled: Tree,
                                    files: seq<Path>, listing: seq<Path>)
    requires parse(t).Some? && Stored(tree, map[], snap, pulled, ConflictSet(snap, pulled))
    requires StrictlySorted(files) && Elements(files) == ConflictSet(snap, pulled)
    requires IsListing(parse, map[t := tree], listing)
    ensures listing == files <==> forall f :: f in files ==> SlashFree(f)
  {
    ListsTheConflicts(parse, t, tree, snap, pulled, listing);
    assert forall f :: f in files <==> f in Elements(files);
    if forall f :: f in files ==> SlashFree(f) {
      SortedListingUnique(listing, files);
    }
  }

  /**
   * Each stored version reads back exactly when it was there to store: a deleted local, a missing or
   * empty remote and an empty base are the only versions that do not.
   */
  lemma VersionsReadBack(tree: Tree, snap: Snapshot, pulled: Tree, p: Path)
    requires Stored(tree, map[], snap, pulled, ConflictSet(snap, pulled)) && p in ConflictSet(snap, pulled)
    ensures Lookup(tree, ArtifactName(p, Local)) == Lookup(snap.local, p) <==> p in snap.local
    ensures Lookup(tree, ArtifactName(p, Remote)) == Lookup(pulled, p) <==> p in pulled && pulled[p] != []
    ensures Lookup(tree, ArtifactName(p, Base)) == Lookup(snap.base, p) <==> Lookup(snap.base, p) != Some([])
    ensures Lookup(tree, ArtifactName(p, Local)) == Some(LOCAL_TOMBSTONE) <==>
            p !in snap.local || snap.local[p] == LOCAL_TOMBSTONE
  {
    assert HoldsArtifact(tree, map[], snap, pulled, p, Local);
    assert HoldsArtifact(tree, map[], snap, pulled, p, Remote);
    assert HoldsArtifact(tree, map[], snap, pulled, p, Base);
  }

  /** What the listing says of a conflicted file: whether a base was kept, and whether it was deleted locally. */
  lemma InfoReadsBack(parse: TimeParser, t: string, tree: Tree, snap: Snapshot, pulled: Tree, p: Path)
    requires parse(t).Some? && Stored(tree, map[], snap, pulled, ConflictSet(snap, pulled)) && p in ConflictSet(snap, pulled)
    ensures Holds(parse, map[t := tree], t, p)
    ensures var info := InfoOf(parse, map[t := tree], t, p);
            && info.file == p && info.detectedAt == parse(t).value
            && (info.hasBase <==> p in snap.base && snap.base[p] != [])
            && (info.isDeleted <==> p !in snap.local || snap.local[p] == LOCAL_TOMBSTONE)
  {
    StoredNames(tree, snap, pulled, ConflictSet(snap, pulled), p);
    assert HoldsArtifact(tree, map[], snap, pulled, p, Local);
    assert HoldsArtifact(tree, map[], snap, pulled, p, Base);
  }

  /**
   * From the conflict to its resolution: UseLocal leaves the local version at the target exactly when
   * the file was not deleted locally, and UseRemote the pulled one exactly when it exists and is not
   * empty; otherwise the target gets the text of the tombstone.
   */
  lemma ChosenVersionReachesTarget(parse: TimeParser, dirs: Dirs, was: Tree, snap: Snapshot, pulled: Tree, p: Path, kind: Kind,
                                   target: Path, before: Tree, after: Tree)
    requires kind != Base && p in ConflictSet(snap, pulled) && LatestDir(parse, dirs, p).Some?
    requires Stored(dirs[LatestDir(parse, dirs, p).value], was, snap, pulled, ConflictSet(snap, pulled))
    requires Installed(parse, dirs, p, kind, target, before, after)
    ensures kind == Local ==>
              && (Lookup(after, target) == Lookup(snap.local, p) <==> p in snap.local)
              && (p !in snap.local ==> after[target] == LOCAL_TOMBSTONE)
    ensures kind == Remote ==>
              && (Lookup(after, target) == Lookup(pulled, p) <==> p in pulled && pulled[p] != [])
              && (p !in pulled || pulled[p] == [] ==> after[target] == REMOTE_TOMBSTONE)
  {
    assert HoldsArtifact(dirs[LatestDir(parse, dirs, p).value], was, snap, pulled, p, kind);
  }
}
