/** Names and contents of the files kept for one conflicted path. */
module Artifacts {
  import opened Common

  datatype Kind = Local | Remote | Base

  function Suffix(kind: Kind): string {
    match kind
    case Local => ".local"
    case Remote => ".remote"
    case Base => ".base"
  }

  function ArtifactName(path: Path, kind: Kind): string {
    path + Suffix(kind)
  }

  /** Two artifacts share a name only if they are the same artifact of the same path. */
  lemma ArtifactNameInjective(p: Path, k: Kind, q: Path, l: Kind)
    ensures ArtifactName(p, k) == ArtifactName(q, l) ==> p == q && k == l
  {
    var a, b := ArtifactName(p, k), ArtifactName(q, l);
    if a == b {
      assert a[|a| - 1] == Suffix(k)[|Suffix(k)| - 1] && b[|b| - 1] == Suffix(l)[|Suffix(l)| - 1];
      assert a[|a| - 2] == Suffix(k)[|Suffix(k)| - 2] && b[|b| - 2] == Suffix(l)[|Suffix(l)| - 2];
      assert k == l;
      assert p == a[..|a| - |Suffix(k)|] && q == b[..|b| - |Suffix(l)|];
    }
  }

  const REMOTE_TOMBSTONE: Bytes := AsciiBytes("<<remote deleted>>\n")
  const LOCAL_TOMBSTONE: Bytes := AsciiBytes("<<local deleted file>>\n")
  const LOCAL_MISSING: Bytes := AsciiBytes("<<local data missing>>\n")

  /** The three texts that stand for missing versions can be told apart, and no artifact is mistaken for another kind. */
  lemma TextsAndNamesSpelled(path: Path)
    ensures |REMOTE_TOMBSTONE| == 19 && |LOCAL_TOMBSTONE| == 23 && |LOCAL_MISSING| == 23
    ensures LOCAL_TOMBSTONE != LOCAL_MISSING && REMOTE_TOMBSTONE != LOCAL_TOMBSTONE && REMOTE_TOMBSTONE != LOCAL_MISSING
    ensures ArtifactName(path, Local) == path + ".local" && ArtifactName(path, Remote) == path + ".remote"
    ensures ArtifactName(path, Base) == path + ".base"
  {
    assert LOCAL_TOMBSTONE[8] == 'd' as byte && LOCAL_MISSING[8] == 'd' as byte;
    assert LOCAL_TOMBSTONE[9] == 'e' as byte && LOCAL_MISSING[9] == 'a' as byte;
  }

  /** Nothing but the artifacts of `path` changed. */
  ghost predicate OnlyArtifactsOf(path: Path, before: Tree, after: Tree) {
    forall n :: n != ArtifactName(path, Remote) && n != ArtifactName(path, Base) && n != ArtifactName(path, Local) ==>
      Lookup(after, n) == Lookup(before, n)
  }

  /** A conflict directory after the artifacts of one path are written into it. */
  function WithArtifacts(tree: Tree, path: Path, remote: Bytes, base: Bytes, local: Option<Bytes>, localDeleted: bool): Tree {
    var t1 := tree[ArtifactName(path, Remote) := if |remote| > 0 then remote else REMOTE_TOMBSTONE];
    var t2 := if |base| > 0 then t1[ArtifactName(path, Base) := base] else t1;
    t2[ArtifactName(path, Local) :=
      if localDeleted then LOCAL_TOMBSTONE else if local.Some? then local.value else LOCAL_MISSING]
  }
}
