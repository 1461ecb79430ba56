/** The table from repository files to their targets, and the path checks that guard it. */
module Mappings {
  import opened Common
  import opened Text
  import opened Paths

  /*---------- Path checks ----------*/

  /** The check that the cleaned repository path does not begin with two dots. */
  predicate Escapes(repoPath: Path) {
    CleanRel(repoPath) != [] && StartsDotDot(CleanRel(repoPath)[0])
  }

  /** The check that a target is outside the repository: its relative path begins with two dots. */
  predicate LooksOutside(repo: Parts, target: Parts) {
    Rel(repo, target) != [] && StartsDotDot(Rel(repo, target)[0])
  }

  /** The outside check is right except for a target directly below the repository whose name begins with two dots. */
  lemma OutsideCheck(repo: Parts, target: Parts)
    ensures LooksOutside(repo, target) <==>
            !(repo <= target) || (|target| > |repo| && StartsDotDot(target[|repo|]))
  {
    CommonOfPrefix(repo, target);
    var k := CommonLength(repo, target);
    if k < |repo| { assert Rel(repo, target)[0] == ".."; }
  }

  /** A repository path that passes the check, resolved against the repository, stays inside it. */
  lemma AcceptedKeyStaysInside(repo: Parts, repoPath: Path)
    requires !Escapes(repoPath)
    ensures Clean(repo, PartsOf(repoPath), true) == repo + CleanRel(repoPath)
  {
    assert repo + [] == repo;
    WalkFrom(repo, [], PartsOf(repoPath));
  }

  /*---------- The table ----------*/

  predicate ValidateMapping(repo: Path, repoPath: Path, target: Path) {
    && repoPath != "" && !IsAbs(repoPath)
    && !Escapes(repoPath)
    && IsAbs(target)
    && LooksOutside(CleanAbs(repo), CleanAbs(target))
  }

  /** A file directly below the repository whose name begins with two dots, such as `..x`, is accepted as a target. */
  lemma DottedTargetAccepted(repo: Path, key: Path, name: string)
    requires IsAbs(repo) && key != "" && !IsAbs(key) && !Escapes(key)
    requires '/' !in name && StartsDotDot(name) && name != ".."
    ensures var target := repo + "/" + name;
            CleanAbs(target) == CleanAbs(repo) + [name] && ValidateMapping(repo, key, target)
  {
    var target := repo + "/" + name;
    SplitAtSeparator(repo, name, '/');
    SplitWithout(name, '/');
    assert PartsOf(target) == PartsOf(repo) + [name];
    CleanConcat([], PartsOf(repo), [name], true);
    assert [name][1..] == [] && name[..2][0] == '.' && name[..2][1] == '.';
    assert CleanAbs(target) == CleanAbs(repo) + [name];
    OutsideCheck(CleanAbs(repo), CleanAbs(target));
    assert target[..1] == repo[..1];
  }

  type Table = map<Path, Path>

  /** No key is empty; each target is absolute and belongs to one key. */
  ghost predicate ValidTable(m: Table) {
    && "" !in m
    && (forall k :: k in m ==> IsAbs(m[k]))
    && (forall k, l :: k in m && l in m && m[k] == m[l] ==> k == l)
  }

  /** A key that denotes the repository or something inside it. */
  predicate GoodKey(repo: Path, k: Path) {
    k != "" && !IsAbs(k) && CleanAbs(repo) <= Clean(CleanAbs(repo), PartsOf(k), true)
  }

  predicate TakenByOther(m: Table, target: Path, except: Path) {
    exists k :: k in m && k != except && m[k] == target
  }

  datatype Op =
    | Add(repoPath: Path, target: Path, saved: bool)
    | Update(repoPath: Path, target: Path, saved: bool)
    | Remove(repoPath: Path, saved: bool)

  /** The table in memory after an operation; only a failed Add is taken back. */
  function Apply(repo: Path, m: Table, op: Op): Table {
    match op
    case Add(k, t, saved) =>
      if ValidateMapping(repo, k, t) && k !in m && !TakenByOther(m, t, "") && saved then m[k := t] else m
    case Update(k, t, saved) =>
      if k in m && m[k] != t && ValidateMapping(repo, k, t) && !TakenByOther(m, t, k) then m[k := t] else m
    case Remove(k, saved) => m - {k}
  }

  /** An operation touches no key but its own, and a removed key is gone. */
  lemma OtherKeysStay(repo: Path, m: Table, op: Op, k: Path)
    ensures k != op.repoPath ==> Lookup(Apply(repo, m, op), k) == Lookup(m, k)
    ensures op.Remove? ==> op.repoPath !in Apply(repo, m, op)
    ensures op.Update? ==> (op.repoPath in Apply(repo, m, op) <==> op.repoPath in m)
  {
  }

  /** What validation accepts, in terms of where key and target lie. */
  lemma ValidationMeans(repo: Path, repoPath: Path, target: Path)
    ensures var inside, key := CleanAbs(repo), CleanRel(repoPath);
            ValidateMapping(repo, repoPath, target) <==>
              && repoPath != "" && !IsAbs(repoPath) && (key == [] || !StartsDotDot(key[0]))
              && IsAbs(target)
              && (!(inside <= CleanAbs(target))
                  || (|CleanAbs(target)| > |inside| && StartsDotDot(CleanAbs(target)[|inside|])))
  {
    OutsideCheck(CleanAbs(repo), CleanAbs(target));
  }

  lemma ApplyKeepsTable(repo: Path, m: Table, op: Op)
    requires ValidTable(m)
    ensures ValidTable(Apply(repo, m, op))
    ensures forall k :: k in Apply(repo, m, op) ==> k in m || GoodKey(repo, k)
  {
    if op.Add? && !Escapes(op.repoPath) {
      AcceptedKeyStaysInside(CleanAbs(repo), op.repoPath);
    }
  }

  function Run(repo: Path, m: Table, ops: seq<Op>): Table {
    if ops == [] then m else Apply(repo, Run(repo, m, ops[..|ops| - 1]), ops[|ops| - 1])
  }

  /**
   * Whatever operations run and whichever saves fail: targets stay absolute and pairwise distinct,
   * and every key that was not there at the start denotes the repository or something inside it.
   */
  lemma {:induction false} RunsKeepTable(repo: Path, m: Table, ops: seq<Op>)
    requires ValidTable(m)
    ensures ValidTable(Run(repo, m, ops))
    ensures forall k :: k in Run(repo, m, ops) ==> k in m || GoodKey(repo, k)
  {
    if ops != [] {
      RunsKeepTable(repo, m, ops[..|ops| - 1]);
      ApplyKeepsTable(repo, Run(repo, m, ops[..|ops| - 1]), ops[|ops| - 1]);
    }
  }

  class Manager {
    const reliable: bool
    const repo: Path
    var mappings: Table

    constructor (reliable: bool, repo: Path, mappings: Table)
      ensures this.reliable == reliable
      ensures this.repo == repo && this.mappings == mappings
    {
      this.reliable, this.repo, this.mappings := reliable, repo, mappings;
    }

    /** checkTargetConflict: inverts the table in whatever order the map yields its entries. */
    method CheckTargetConflict(target: Path, exclude: Path) returns (r: Option<Path>)
      ensures r.Some? <==> TakenByOther(mappings, target, exclude)
      ensures r.Some? ==> r.value in mappings && r.value != exclude && mappings[r.value] == target
    {
      var targetPathMap: map<Path, Path> := map[];
      var todo := mappings.Keys;
      while todo != {}
        invariant todo <= mappings.Keys
        invariant forall t :: t in targetPathMap ==>
                    targetPathMap[t] in mappings && targetPathMap[t] != exclude && mappings[targetPathMap[t]] == t
        invariant forall k :: k in mappings && k !in todo && k != exclude ==> mappings[k] in targetPathMap
        decreases |todo|
      {
        var k :| k in todo;
        todo := todo - {k};
        if k != exclude {
          targetPathMap := targetPathMap[mappings[k] := k];
        }
      }
      r := Lookup(targetPathMap, target);
    }

    method AddMapping(repoPath: Path, target: Path) returns (ok: bool, ghost saved: bool)
      modifies this
      ensures mappings == Apply(repo, old(mappings), Add(repoPath, target, saved))
      ensures !ok ==> mappings == old(mappings)
      ensures ok ==> Lookup(mappings, repoPath) == Some(target) && repoPath !in old(mappings)
      ensures forall k :: k != repoPath ==> Lookup(mappings, k) == Lookup(old(mappings), k)
      ensures reliable ==>
                (ok <==> ValidateMapping(repo, repoPath, target) && repoPath !in old(mappings) && !TakenByOther(old(mappings), target, ""))
    {
      saved := false;
      if !ValidateMapping(repo, repoPath, target) || repoPath in mappings { return false, saved; }
      var conflict := CheckTargetConflict(target, "");
      if conflict.Some? { return false, saved; }
      mappings := mappings[repoPath := target];
      var failed := MayFail(reliable);
      if failed {
        mappings := mappings - {repoPath};
        assert mappings == old(mappings);
        return false, false;
      }
      return true, true;
    }

    method UpdateMapping(repoPath: Path, target: Path) returns (ok: bool, ghost saved: bool)
      modifies this
      ensures mappings == Apply(repo, old(mappings), Update(repoPath, target, saved))
      ensures ok ==> Lookup(mappings, repoPath) == Some(target)
      ensures reliable ==> (ok <==> Lookup(mappings, repoPath) == Some(target))
      ensures Lookup(mappings, repoPath) == Some(target) <==>
                repoPath in old(mappings)
                && (old(mappings)[repoPath] == target
                    || (ValidateMapping(repo, repoPath, target) && !TakenByOther(old(mappings), target, repoPath)))
      ensures Lookup(mappings, repoPath) in {Lookup(old(mappings), repoPath), Some(target)}
      ensures forall k :: k != repoPath ==> Lookup(mappings, k) == Lookup(old(mappings), k)
    {
      saved := false;
      if repoPath !in mappings { return false, saved; }
      if mappings[repoPath] == target { return true, saved; }
      if !ValidateMapping(repo, repoPath, target) { return false, saved; }
      var conflict := CheckTargetConflict(target, repoPath);
      if conflict.Some? { return false, saved; }
      mappings := mappings[repoPath := target];
      var failed := MayFail(reliable);
      return !failed, !failed;
    }

    method RemoveMapping(repoPath: Path) returns (ok: bool, ghost saved: bool)
      modifies this
      ensures mappings == Apply(repo, old(mappings), Remove(repoPath, saved))
      ensures ok ==> repoPath in old(mappings)
      ensures reliable ==> (ok <==> repoPath in old(mappings))
      ensures repoPath !in mappings
      ensures forall k :: k != repoPath ==> Lookup(mappings, k) == Lookup(old(mappings), k)
    {
      saved := false;
      if repoPath !in mappings {
        assert mappings - {repoPath} == mappings;
        return false, saved;
      }
      mappings := mappings - {repoPath};
      var failed := MayFail(reliable);
      return !failed, !failed;
    }

    /** unlink's scan for the key of a target; in a valid table there is at most one to find. */
    method FindByTarget(target: Path) returns (r: Option<Path>)
      requires ValidTable(mappings)
      ensures r.None? ==> target !in mappings.Values
      ensures r.Some? ==> forall k :: k in mappings && mappings[k] == target <==> k == r.value
    {
      var todo := mappings.Keys;
      while todo != {}
        invariant todo <= mappings.Keys && forall k :: k in mappings && k !in todo ==> mappings[k] != target
        decreases |todo|
      {
        var k :| k in todo;
        if mappings[k] == target { return Some(k); }
        todo := todo - {k};
      }
      return None;
    }
  }
}
