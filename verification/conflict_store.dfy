/** The conflict service: it reads back and resolves the artifacts that re-applying a stash leaves. */
module ConflictStore {
  import opened Common
  import opened Text
  import opened Artifacts
  import Mappings

  /** time.Parse on a directory name; None for names that are no timestamp. */
  type TimeParser = string -> Option<int>
  type Dirs = map<string, Tree>

  datatype ConflictInfo = ConflictInfo(file: Path, detectedAt: int, hasBase: bool, isDeleted: bool)

  /** The answer of findLatestConflictDir; its callers treat the last two alike. */
  datatype Search = Found(dir: string) | NotFound | Unreadable

  datatype ConflictDetails = ConflictDetails(local: Bytes, remote: Bytes, base: Option<Bytes>)

  predicate SlashFree(name: string) {
    '/' !in name
  }

  /*---------- Which directory speaks for a file ----------*/

  predicate Holds(parse: TimeParser, dirs: Dirs, d: string, f: Path) {
    d in dirs && parse(d).Some? && ArtifactName(f, Remote) in dirs[d]
  }

  /** `d` is the newest directory holding `f`; on equal times the first in name order. */
  ghost predicate IsLatest(parse: TimeParser, dirs: Dirs, d: string, f: Path) {
    && Holds(parse, dirs, d, f)
    && forall e :: Holds(parse, dirs, e, f) ==>
         parse(e).value < parse(d).value || (parse(e).value == parse(d).value && !Less(e, d))
  }

  lemma LatestUnique(parse: TimeParser, dirs: Dirs, d: string, e: string, f: Path)
    requires IsLatest(parse, dirs, d, f) && IsLatest(parse, dirs, e, f)
    ensures d == e
  {
    LessTotal(d, e);
  }

  ghost predicate Listed(parse: TimeParser, dirs: Dirs, f: Path) {
    SlashFree(f) && exists d :: Holds(parse, dirs, d, f)
  }

  function InfoOf(parse: TimeParser, dirs: Dirs, d: string, f: Path): ConflictInfo
    requires Holds(parse, dirs, d, f)
  {
    ConflictInfo(f, parse(d).value, ArtifactName(f, Base) in dirs[d],
                 Lookup(dirs[d], ArtifactName(f, Local)) == Some(LOCAL_TOMBSTONE))
  }

  /** The best candidate among the first `n` directory entries, as both scans keep it. */
  ghost predicate BestAmong(parse: TimeParser, dirs: Dirs, entries: seq<string>, n: nat, k: nat, f: Path)
    requires n <= |entries|
  {
    && k < n && Holds(parse, dirs, entries[k], f)
    && forall j :: 0 <= j < n && Holds(parse, dirs, entries[j], f) ==>
         && parse(entries[j]).value <= parse(entries[k]).value
         && (j < k ==> parse(entries[j]).value < parse(entries[k]).value)
  }

  lemma BestIsLatest(parse: TimeParser, dirs: Dirs, entries: seq<string>, k: nat, f: Path)
    requires StrictlySorted(entries) && Elements(entries) == dirs.Keys
    requires BestAmong(parse, dirs, entries, |entries|, k, f)
    ensures IsLatest(parse, dirs, entries[k], f)
  {
    forall e | Holds(parse, dirs, e, f)
      ensures parse(e).value < parse(entries[k]).value || (parse(e).value == parse(entries[k]).value && !Less(e, entries[k]))
    {
      assert e in Elements(entries);
      var j :| 0 <= j < |entries| && entries[j] == e;
      LessTotal(entries[j], entries[k]);
    }
  }

  ghost predicate ScanState(parse: TimeParser, dirs: Dirs, entries: seq<string>, n: nat, latest: Option<nat>, f: Path)
    requires n <= |entries|
  {
    match latest
    case None => forall j :: 0 <= j < n ==> !Holds(parse, dirs, entries[j], f)
    case Some(k) => BestAmong(parse, dirs, entries, n, k, f)
  }

  /*---------- Resolving ----------*/

  const KINDS := [Local, Remote, Base]

  /** The names of the first `n` kinds of artifact, in the order they are deleted. */
  function NamesUpTo(f: Path, n: nat): set<string>
    requires n <= |KINDS|
  {
    if n == 0 then {} else NamesUpTo(f, n - 1) + {ArtifactName(f, KINDS[n - 1])}
  }

  lemma ArtifactNames(f: Path)
    ensures NamesUpTo(f, 3) == {ArtifactName(f, Local), ArtifactName(f, Remote), ArtifactName(f, Base)}
    ensures NamesUpTo(f, 0) <= NamesUpTo(f, 1) <= NamesUpTo(f, 2) <= NamesUpTo(f, 3)
  {
    assert NamesUpTo(f, 1) == {ArtifactName(f, Local)};
    assert NamesUpTo(f, 2) == {ArtifactName(f, Local), ArtifactName(f, Remote)};
  }

  lemma OnlyNamesUpTo(f: Path, n: nat, tree: Tree)
    requires n <= |KINDS|
    ensures OnlyArtifactsOf(f, tree, tree - NamesUpTo(f, n))
  {
    ArtifactNames(f);
  }

  /** The store after the artifacts of `f` are removed from `d`, and `d` itself if that empties it. */
  function WithoutArtifacts(dirs: Dirs, d: string, f: Path): Dirs
    requires d in dirs
  {
    var rest := dirs[d] - NamesUpTo(f, |KINDS|);
    if rest == map[] then dirs - {d} else dirs[d := rest]
  }

  /** The contents of one artifact, None when the artifact or its directory is not there. */
  function EntryAt(dirs: Dirs, d: string, n: string): Option<Bytes> {
    if d in dirs then Lookup(dirs[d], n) else None
  }

  /** A name that is no artifact of this file. */
  ghost predicate IsOther(n: string, file: Path) {
    forall k :: n != ArtifactName(file, k)
  }

  lemma WhatRemains(dirs: Dirs, d: string, f: Path)
    requires d in dirs
    ensures forall k :: EntryAt(WithoutArtifacts(dirs, d, f), d, ArtifactName(f, k)) == None
    ensures d in WithoutArtifacts(dirs, d, f) <==> exists n :: n in dirs[d] && IsOther(n, f)
  {
    ArtifactNames(f);
    var rest := dirs[d] - NamesUpTo(f, |KINDS|);
    forall n ensures n in rest <==> n in dirs[d] && IsOther(n, f) {
      assert n == ArtifactName(f, Local) || n == ArtifactName(f, Remote) || n == ArtifactName(f, Base) <==> !IsOther(n, f);
    }
    if n :| n in rest {
      assert n in dirs[d] && IsOther(n, f);
    }
  }

  /** Only artifacts of `files` were removed; everything else in the store is as before. */
  ghost predicate OnlyArtifactsGone(files: seq<Path>, before: Dirs, after: Dirs) {
    forall d, n :: EntryAt(after, d, n) == EntryAt(before, d, n)
      || (EntryAt(after, d, n) == None && exists f, k :: f in files && n == ArtifactName(f, k))
  }

  lemma OneMoreGone(files: seq<Path>, i: nat, before: Dirs, mid: Dirs, after: Dirs)
    requires i < |files| && OnlyArtifactsGone(files[..i], before, mid) && OnlyArtifactsGone([files[i]], mid, after)
    ensures OnlyArtifactsGone(files[..i + 1], before, after)
  {
    forall d, n ensures EntryAt(after, d, n) == EntryAt(before, d, n)
      || (EntryAt(after, d, n) == None && exists f, k :: f in files[..i + 1] && n == ArtifactName(f, k))
    {
      if EntryAt(after, d, n) != EntryAt(mid, d, n) {
        var f, k :| f in [files[i]] && n == ArtifactName(f, k);
        assert f in files[..i + 1];
      } else if EntryAt(mid, d, n) != EntryAt(before, d, n) {
        var f, k :| f in files[..i] && n == ArtifactName(f, k);
        assert f in files[..i + 1];
      }
    }
  }

  ghost function LatestDir(parse: TimeParser, dirs: Dirs, f: Path): (r: Option<string>)
    ensures r.Some? ==> IsLatest(parse, dirs, r.value, f)
    ensures forall d :: IsLatest(parse, dirs, d, f) ==> r == Some(d)
  {
    if d :| IsLatest(parse, dirs, d, f) then
      assert forall e :: IsLatest(parse, dirs, e, f) ==> e == d by {
        forall e | IsLatest(parse, dirs, e, f) ensures e == d { LatestUnique(parse, dirs, d, e, f); }
      }
      Some(d)
    else None
  }

  lemma {:induction false} BestExists(parse: TimeParser, dirs: Dirs, entries: seq<string>, n: nat, f: Path) returns (k: nat)
    requires n <= |entries| && exists j :: 0 <= j < n && Holds(parse, dirs, entries[j], f)
    ensures BestAmong(parse, dirs, entries, n, k, f)
  {
    if exists j :: 0 <= j < n - 1 && Holds(parse, dirs, entries[j], f) {
      k := BestExists(parse, dirs, entries, n - 1, f);
      if Holds(parse, dirs, entries[n - 1], f) && parse(entries[n - 1]).value > parse(entries[k]).value {
        k := n - 1;
      }
    } else {
      k := n - 1;
    }
  }

  /** One directory entry: it becomes the latest when it holds the file and is strictly newer. */
  lemma ScanStep(parse: TimeParser, dirs: Dirs, entries: seq<string>, n: nat, latest: Option<nat>, f: Path)
    requires n < |entries| && ScanState(parse, dirs, entries, n, latest, f)
    ensures ScanState(parse, dirs, entries, n + 1,
              if Holds(parse, dirs, entries[n], f)
                 && (latest.None? || parse(entries[n]).value > parse(entries[latest.value]).value)
              then Some(n) else latest, f)
  {
  }

  lemma ScanDone(parse: TimeParser, dirs: Dirs, entries: seq<string>, latest: Option<nat>, f: Path)
    requires StrictlySorted(entries) && Elements(entries) == dirs.Keys
    requires ScanState(parse, dirs, entries, |entries|, latest, f)
    ensures LatestDir(parse, dirs, f) == if latest.Some? then Some(entries[latest.value]) else None
  {
    if latest.Some? {
      BestIsLatest(parse, dirs, entries, latest.value, f);
    } else {
      forall d ensures !Holds(parse, dirs, d, f) {
        if d in dirs { assert d in Elements(entries); }
      }
    }
  }

  lemma LatestExists(parse: TimeParser, dirs: Dirs, d: string, f: Path)
    requires Holds(parse, dirs, d, f)
    ensures LatestDir(parse, dirs, f).Some?
  {
    var entries := SortedOf(dirs.Keys);
    assert d in Elements(entries);
    var k := BestExists(parse, dirs, entries, |entries|, f);
    BestIsLatest(parse, dirs, entries, k, f);
  }

  /** The directory that was the file's latest holds it no more. */
  ghost predicate LeftLatest(parse: TimeParser, before: Dirs, after: Dirs, f: Path) {
    LatestDir(parse, before, f).Some? ==> EntryAt(after, LatestDir(parse, before, f).value, ArtifactName(f, Remote)) == None
  }

  lemma LeftStays(files: seq<Path>, parse: TimeParser, before: Dirs, mid: Dirs, after: Dirs, f: Path)
    requires LeftLatest(parse, before, mid, f) && OnlyArtifactsGone(files, mid, after)
    ensures LeftLatest(parse, before, after, f)
  {
    var d := LatestDir(parse, before, f);
    if d.Some? { assert EntryAt(after, d.value, ArtifactName(f, Remote)) == None; }
  }

  /** As long as only other files are resolved, a file keeps its latest directory. */
  lemma UntouchedLatest(parse: TimeParser, files: seq<Path>, before: Dirs, mid: Dirs, f: Path)
    requires f !in files && OnlyArtifactsGone(files, before, mid)
    ensures LatestDir(parse, mid, f) == LatestDir(parse, before, f)
  {
    forall d ensures d in Holders(parse, mid, f) <==> d in Holders(parse, before, f) {
      var n := ArtifactName(f, Remote);
      forall g, k | g in files ensures n != ArtifactName(g, k) { ArtifactNameInjective(f, Remote, g, k); }
      assert EntryAt(mid, d, n) == EntryAt(before, d, n);
    }
    SameHoldersSameLatest(parse, before, mid, f);
  }

  /** Every file that can be removed has left the directory that was its latest. */
  ghost predicate AllLeftLatest(parse: TimeParser, before: Dirs, after: Dirs, files: seq<Path>, stuck: set<Path>) {
    forall f :: f in files && f !in stuck ==> LeftLatest(parse, before, after, f)
  }

  lemma LeftOneMore(parse: TimeParser, before: Dirs, mid: Dirs, after: Dirs, files: seq<Path>, i: nat, stuck: set<Path>)
    requires i < |files| && OnlyArtifactsGone(files[..i], before, mid) && OnlyArtifactsGone([files[i]], mid, after)
    requires AllLeftLatest(parse, before, mid, files[..i], stuck)
    requires files[i] !in stuck ==> LeftLatest(parse, mid, after, files[i])
    ensures AllLeftLatest(parse, before, after, files[..i + 1], stuck)
  {
    assert files[..i + 1] == files[..i] + [files[i]];
    forall f | f in files[..i + 1] && f !in stuck ensures LeftLatest(parse, before, after, f) {
      if f in files[..i] {
        LeftStays([files[i]], parse, before, mid, after, f);
      } else {
        UntouchedLatest(parse, files[..i], before, mid, f);
      }
    }
  }

  /** Marking one file resolved; a file without a conflict is skipped. */
  ghost function ResolveOne(parse: TimeParser, dirs: Dirs, f: Path): Dirs {
    var d := LatestDir(parse, dirs, f);
    if d.Some? then WithoutArtifacts(dirs, d.value, f) else dirs
  }

  ghost function ResolveAll(parse: TimeParser, dirs: Dirs, files: seq<Path>): Dirs {
    if files == [] then dirs
    else ResolveOne(parse, ResolveAll(parse, dirs, files[..|files| - 1]), files[|files| - 1])
  }

  function Holders(parse: TimeParser, dirs: Dirs, f: Path): set<string> {
    set d | d in dirs && Holds(parse, dirs, d, f)
  }

  lemma HoldersAfterOne(parse: TimeParser, dirs: Dirs, f: Path, g: Path)
    ensures Holders(parse, ResolveOne(parse, dirs, f), g) ==
            if g == f && LatestDir(parse, dirs, f).Some? then Holders(parse, dirs, f) - {LatestDir(parse, dirs, f).value}
            else Holders(parse, dirs, g)
  {
    var d := LatestDir(parse, dirs, f);
    if d.Some? {
      ArtifactNameInjective(g, Remote, f, Local);
      ArtifactNameInjective(g, Remote, f, Remote);
      ArtifactNameInjective(g, Remote, f, Base);
      ArtifactNames(f);
      var rest := dirs[d.value] - NamesUpTo(f, 3);
      assert ArtifactName(g, Remote) in rest <==> ArtifactName(g, Remote) in dirs[d.value] && g != f;
    }
  }

  /** One pass over distinct files takes each of them out of exactly one directory, and no other file out of any. */
  lemma {:induction false} HoldersAfterAll(parse: TimeParser, dirs: Dirs, files: seq<Path>, g: Path)
    requires StrictlySorted(files)
    ensures Holders(parse, ResolveAll(parse, dirs, files), g) ==
            if g in files && LatestDir(parse, dirs, g).Some? then Holders(parse, dirs, g) - {LatestDir(parse, dirs, g).value}
            else Holders(parse, dirs, g)
  {
    if files != [] {
      var last, front := files[|files| - 1], files[..|files| - 1];
      var mid := ResolveAll(parse, dirs, front);
      HoldersAfterAll(parse, dirs, front, g);
      HoldersAfterOne(parse, mid, last, g);
      LessTotal(last, last);
      if g == last {
        assert last !in front;
        SameHoldersSameLatest(parse, dirs, mid, last);
      }
    }
  }

  /** Which directory is the latest for `f` depends only on which directories hold it. */
  lemma SameHoldersSameLatest(parse: TimeParser, dirs: Dirs, mid: Dirs, f: Path)
    requires Holders(parse, mid, f) == Holders(parse, dirs, f)
    ensures LatestDir(parse, mid, f) == LatestDir(parse, dirs, f)
  {
    forall e ensures Holds(parse, mid, e, f) == Holds(parse, dirs, e, f) {
      assert e in Holders(parse, mid, f) <==> e in Holders(parse, dirs, f);
    }
    var a, b := LatestDir(parse, dirs, f), LatestDir(parse, mid, f);
    if a.Some? { assert IsLatest(parse, mid, a.value, f); }
    if b.Some? { assert IsLatest(parse, dirs, b.value, f); }
  }

  /** The file's latest directory holds its artifact of this kind. */
  ghost predicate CanUse(parse: TimeParser, dirs: Dirs, file: Path, kind: Kind) {
    LatestDir(parse, dirs, file).Some? && ArtifactName(file, kind) in dirs[LatestDir(parse, dirs, file).value]
  }

  /** Some file's artifact of one kind, from its latest directory, is now the content of `target`. */
  ghost predicate Installed(parse: TimeParser, dirs: Dirs, file: Path, kind: Kind, target: Path, before: Tree, after: Tree) {
    && CanUse(parse, dirs, file, kind)
    && after == before[target := dirs[LatestDir(parse, dirs, file).value][ArtifactName(file, kind)]]
  }

  ghost predicate IsListing(parse: TimeParser, dirs: Dirs, files: seq<Path>) {
    StrictlySorted(files) && forall f :: f in files <==> Listed(parse, dirs, f)
  }

  /** A history of passes, each resolving everything the store lists at that moment. */
  ghost predicate IsMarkAllHistory(parse: TimeParser, states: seq<Dirs>, listings: seq<seq<Path>>) {
    && |states| == |listings| + 1
    && forall i :: 0 <= i < |listings| ==>
         IsListing(parse, states[i], listings[i]) && states[i + 1] == ResolveAll(parse, states[i], listings[i])
  }

  /** After n passes every listed file has lost exactly n of its directories, as long as it had that many. */
  lemma {:induction false} HoldersAfterPasses(parse: TimeParser, states: seq<Dirs>, listings: seq<seq<Path>>, n: nat, f: Path)
    requires IsMarkAllHistory(parse, states, listings) && n < |states| && SlashFree(f)
    ensures |Holders(parse, states[n], f)| ==
            if |Holders(parse, states[0], f)| <= n then 0 else |Holders(parse, states[0], f)| - n
  {
    if n > 0 {
      HoldersAfterPasses(parse, states, listings, n - 1, f);
      var before := states[n - 1];
      HoldersAfterAll(parse, before, listings[n - 1], f);
      if d :| d in Holders(parse, before, f) {
        LatestExists(parse, before, d, f);
        assert Holds(parse, before, d, f);
        assert f in listings[n - 1];
        assert LatestDir(parse, before, f).value in Holders(parse, before, f);
      } else {
        assert Holders(parse, before, f) == {};
      }
    }
  }

  /**
   * Repeating MarkAllResolved ends with nothing listed exactly when it is repeated at least as often
   * as the largest number of directories that hold one file.
   */
  lemma MarkAllTerminates(parse: TimeParser, states: seq<Dirs>, listings: seq<seq<Path>>, n: nat)
    requires IsMarkAllHistory(parse, states, listings) && n < |states|
    ensures (forall f :: !Listed(parse, states[n], f)) <==>
            (forall f :: SlashFree(f) ==> |Holders(parse, states[0], f)| <= n)
  {
    forall f: Path | SlashFree(f)
      ensures Listed(parse, states[n], f) <==> |Holders(parse, states[0], f)| > n
    {
      HoldersAfterPasses(parse, states, listings, n, f);
      if Listed(parse, states[n], f) {
        var d :| Holds(parse, states[n], d, f);
        assert d in Holders(parse, states[n], f);
      }
      if |Holders(parse, states[n], f)| > 0 {
        var d :| d in Holders(parse, states[n], f);
        assert Holds(parse, states[n], d, f);
      }
    }
  }

  /*---------- The service ----------*/

  ghost predicate DescribesLatest(parse: TimeParser, dirs: Dirs, info: ConflictInfo) {
    exists d :: IsLatest(parse, dirs, d, info.file) && info == InfoOf(parse, dirs, d, info.file)
  }

  /** The listing and the lookup by name read the same directory for a file, on equal times too. */
  lemma ListingAgreesWithLookup(parse: TimeParser, dirs: Dirs, info: ConflictInfo)
    requires DescribesLatest(parse, dirs, info)
    ensures LatestDir(parse, dirs, info.file).Some?
    ensures info == InfoOf(parse, dirs, LatestDir(parse, dirs, info.file).value, info.file)
  {
    var d :| IsLatest(parse, dirs, d, info.file) && info == InfoOf(parse, dirs, d, info.file);
  }

  function FilesOf(infos: seq<ConflictInfo>): (r: seq<Path>)
    ensures |r| == |infos|
  {
    seq(|infos|, i requires 0 <= i < |infos| => infos[i].file)
  }

  /** The table entry of `f` is its best candidate among the first `n` entries, absent if there is none. */
  ghost predicate TableAt(parse: TimeParser, dirs: Dirs, entries: seq<string>, n: nat, table: map<Path, ConflictInfo>, f: Path)
    requires n <= |entries|
  {
    if f in table then SlashFree(f) && exists k: nat :: ChosenFrom(parse, dirs, entries, n, k, f, table[f])
    else SlashFree(f) ==> forall j :: 0 <= j < n ==> !Holds(parse, dirs, entries[j], f)
  }

  ghost predicate ChosenFrom(parse: TimeParser, dirs: Dirs, entries: seq<string>, n: nat, k: nat, f: Path, info: ConflictInfo)
    requires n <= |entries|
  {
    BestAmong(parse, dirs, entries, n, k, f) && info == InfoOf(parse, dirs, entries[k], f)
  }

  /** One directory's candidate for `f` replaces the known one only when it is strictly newer. */
  ghost predicate Scanned(before: map<Path, ConflictInfo>, after: map<Path, ConflictInfo>, tree: Tree, time: int, f: Path) {
    Lookup(after, f) ==
      if SlashFree(f) && ArtifactName(f, Remote) in tree && (f in before ==> time > before[f].detectedAt)
      then Some(ConflictInfo(f, time, ArtifactName(f, Base) in tree, Lookup(tree, ArtifactName(f, Local)) == Some(LOCAL_TOMBSTONE)))
      else Lookup(before, f)
  }

  /** A file whose artifact has been met is scanned, any other one is as before. */
  ghost predicate ScannedSoFar(before: map<Path, ConflictInfo>, now: map<Path, ConflictInfo>, tree: Tree, time: int,
                               todo: set<string>, f: Path) {
    if SlashFree(f) && ArtifactName(f, Remote) !in todo then Scanned(before, now, tree, time, f)
    else Lookup(now, f) == Lookup(before, f)
  }

  lemma EndsWithSuffix(f: Path)
    ensures HasSuffix(ArtifactName(f, Remote), ".remote")
  {
    assert ArtifactName(f, Remote)[|f|..] == ".remote";
  }

  lemma TableSkip(parse: TimeParser, dirs: Dirs, entries: seq<string>, n: nat, table: map<Path, ConflictInfo>, f: Path)
    requires n < |entries| && TableAt(parse, dirs, entries, n, table, f) && !Holds(parse, dirs, entries[n], f)
    ensures TableAt(parse, dirs, entries, n + 1, table, f)
  {
    if f in table {
      var k: nat :| ChosenFrom(parse, dirs, entries, n, k, f, table[f]);
      assert ChosenFrom(parse, dirs, entries, n + 1, k, f, table[f]);
    }
  }

  lemma TableScan(parse: TimeParser, dirs: Dirs, entries: seq<string>, n: nat,
                  before: map<Path, ConflictInfo>, after: map<Path, ConflictInfo>, f: Path)
    requires n < |entries| && entries[n] in dirs && parse(entries[n]).Some? && TableAt(parse, dirs, entries, n, before, f)
    requires Scanned(before, after, dirs[entries[n]], parse(entries[n]).value, f)
    ensures TableAt(parse, dirs, entries, n + 1, after, f)
  {
    if !Holds(parse, dirs, entries[n], f) || !SlashFree(f) {
      assert Lookup(after, f) == Lookup(before, f);
      if SlashFree(f) { TableSkip(parse, dirs, entries, n, before, f); }
    } else if f !in before {
      assert ChosenFrom(parse, dirs, entries, n + 1, n, f, after[f]);
    } else {
      var k: nat :| ChosenFrom(parse, dirs, entries, n, k, f, before[f]);
      var best := if parse(entries[n]).value > before[f].detectedAt then n else k;
      assert BestAmong(parse, dirs, entries, n + 1, best, f);
      assert ChosenFrom(parse, dirs, entries, n + 1, best, f, after[f]);
    }
  }

  lemma TableDone(parse: TimeParser, dirs: Dirs, entries: seq<string>, table: map<Path, ConflictInfo>, f: Path)
    requires StrictlySorted(entries) && Elements(entries) == dirs.Keys
    requires TableAt(parse, dirs, entries, |entries|, table, f)
    ensures f in table <==> Listed(parse, dirs, f)
    ensures f in table ==> DescribesLatest(parse, dirs, table[f]) && table[f].file == f
  {
    if f in table {
      var k: nat :| ChosenFrom(parse, dirs, entries, |entries|, k, f, table[f]);
      BestIsLatest(parse, dirs, entries, k, f);
    } else if SlashFree(f) {
      forall d ensures !Holds(parse, dirs, d, f) {
        if d in dirs { assert d in Elements(entries); }
      }
    }
  }

  ghost predicate TableUpTo(parse: TimeParser, dirs: Dirs, entries: seq<string>, n: nat, table: map<Path, ConflictInfo>)
    requires n <= |entries|
  {
    forall f :: TableAt(parse, dirs, entries, n, table, f)
  }

  /** A directory whose name is a time is scanned, any other one is skipped. */
  lemma TableNext(parse: TimeParser, dirs: Dirs, entries: seq<string>, n: nat,
                  before: map<Path, ConflictInfo>, after: map<Path, ConflictInfo>)
    requires n < |entries| && entries[n] in dirs && TableUpTo(parse, dirs, entries, n, before)
    requires if parse(entries[n]).Some? then forall f :: Scanned(before, after, dirs[entries[n]], parse(entries[n]).value, f)
             else after == before
    ensures TableUpTo(parse, dirs, entries, n + 1, after)
  {
    var next := n + 1;
    forall f ensures TableAt(parse, dirs, entries, next, after, f) {
      assert TableAt(parse, dirs, entries, n, before, f);
      if parse(entries[n]).Some? {
        TableScan(parse, dirs, entries, n, before, after, f);
      } else {
        TableSkip(parse, dirs, entries, n, before, f);
      }
    }
  }

  lemma TableComplete(parse: TimeParser, dirs: Dirs, entries: seq<string>, table: map<Path, ConflictInfo>)
    requires StrictlySorted(entries) && Elements(entries) == dirs.Keys
    requires TableUpTo(parse, dirs, entries, |entries|, table)
    ensures forall f :: f in table <==> Listed(parse, dirs, f)
    ensures forall f :: f in table ==> DescribesLatest(parse, dirs, table[f]) && table[f].file == f
  {
    forall f
      ensures f in table <==> Listed(parse, dirs, f)
      ensures f in table ==> DescribesLatest(parse, dirs, table[f]) && table[f].file == f
    {
      assert TableAt(parse, dirs, entries, |entries|, table, f);
      TableDone(parse, dirs, entries, table, f);
    }
  }

  /** The table's values in the order of its sorted keys. */
  method InFileOrder(fileSet: map<Path, ConflictInfo>, files: seq<Path>) returns (r: seq<ConflictInfo>)
    requires Elements(files) == fileSet.Keys && forall f :: f in fileSet ==> fileSet[f].file == f
    ensures FilesOf(r) == files
    ensures forall info :: info in r ==> info.file in fileSet && info == fileSet[info.file]
  {
    r := [];
    for i := 0 to |files|
      invariant |r| == i && FilesOf(r) == files[..i]
      invariant forall info :: info in r ==> info.file in fileSet && info == fileSet[info.file]
    {
      assert files[i] in Elements(files);
      r := r + [fileSet[files[i]]];
    }
  }

  class Service {
    const reliable: bool
    const parse: TimeParser
    const mappings: map<Path, Path>
    const home: Path
    var dirs: Dirs
    var targets: Tree

    constructor (reliable: bool, parse: TimeParser, mappings: map<Path, Path>, home: Path, dirs: Dirs, targets: Tree)
      ensures this.reliable == reliable
      ensures this.parse == parse && this.mappings == mappings && this.home == home
      ensures this.dirs == dirs && this.targets == targets
    {
      this.reliable, this.parse, this.mappings, this.home := reliable, parse, mappings, home;
      this.dirs, this.targets := dirs, targets;
    }

    /** The newest timestamp directory containing `<file>.remote`, unless the store cannot be read. */
    method FindLatestConflictDir(file: Path) returns (r: Search)
      ensures reliable ==> !r.Unreadable?
      ensures r.Found? ==> LatestDir(parse, dirs, file) == Some(r.dir)
      ensures r.NotFound? ==> LatestDir(parse, dirs, file) == None
    {
      var failed := MayFail(reliable);
      if failed { return Unreadable; }
      var entries := SortedListing(dirs.Keys);
      var latest: Option<nat> := None;
      for i := 0 to |entries|
        invariant ScanState(parse, dirs, entries, i, latest, file)
      {
        assert entries[i] in Elements(entries);
        ScanStep(parse, dirs, entries, i, latest, file);
        var detectedAt := parse(entries[i]);
        if detectedAt.Some? && ArtifactName(file, Remote) in dirs[entries[i]] {
          if latest.None? || detectedAt.value > parse(entries[latest.value]).value {
            latest := Some(i);
          }
        }
      }
      ScanDone(parse, dirs, entries, latest, file);
      return if latest.Some? then Found(entries[latest.value]) else NotFound;
    }

    /** The inner loop of GetConflicts over the files of one timestamp directory. */
    method ScanDirectory(tree: Tree, time: int, before: map<Path, ConflictInfo>) returns (fileSet: map<Path, ConflictInfo>)
      ensures forall f :: Scanned(before, fileSet, tree, time, f)
    {
      fileSet := before;
      var todo := set n | n in tree && SlashFree(n);
      while todo != {}
        invariant todo <= tree.Keys && forall n :: n in todo ==> SlashFree(n)
        invariant forall f :: ScannedSoFar(before, fileSet, tree, time, todo, f)
        decreases |todo|
      {
        var name :| name in todo;
        ghost var was, left := fileSet, todo;
        todo := todo - {name};
        if HasSuffix(name, ".remote") {
          var originalFile := name[..|name| - |".remote"|];
          assert name == ArtifactName(originalFile, Remote);
          var hasBase := ArtifactName(originalFile, Base) in tree;
          var isDeleted := Lookup(tree, ArtifactName(originalFile, Local)) == Some(LOCAL_TOMBSTONE);
          var info := ConflictInfo(originalFile, time, hasBase, isDeleted);
          if originalFile in fileSet {
            if time > fileSet[originalFile].detectedAt {
              fileSet := fileSet[originalFile := info];
            }
          } else {
            fileSet := fileSet[originalFile := info];
          }
          forall f ensures ScannedSoFar(before, fileSet, tree, time, todo, f) {
            assert ScannedSoFar(before, was, tree, time, left, f);
            ArtifactNameInjective(f, Remote, originalFile, Remote);
          }
        } else {
          forall f ensures ScannedSoFar(before, fileSet, tree, time, todo, f) {
            assert ScannedSoFar(before, was, tree, time, left, f);
            EndsWithSuffix(f);
          }
        }
      }
      forall f ensures Scanned(before, fileSet, tree, time, f) {
        assert ScannedSoFar(before, fileSet, tree, time, {}, f);
      }
    }

    /** The table of GetConflicts after all timestamp directories have been read. */
    method CollectConflicts() returns (fileSet: map<Path, ConflictInfo>)
      ensures forall f :: f in fileSet <==> Listed(parse, dirs, f)
      ensures forall f :: f in fileSet ==> DescribesLatest(parse, dirs, fileSet[f]) && fileSet[f].file == f
    {
      var entries := SortedListing(dirs.Keys);
      fileSet := map[];
      for i := 0 to |entries|
        invariant TableUpTo(parse, dirs, entries, i, fileSet)
      {
        var name := entries[i];
        assert name in Elements(entries);
        var detectedAt := parse(name);
        ghost var before := fileSet;
        if detectedAt.Some? {
          fileSet := ScanDirectory(dirs[name], detectedAt.value, fileSet);
        }
        TableNext(parse, dirs, entries, i, before, fileSet);
      }
      TableComplete(parse, dirs, entries, fileSet);
    }

    /**
     * Every slash-free file with a `.remote` artifact in some timestamp directory, once, in name
     * order, described by its latest directory.
     */
    method GetConflicts() returns (r: Option<seq<ConflictInfo>>)
      ensures reliable ==> r.Some?
      ensures r.Some? ==> IsListing(parse, dirs, FilesOf(r.value))
      ensures r.Some? ==> forall info :: info in r.value ==> DescribesLatest(parse, dirs, info)
    {
      var failed := MayFail(reliable);
      if failed { return None; }
      var fileSet := CollectConflicts();
      var files := SortedListing(fileSet.Keys);
      var conflicts := InFileOrder(fileSet, files);
      forall f ensures f in files <==> Listed(parse, dirs, f) {
        assert f in Elements(files) <==> f in fileSet;
      }
      return Some(conflicts);
    }

    /** Fails closed: an unreadable store counts as having no conflicts. */
    method HasConflicts() returns (r: bool, ghost readFailed: bool)
      ensures reliable ==> !readFailed && (r <==> exists f :: Listed(parse, dirs, f))
      ensures r ==> exists f :: Listed(parse, dirs, f)
      ensures !r && !readFailed ==> forall f :: !Listed(parse, dirs, f)
    {
      var conflicts := GetConflicts();
      r, readFailed := conflicts.Some? && |conflicts.value| > 0, conflicts.None?;
      if r { assert FilesOf(conflicts.value)[0] in FilesOf(conflicts.value); }
    }

    /** Without failing calls the details are returned exactly when the file has a latest directory with its local version. */
    method GetConflictDetails(file: Path) returns (r: Option<ConflictDetails>)
      ensures reliable ==> (r.Some? <==> CanUse(parse, dirs, file, Local))
      ensures r.Some? ==>
                && LatestDir(parse, dirs, file).Some?
                && var tree := dirs[LatestDir(parse, dirs, file).value];
                   && Lookup(tree, ArtifactName(file, Local)) == Some(r.value.local)
                   && Lookup(tree, ArtifactName(file, Remote)) == Some(r.value.remote)
                   && Lookup(tree, ArtifactName(file, Base)) == r.value.base
    {
      var latest := FindLatestConflictDir(file);
      if !latest.Found? { return None; }
      var tree := dirs[latest.dir];
      var failed := MayFail(reliable);
      if failed || ArtifactName(file, Local) !in tree { return None; }
      failed := MayFail(reliable);
      if failed { return None; }
      failed := MayFail(reliable);
      if failed { return None; }
      return Some(ConflictDetails(tree[ArtifactName(file, Local)], tree[ArtifactName(file, Remote)],
                                  Lookup(tree, ArtifactName(file, Base))));
    }

    /** Deletes the three artifacts of a file and the directory if nothing is left in it; `stuck` files may resist. */
    method RemoveConflictArtifacts(timestampDir: string, file: Path, stuck: bool) returns (ok: bool)
      requires timestampDir in dirs
      modifies this`dirs
      ensures reliable && !stuck ==> ok
      ensures ok ==> forall k :: EntryAt(dirs, timestampDir, ArtifactName(file, k)) == None
      ensures ok ==> (timestampDir in dirs <==> exists n :: n in old(dirs)[timestampDir] && IsOther(n, file))
      ensures ok ==> dirs == WithoutArtifacts(old(dirs), timestampDir, file)
      ensures forall d :: d != timestampDir ==> Lookup(dirs, d) == Lookup(old(dirs), d)
      ensures OnlyArtifactsGone([file], old(dirs), dirs)
    {
      ghost var before, tree := dirs, dirs[timestampDir];
      assert tree - NamesUpTo(file, 0) == tree;
      for i := 0 to |KINDS|
        invariant dirs == before[timestampDir := tree - NamesUpTo(file, i)]
      {
        OnlyNamesUpTo(file, i, tree);
        var failed := MayFail(reliable && !stuck);
        if failed { return false; }
        RemoveArtifact(timestampDir, ArtifactName(file, KINDS[i]));
        RemovedTwice(tree, NamesUpTo(file, i), {ArtifactName(file, KINDS[i])});
      }
      OnlyNamesUpTo(file, |KINDS|, tree);
      if dirs[timestampDir] == map[] {
        var failed := MayFail(reliable && !stuck);
        if failed { return false; }
        dirs := dirs - {timestampDir};
      }
      WhatRemains(before, timestampDir, file);
      return true;
    }

    /** os.Remove of one artifact; a missing one is fine. */
    method RemoveArtifact(timestampDir: string, name: string)
      requires timestampDir in dirs
      modifies this`dirs
      ensures dirs == old(dirs)[timestampDir := old(dirs)[timestampDir] - {name}]
    {
      dirs := dirs[timestampDir := dirs[timestampDir] - {name}];
    }

    /** The mapped target of a repository file, or its place in the home directory. */
    function GetTargetPath(file: Path): Path {
      if file in mappings then mappings[file] else home + "/" + file
    }

    /** UseLocal and UseRemote: copy one artifact of the latest conflict to its target, then resolve it. */
    method UseVersion(file: Path, kind: Kind) returns (ok: bool)
      requires kind == Local || kind == Remote
      modifies this
      ensures reliable ==> (ok <==> CanUse(parse, old(dirs), file, kind))
      ensures ok ==> Installed(parse, old(dirs), file, kind, GetTargetPath(file), old(targets), targets)
      ensures ok ==> dirs == ResolveOne(parse, old(dirs), file)
      ensures dirs != old(dirs) ==> Installed(parse, old(dirs), file, kind, GetTargetPath(file), old(targets), targets)
      ensures ok && file in mappings ==>
                Lookup(targets, mappings[file]) == EntryAt(old(dirs), LatestDir(parse, old(dirs), file).value, ArtifactName(file, kind))
      ensures ok && file !in mappings ==>
                Lookup(targets, home + "/" + file) == EntryAt(old(dirs), LatestDir(parse, old(dirs), file).value, ArtifactName(file, kind))
      ensures file in mappings ==> forall p :: p != mappings[file] ==> Lookup(targets, p) == Lookup(old(targets), p)
      ensures file !in mappings ==> forall p :: p != home + "/" + file ==> Lookup(targets, p) == Lookup(old(targets), p)
      ensures Mappings.ValidTable(mappings) && file in mappings ==>
                forall g :: g in mappings && g != file ==> Lookup(targets, mappings[g]) == Lookup(old(targets), mappings[g])
      ensures OnlyArtifactsGone([file], old(dirs), dirs)
    {
      var latest := FindLatestConflictDir(file);
      if !latest.Found? { return false; }
      if ArtifactName(file, kind) !in dirs[latest.dir] { return false; }
      var failed := false;
      if file !in mappings { failed := MayFail(reliable); }
      if failed { return false; }
      failed := MayFail(reliable);
      if failed {
        var partial: Bytes := *;
        targets := targets[GetTargetPath(file) := partial];
        return false;
      }
      targets := targets[GetTargetPath(file) := dirs[latest.dir][ArtifactName(file, kind)]];
      ok := RemoveConflictArtifacts(latest.dir, file, false);
    }

    /**
     * Resolves each named file in turn and collects removal failures.  A failed read of the store is
     * taken for "already resolved": `found` are the files whose reads succeeded, and they are resolved.
     * Whatever fails, nothing but artifacts of the named files is ever removed.
     */
    method MarkResolved(files: seq<Path>, stuck: set<Path>) returns (ok: bool, ghost readFailed: bool, ghost found: seq<Path>)
      modifies this`dirs
      ensures reliable ==> !readFailed
      ensures reliable && (forall f :: f in files ==> f !in stuck) ==> ok
      ensures reliable ==> AllLeftLatest(parse, old(dirs), dirs, files, stuck)
      ensures ok ==> dirs == ResolveAll(parse, old(dirs), found)
      ensures (forall f :: f in found ==> f in files) && |found| <= |files|
      ensures !readFailed <==> found == files
      ensures OnlyArtifactsGone(files, old(dirs), dirs)
    {
      ok, readFailed, found := true, false, [];
      for i := 0 to |files|
        invariant ok ==> dirs == ResolveAll(parse, old(dirs), found)
        invariant reliable ==> !readFailed
        invariant reliable && (forall f :: f in files ==> f !in stuck) ==> ok
        invariant reliable ==> AllLeftLatest(parse, old(dirs), dirs, files[..i], stuck)
        invariant forall f :: f in found ==> f in files
        invariant if readFailed then |found| < i else found == files[..i]
        invariant OnlyArtifactsGone(files[..i], old(dirs), dirs)
      {
        assert files[..i + 1] == files[..i] + [files[i]];
        ghost var was := dirs;
        var latest := FindLatestConflictDir(files[i]);
        readFailed := readFailed || latest.Unreadable?;
        if !latest.Unreadable? {
          assert (found + [files[i]])[..|found|] == found;
          found := found + [files[i]];
        }
        if latest.Found? {
          var removed := RemoveConflictArtifacts(latest.dir, files[i], files[i] in stuck);
          if !removed { ok := false; }
        }
        OneMoreGone(files, i, old(dirs), was, dirs);
        if reliable { LeftOneMore(parse, old(dirs), was, dirs, files, i, stuck); }
      }
      assert files[..|files|] == files;
    }

    /** Resolves every file the store lists, once each. */
    method MarkAllResolved(stuck: set<Path>) returns (ok: bool, ghost readFailed: bool, ghost listing: seq<Path>)
      modifies this`dirs
      ensures reliable ==> !readFailed && IsListing(parse, old(dirs), listing)
      ensures reliable && (forall f :: f in listing ==> f !in stuck) ==> ok
      ensures reliable ==> AllLeftLatest(parse, old(dirs), dirs, listing, stuck)
      ensures ok && !readFailed ==> IsListing(parse, old(dirs), listing) && dirs == ResolveAll(parse, old(dirs), listing)
      ensures OnlyArtifactsGone(listing, old(dirs), dirs) && forall f :: f in listing ==> Listed(parse, old(dirs), f)
    {
      ok, readFailed, listing := false, false, [];
      var conflicts := GetConflicts();
      if conflicts.None? { return; }
      var files := FilesOf(conflicts.value);
      listing := files;
      if |conflicts.value| == 0 { return true, false, files; }
      ghost var found;
      ok, readFailed, found := MarkResolved(files, stuck);
    }
  }
}
