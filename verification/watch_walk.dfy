/** The recursive walk that registers directories with the watcher, skipping ignored ones. */
module WatchWalk {
  import opened Common
  import opened Text
  import opened Paths
  import Ignore

  /** A file or directory as filepath.Walk meets it; children in walk order. */
  datatype Entry = Entry(name: string, isDir: bool, children: seq<Entry>)

  function Join(dir: string, name: string): string {
    if dir == "" then name else dir + "/" + name
  }

  /** The walk visits the repository root with an empty relative path, which Match never ignores. */
  predicate Skipped(ignored: string -> bool, rel: string) {
    rel != "" && ignored(rel)
  }

  /** watchRecursiveWithWatcher: the directories added to the watcher below `e`, whose relative path is `rel`. */
  function Walk(ignored: string -> bool, e: Entry, rel: string): seq<string>
    decreases e, 1
  {
    if e.name == ".git" || !e.isDir || Skipped(ignored, rel) then [] else [rel] + WalkAll(ignored, e.children, rel)
  }

  function WalkAll(ignored: string -> bool, es: seq<Entry>, rel: string): seq<string>
    decreases es, 0
  {
    if es == [] then [] else Walk(ignored, es[0], Join(rel, es[0].name)) + WalkAll(ignored, es[1..], rel)
  }

  /** Every directory outside `.git` that is not ignored itself, in the same order. */
  function Wanted(ignored: string -> bool, e: Entry, rel: string): seq<string>
    decreases e, 1
  {
    if e.name == ".git" || !e.isDir then []
    else (if Skipped(ignored, rel) then [] else [rel]) + WantedAll(ignored, e.children, rel)
  }

  function WantedAll(ignored: string -> bool, es: seq<Entry>, rel: string): seq<string>
    decreases es, 0
  {
    if es == [] then [] else Wanted(ignored, es[0], Join(rel, es[0].name)) + WantedAll(ignored, es[1..], rel)
  }

  /** The entry and the named ones below it are directories, none of them called `.git`. */
  predicate Leads(e: Entry, names: seq<string>)
    decreases e, 1
  {
    e.isDir && e.name != ".git" && (names == [] || LeadsAmong(e.children, names))
  }

  predicate LeadsAmong(es: seq<Entry>, names: seq<string>)
    requires names != []
    decreases es, 0
  {
    es != [] && ((es[0].name == names[0] && Leads(es[0], names[1..])) || LeadsAmong(es[1..], names))
  }

  function PathOf(rel: string, names: seq<string>): string
    decreases names
  {
    if names == [] then rel else PathOf(Join(rel, names[0]), names[1..])
  }

  lemma {:induction false} PathOfSplits(rel: string, names: seq<string>)
    requires rel != "" && names != []
    ensures PathOf(rel, names) == rel + "/" + Joined(names)
    decreases names
  {
    if |names| > 1 {
      PathOfSplits(Join(rel, names[0]), names[1..]);
      assert rel + "/" + names[0] + "/" + Joined(names[1..]) == rel + "/" + (names[0] + "/" + Joined(names[1..]));
    } else {
      assert names[1..] == [];
    }
  }

  /** From the root a chain of names leads to the path with these components. */
  lemma PathFromRoot(names: seq<string>)
    requires names != [] ==> names[0] != ""
    ensures PathOf("", names) == Joined(names)
  {
    if |names| > 1 {
      PathOfSplits(names[0], names[1..]);
    } else if names != [] {
      assert names[1..] == [];
    }
  }

  ghost predicate IsPathOf(p: string, e: Entry, rel: string) {
    exists names :: Leads(e, names) && p == PathOf(rel, names)
  }

  ghost predicate IsPathAmong(p: string, es: seq<Entry>, rel: string) {
    exists names :: names != [] && LeadsAmong(es, names) && p == PathOf(rel, names)
  }

  /** A directory is wanted exactly when a chain of directories outside `.git` leads to it and it is not ignored. */
  lemma {:induction false} WantedMeans(ignored: string -> bool, e: Entry, rel: string, p: string)
    ensures p in Wanted(ignored, e, rel) <==> IsPathOf(p, e, rel) && !Skipped(ignored, p)
    decreases e, 1
  {
    if e.isDir && e.name != ".git" {
      WantedAllMeans(ignored, e.children, rel, p);
      if p == rel { assert Leads(e, []) && p == PathOf(rel, []); }
      if IsPathAmong(p, e.children, rel) {
        var names :| names != [] && LeadsAmong(e.children, names) && p == PathOf(rel, names);
        assert Leads(e, names);
      }
      if IsPathOf(p, e, rel) {
        var names :| Leads(e, names) && p == PathOf(rel, names);
        assert names != [] ==> LeadsAmong(e.children, names);
      }
    }
  }

  lemma {:induction false} WantedAllMeans(ignored: string -> bool, es: seq<Entry>, rel: string, p: string)
    ensures p in WantedAll(ignored, es, rel) <==> IsPathAmong(p, es, rel) && !Skipped(ignored, p)
    decreases es, 0
  {
    if es != [] {
      var child := Join(rel, es[0].name);
      WantedMeans(ignored, es[0], child, p);
      WantedAllMeans(ignored, es[1..], rel, p);
      if IsPathOf(p, es[0], child) {
        var names :| Leads(es[0], names) && p == PathOf(child, names);
        var longer := [es[0].name] + names;
        assert longer[1..] == names;
        assert LeadsAmong(es, longer) && p == PathOf(rel, longer);
      }
      if IsPathAmong(p, es[1..], rel) {
        var names :| names != [] && LeadsAmong(es[1..], names) && p == PathOf(rel, names);
        assert LeadsAmong(es, names);
      }
      if IsPathAmong(p, es, rel) {
        var names :| names != [] && LeadsAmong(es, names) && p == PathOf(rel, names);
        if es[0].name == names[0] && Leads(es[0], names[1..]) {
          assert p == PathOf(child, names[1..]);
        } else {
          assert LeadsAmong(es[1..], names);
        }
      }
    }
  }

  /** Nothing wanted lies below an ignored directory of the tree. */
  predicate PruneSafe(ignored: string -> bool, e: Entry, rel: string)
    decreases e, 1
  {
    e.name == ".git" || !e.isDir ||
    if Skipped(ignored, rel) then WantedAll(ignored, e.children, rel) == [] else PruneSafeAll(ignored, e.children, rel)
  }

  predicate PruneSafeAll(ignored: string -> bool, es: seq<Entry>, rel: string)
    decreases es, 0
  {
    es == [] || (PruneSafe(ignored, es[0], Join(rel, es[0].name)) && PruneSafeAll(ignored, es[1..], rel))
  }

  /** The pruned walk watches exactly the wanted directories if and only if pruning hides none of them. */
  lemma {:induction false} WalkIsFilter(ignored: string -> bool, e: Entry, rel: string)
    ensures |Walk(ignored, e, rel)| <= |Wanted(ignored, e, rel)|
    ensures Walk(ignored, e, rel) == Wanted(ignored, e, rel) <==> PruneSafe(ignored, e, rel)
    ensures PruneSafe(ignored, e, rel) <==> |Walk(ignored, e, rel)| == |Wanted(ignored, e, rel)|
    decreases e, 1
  {
    if e.name != ".git" && e.isDir && !Skipped(ignored, rel) {
      WalkAllIsFilter(ignored, e.children, rel);
    }
  }

  lemma {:induction false} WalkAllIsFilter(ignored: string -> bool, es: seq<Entry>, rel: string)
    ensures |WalkAll(ignored, es, rel)| <= |WantedAll(ignored, es, rel)|
    ensures WalkAll(ignored, es, rel) == WantedAll(ignored, es, rel) <==> PruneSafeAll(ignored, es, rel)
    ensures PruneSafeAll(ignored, es, rel) <==> |WalkAll(ignored, es, rel)| == |WantedAll(ignored, es, rel)|
    decreases es, 0
  {
    if es != [] {
      WalkIsFilter(ignored, es[0], Join(rel, es[0].name));
      WalkAllIsFilter(ignored, es[1..], rel);
    }
  }

  /** An ignored directory ignores all that is under it. */
  ghost predicate Closed(ignored: string -> bool) {
    forall p, q :: ignored(p) ==> ignored(p + "/" + q)
  }

  lemma {:induction false} NothingWantedBelow(ignored: string -> bool, es: seq<Entry>, rel: string)
    requires Closed(ignored) && rel != "" && ignored(rel)
    ensures WantedAll(ignored, es, rel) == []
    decreases es
  {
    if es != [] {
      var child := Join(rel, es[0].name);
      assert ignored(rel + "/" + es[0].name);
      if es[0].isDir { NothingWantedBelow(ignored, es[0].children, child); }
      NothingWantedBelow(ignored, es[1..], rel);
    }
  }

  lemma {:induction false} ClosedIsPruneSafe(ignored: string -> bool, e: Entry, rel: string)
    requires Closed(ignored)
    ensures PruneSafe(ignored, e, rel)
    decreases e, 1
  {
    if Skipped(ignored, rel) {
      NothingWantedBelow(ignored, e.children, rel);
    } else {
      ClosedIsPruneSafeAll(ignored, e.children, rel);
    }
  }

  lemma {:induction false} ClosedIsPruneSafeAll(ignored: string -> bool, es: seq<Entry>, rel: string)
    requires Closed(ignored)
    ensures PruneSafeAll(ignored, es, rel)
    decreases es, 0
  {
    if es != [] {
      ClosedIsPruneSafe(ignored, es[0], Join(rel, es[0].name));
      ClosedIsPruneSafeAll(ignored, es[1..], rel);
    }
  }

  /**
   * What Match answers for a directory below the repository: one whose relative path begins with two
   * dots, such as `..cache`, passes for outside and is never ignored.
   */
  function IgnoredBy(patterns: seq<Ignore.Pattern>): string -> bool {
    (rel: string) => !StartsDotDot(PartsOf(rel)[0]) && Ignore.MatchRelative(patterns, rel) == Some(true)
  }

  /** The walk asks Match about absolute paths. */
  lemma WalkAsksMatch(root: string, patterns: seq<Ignore.Pattern>, rel: string)
    requires IsAbs(root) && rel != "" && Cleaned(rel)
    ensures IgnoredBy(patterns)(rel) <==> Ignore.Match(CleanAbs(root), patterns, root + "/" + rel) == Some(true)
  {
    Ignore.MatchBelowRoot(root, patterns, rel);
  }

  /** With subtree-closed patterns the walk watches exactly the non-ignored directories outside `.git`. */
  lemma WalkWatchesNonIgnored(patterns: seq<Ignore.Pattern>, root: Entry)
    requires Ignore.AllClosed(patterns)
    ensures Walk(IgnoredBy(patterns), root, "") == Wanted(IgnoredBy(patterns), root, "")
  {
    var ignored := IgnoredBy(patterns);
    forall p, q | ignored(p) ensures ignored(p + "/" + q) {
      Ignore.IgnoredSubtreeOfList(patterns, p, q);
      SplitAtSeparator(p, q, '/');
      assert PartsOf(p + "/" + q)[0] == PartsOf(p)[0];
    }
    ClosedIsPruneSafe(ignored, root, "");
    WalkIsFilter(ignored, root, "");
  }
}
