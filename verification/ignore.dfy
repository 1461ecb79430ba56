/** The ignore matcher and the directory walk that skips ignored directories. */
module Ignore {
  import opened Common
  import opened Text
  import opened Paths

  datatype Pattern = Pattern(raw: string, negated: bool, dirOnly: bool)

  /*---------- String functions ----------*/

  /** strings.Index(s, t), from position `i` on. */
  function IndexFrom(s: string, t: string, i: nat): (r: Option<nat>)
    requires i <= |s|
    ensures r.Some? ==> i <= r.value <= |s| && HasPrefix(s[r.value..], t)
    ensures r.Some? ==> forall k :: i <= k < r.value ==> !HasPrefix(s[k..], t)
    ensures r.None? ==> forall k :: i <= k <= |s| ==> !HasPrefix(s[k..], t)
    decreases |s| - i
  {
    if HasPrefix(s[i..], t) then Some(i) else if i == |s| then None else IndexFrom(s, t, i + 1)
  }

  predicate Contains(s: string, t: string) {
    IndexFrom(s, t, 0).Some?
  }

  /** filepath.Match for patterns without escapes and bracket classes. */
  predicate Glob(p: string, s: string)
    decreases |p| + |s|
  {
    if p == [] then s == []
    else if p[0] == '*' then Glob(p[1..], s) || (s != [] && s[0] != '/' && Glob(p, s[1..]))
    else s != [] && (if p[0] == '?' then s[0] != '/' else p[0] == s[0]) && Glob(p[1..], s[1..])
  }

  predicate PlainGlob(p: string) {
    '\\' !in p && '[' !in p
  }

  /*---------- The matcher ----------*/

  function ParsePattern(line: string): Pattern {
    var negated := HasPrefix(line, "!");
    var rest := if negated then line[1..] else line;
    var dirOnly := HasSuffix(rest, "/");
    Pattern(if dirOnly then rest[..|rest| - 1] else rest, negated, dirOnly)
  }

  predicate AnyPartMatches(p: string, parts: seq<string>) {
    exists i :: 0 <= i < |parts| && Glob(p, parts[i])
  }

  /** Multi-part patterns are compared with the end of the path. */
  predicate MatchMultiPattern(patternParts: seq<string>, pathParts: seq<string>) {
    |patternParts| <= |pathParts| &&
    forall i :: 0 <= i < |patternParts| ==>
      patternParts[i] == "**" || Glob(patternParts[i], pathParts[|pathParts| - |patternParts| + i])
  }

  predicate MatchParts(patternParts: seq<string>, pathParts: seq<string>)
    requires |patternParts| > 0
  {
    if |patternParts| == 1 then AnyPartMatches(patternParts[0], pathParts) else MatchMultiPattern(patternParts, pathParts)
  }

  /** The part of matchDoubleAsterisk for `prefix/∗∗/suffix`; None where the slice bounds cross and the code panics. */
  function MatchAround(prefix: string, suffix: string, path: string): Option<bool> {
    if !HasPrefix(path, prefix + "/") && path != prefix then Some(false)
    else if suffix == "" then Some(true)
    else if !HasSuffix(path, suffix) then Some(false)
    else if |prefix| + |suffix| > |path| then None
    else
      var middle := path[|prefix|..|path| - |suffix|];
      Some(middle == "" || HasPrefix(middle, "/"))
  }

  function MatchDoubleAsterisk(pattern: string, path: string): Option<bool> {
    if HasPrefix(pattern, "**/") && MatchesAtAnyDepth(pattern[3..], path) then Some(true)
    else if HasSuffix(pattern, "/**") && IsOrUnder(path, pattern[..|pattern| - 3]) then Some(true)
    else
      var idx := IndexFrom(pattern, "/**/", 0);
      if idx.None? then Some(false) else MatchAround(pattern[..idx.value], pattern[idx.value + 4..], path)
  }

  predicate MatchesAtAnyDepth(suffix: string, path: string) {
    || (HasSuffix(path, suffix) && (|path| == |suffix| || path[|path| - |suffix| - 1] == '/'))
    || AnyPartMatches(suffix, PartsOf(path))
  }

  predicate IsOrUnder(path: string, dir: string) {
    path == dir || HasPrefix(path, dir + "/")
  }

  function MatchPattern(p: Pattern, path: string): Option<bool> {
    if Contains(p.raw, "**") then MatchDoubleAsterisk(p.raw, path)
    else if p.dirOnly then Some(IsOrUnder(path, p.raw) || ('/' !in p.raw && p.raw in PartsOf(path)))
    else Some(
      || ('/' !in p.raw && (AnyPartMatches(p.raw, PartsOf(path)) || Glob(p.raw, path)))
      || MatchParts(PartsOf(p.raw), PartsOf(path)))
  }

  /** The loop of Match over the patterns, later ones overriding earlier ones. */
  function MatchRelative(patterns: seq<Pattern>, path: string): Option<bool> {
    if patterns == [] then Some(false)
    else
      var before := MatchRelative(patterns[..|patterns| - 1], path);
      var last := patterns[|patterns| - 1];
      var hit := MatchPattern(last, path);
      if before.None? || hit.None? then None else if hit.value then Some(!last.negated) else before
  }

  /**
   * The relative path that Match hands to its loop, None for a path it takes to be outside the root.
   * For an absolute path that test reads the first two characters, for a relative one the first component.
   */
  function RelativePath(root: Parts, path: string): Option<string> {
    if IsAbs(path) then
      var rel := Rel(root, CleanAbs(path));
      if rel == [] || StartsDotDot(rel[0]) then None else Some(Joined(rel))
    else
      var rel := CleanRel(path);
      if rel != [] && rel[0] == ".." then None else Some(Joined(rel))
  }

  /** Match of a parser with the given absolute root, by its components. */
  function Match(root: Parts, patterns: seq<Pattern>, path: string): Option<bool> {
    match RelativePath(root, path)
    case None => Some(false)
    case Some(rel) => MatchRelative(patterns, rel)
  }

  /** Only clean relative paths reach the patterns. */
  lemma LoopSeesCleaned(root: Parts, path: string)
    ensures RelativePath(root, path).Some? ==> Cleaned(RelativePath(root, path).value)
  {
    PartsHaveNoSlash(path);
    if IsAbs(path) {
      var target := CleanAbs(path);
      CleanIsProper([], PartsOf(path), true);
      var k := CommonLength(root, target);
      if k < |root| { assert Rel(root, target)[0] == ".."; }
      if RelativePath(root, path).Some? {
        assert Rel(root, target) == target[k..];
        PartsOfJoined(target[k..]);
      }
    } else if RelativePath(root, path).Some? {
      CleanIsProper([], PartsOf(path), false);
      if CleanRel(path) != [] { PartsOfJoined(CleanRel(path)); }
    }
  }

  /** Every clean relative path reaches the patterns as it is. */
  lemma CleanedReachesLoop(root: Parts, path: string)
    requires Cleaned(path)
    ensures RelativePath(root, path) == Some(path)
  {
    if path == "" {
      assert PartsOf(path) == [""];
      assert [""][1..] == [];
    } else {
      var parts := PartsOf(path);
      assert ProperName(parts[0]);
      if IsAbs(path) {
        LeadingSlashNotCleaned(path);
        assert false;
      }
      CleanKeeps([], parts, false);
      assert [] + parts == parts;
      JoinedParts(path);
    }
  }

  /** Below the root an absolute path is matched like its relative part, unless that begins with two dots. */
  lemma MatchBelowRoot(root: string, patterns: seq<Pattern>, rel: string)
    requires IsAbs(root) && rel != "" && Cleaned(rel)
    ensures Match(CleanAbs(root), patterns, root + "/" + rel) ==
            if StartsDotDot(PartsOf(rel)[0]) then Some(false) else MatchRelative(patterns, rel)
  {
    var base, parts, path := CleanAbs(root), PartsOf(rel), root + "/" + rel;
    SplitAtSeparator(root, rel, '/');
    CleanConcat([], PartsOf(root), parts, true);
    CleanKeeps(base, parts, true);
    assert CleanAbs(path) == base + parts;
    CommonOfPrefix(base, base + parts);
    assert base <= base + parts;
    assert Rel(base, base + parts) == parts;
    assert path[..1] == root[..1];
    JoinedParts(rel);
  }

  /*---------- What lines, globs and lists mean ----------*/

  lemma FinalSlash(s: string)
    ensures HasSuffix(s, "/") <==> s != "" && s[|s| - 1] == '/'
    ensures HasSuffix(s, "/") ==> s == s[..|s| - 1] + "/"
  {
    if s != "" { assert s[|s| - 1..] == [s[|s| - 1]]; }
  }

  lemma LeadingBang(s: string)
    ensures HasPrefix(s, "!") <==> s != "" && s[0] == '!'
    ensures HasPrefix(s, "!") ==> s == "!" + s[1..]
  {
    if s != "" { assert s[..1] == [s[0]]; }
  }

  /** A parsed line can be written down again: `!` exactly for a negated one, a final slash exactly for directories only. */
  lemma ParseRoundTrip(line: string)
    ensures var p := ParsePattern(line);
            && line == (if p.negated then "!" else "") + (p.raw + (if p.dirOnly then "/" else ""))
            && (p.negated <==> line != "" && line[0] == '!')
            && (p.dirOnly <==> line != "" && line[|line| - 1] == '/')
  {
    var rest := if HasPrefix(line, "!") then line[1..] else line;
    LeadingBang(line);
    FinalSlash(rest);
    assert "" + rest == rest && ParsePattern(line).raw + "" == ParsePattern(line).raw;
  }

  predicate Literal(p: string) {
    '*' !in p && '?' !in p
  }

  /** A literal text in front matches itself. */
  lemma {:induction false} GlobLiteralPrefix(a: string, p: string, s: string)
    requires Literal(a)
    ensures Glob(a + p, s) <==> |s| >= |a| && s[..|a|] == a && Glob(p, s[|a|..])
    decreases |a|
  {
    if a == "" {
      assert a + p == p && s[|a|..] == s;
    } else {
      assert (a + p)[0] == a[0] && (a + p)[1..] == a[1..] + p;
      if s != "" {
        GlobLiteralPrefix(a[1..], p, s[1..]);
        assert |s| >= |a| ==> s[..|a|] == [s[0]] + s[1..][..|a| - 1] && s[1..][|a| - 1..] == s[|a|..];
        assert a == [a[0]] + a[1..];
      }
    }
  }

  lemma GlobLiteral(a: string, s: string)
    requires Literal(a)
    ensures Glob(a, s) <==> s == a
  {
    GlobLiteralPrefix(a, "", s);
    assert a + "" == a;
    if |s| >= |a| { assert s == s[..|a|] + s[|a|..]; }
  }

  predicate SlashFree(s: string) {
    '/' !in s
  }

  /** `n` characters without a slash, and then the rest of the pattern. */
  predicate StarTakes(p: string, s: string, n: nat) {
    n <= |s| && SlashFree(s[..n]) && Glob(p, s[n..])
  }

  /** A star stands for any number of characters other than a slash. */
  lemma {:induction false} GlobStar(p: string, s: string)
    ensures Glob("*" + p, s) <==> exists n :: 0 <= n <= |s| && StarTakes(p, s, n)
    decreases |s|
  {
    assert ("*" + p)[1..] == p;
    if Glob(p, s) {
      assert s[0..] == s;
      assert StarTakes(p, s, 0);
    }
    if s != "" && s[0] != '/' {
      GlobStar(p, s[1..]);
      if n :| 0 <= n <= |s[1..]| && StarTakes(p, s[1..], n) {
        assert s[..n + 1] == [s[0]] + s[1..][..n] && s[n + 1..] == s[1..][n..];
        assert StarTakes(p, s, n + 1);
      }
    }
    if n :| 0 <= n <= |s| && StarTakes(p, s, n) {
      if n == 0 {
        assert s[0..] == s;
      } else {
        assert s[..n][0] == s[0];
        assert s[1..][..n - 1] == s[..n][1..] && s[1..][n - 1..] == s[n..];
        assert StarTakes(p, s[1..], n - 1);
      }
    }
  }

  lemma StarThenLiteral(b: string, s: string)
    requires Literal(b)
    ensures Glob("*" + b, s) <==> |s| >= |b| && s[|s| - |b|..] == b && SlashFree(s[..|s| - |b|])
  {
    GlobStar(b, s);
    forall n | 0 <= n <= |s| ensures StarTakes(b, s, n) <==> SlashFree(s[..n]) && s[n..] == b {
      GlobLiteral(b, s[n..]);
    }
    if |s| >= |b| {
      assert StarTakes(b, s, |s| - |b|) <==> SlashFree(s[..|s| - |b|]) && s[|s| - |b|..] == b;
    }
  }

  /** Between two literal texts a star matches anything without a slash: `*.log` matches exactly the names ending in `.log`. */
  lemma StarBetween(a: string, b: string, s: string)
    requires Literal(a) && Literal(b)
    ensures Glob(a + ("*" + b), s) <==>
            HasPrefix(s, a) && var rest := s[|a|..]; HasSuffix(rest, b) && SlashFree(rest[..|rest| - |b|])
  {
    GlobLiteralPrefix(a, "*" + b, s);
    if |s| >= |a| { StarThenLiteral(b, s[|a|..]); }
  }

  lemma QuestionThenLiteral(b: string, s: string)
    requires Literal(b)
    ensures Glob("?" + b, s) <==> s != "" && s[0] != '/' && s[1..] == b
  {
    assert ("?" + b)[1..] == b;
    if s != "" { GlobLiteral(b, s[1..]); }
  }

  /** A question mark stands for one character other than a slash. */
  lemma QuestionBetween(a: string, b: string, s: string)
    requires Literal(a) && Literal(b)
    ensures Glob(a + ("?" + b), s) <==>
            |s| == |a| + 1 + |b| && s[..|a|] == a && s[|a|] != '/' && s[|a| + 1..] == b
  {
    GlobLiteralPrefix(a, "?" + b, s);
    if |s| > |a| {
      var rest := s[|a|..];
      QuestionThenLiteral(b, rest);
      assert rest[1..] == s[|a| + 1..];
    } else if |s| == |a| {
      QuestionThenLiteral(b, s[|a|..]);
    }
  }

  predicate Hits(p: Pattern, path: string) {
    MatchPattern(p, path) == Some(true)
  }

  /** The last pattern of the list that matches is a plain one, number `i`. */
  ghost predicate LastHitAt(patterns: seq<Pattern>, hits: Pattern -> bool, i: nat) {
    && i < |patterns| && hits(patterns[i]) && !patterns[i].negated
    && forall j :: i < j < |patterns| ==> !hits(patterns[j])
  }

  ghost predicate LastHitIgnores(patterns: seq<Pattern>, hits: Pattern -> bool) {
    exists i :: LastHitAt(patterns, hits, i)
  }

  lemma LastHitOfFront(patterns: seq<Pattern>, hits: Pattern -> bool)
    requires patterns != []
    ensures LastHitIgnores(patterns, hits) <==>
            if hits(patterns[|patterns| - 1]) then !patterns[|patterns| - 1].negated
            else LastHitIgnores(patterns[..|patterns| - 1], hits)
  {
    var n := |patterns| - 1;
    var front := patterns[..n];
    if hits(patterns[n]) {
      if !patterns[n].negated { assert LastHitAt(patterns, hits, n); }
    } else {
      if i :| LastHitAt(front, hits, i) { assert LastHitAt(patterns, hits, i); }
      if i :| LastHitAt(patterns, hits, i) { assert LastHitAt(front, hits, i); }
    }
  }

  /** The last matching pattern decides: a plain one ignores, a negated one re-includes, none leaves the path alone. */
  lemma {:induction false} LastMatchDecides(patterns: seq<Pattern>, path: string)
    requires MatchRelative(patterns, path).Some?
    ensures MatchRelative(patterns, path) == Some(LastHitIgnores(patterns, p => Hits(p, path)))
  {
    var hits := p => Hits(p, path);
    if patterns != [] {
      LastMatchDecides(patterns[..|patterns| - 1], path);
      LastHitOfFront(patterns, hits);
    }
  }

  /*---------- Which patterns ignore whole subtrees ----------*/

  predicate SlashFreeGlob(p: Pattern) {
    !p.dirOnly && '/' !in p.raw && PlainGlob(p.raw) && !Contains(p.raw, "**")
  }

  predicate DirectoryOnly(p: Pattern) {
    p.dirOnly && !Contains(p.raw, "**")
  }

  /** `dir/∗∗` with a literal directory. */
  predicate Subtree(p: Pattern) {
    HasSuffix(p.raw, "/**") && '*' !in p.raw[..|p.raw| - 3]
  }

  /** `∗∗/name` with a slash-free name. */
  predicate AnyDepth(p: Pattern) {
    HasPrefix(p.raw, "**/") && '/' !in p.raw[3..] && PlainGlob(p.raw) && !Contains(p.raw[3..], "**")
  }

  predicate SubtreeClosed(p: Pattern) {
    !p.negated && (SlashFreeGlob(p) || DirectoryOnly(p) || Subtree(p) || AnyDepth(p))
  }

  lemma SplitAppend(a: string, b: string)
    ensures PartsOf(a + "/" + b) == PartsOf(a) + PartsOf(b)
  {
    SplitAtSeparator(a, b, '/');
  }

  lemma SplitSlashFree(s: string)
    requires '/' !in s
    ensures PartsOf(s) == [s]
  {
    SplitWithout(s, '/');
  }

  lemma {:induction false} SplitLast(a: string, b: string)
    requires '/' !in b && (a == [] || a[|a| - 1] == '/')
    ensures b in PartsOf(a + b)
  {
    if a == [] {
      SplitSlashFree(b);
      assert a + b == b;
    } else {
      var dir := a[..|a| - 1];
      assert a + b == dir + "/" + b;
      SplitAppend(dir, b);
      SplitSlashFree(b);
    }
  }

  /** A slash-free glob never matches across a slash. */
  lemma {:induction false} GlobStaysInComponent(p: string, s: string)
    requires '/' !in p && Glob(p, s)
    ensures '/' !in s
    decreases |p| + |s|
  {
    if p != [] {
      if p[0] == '*' {
        if Glob(p[1..], s) { GlobStaysInComponent(p[1..], s); } else { GlobStaysInComponent(p, s[1..]); }
      } else {
        GlobStaysInComponent(p[1..], s[1..]);
      }
    }
  }

  lemma {:induction false} GlobMatchesItself(p: string)
    requires '/' !in p
    ensures Glob(p, p)
  {
    if p != [] {
      GlobMatchesItself(p[1..]);
      if p[0] == '*' {
        assert Glob(p, p[1..]);
      }
    }
  }

  lemma PartsStay(p: string, path: string, rest: string)
    requires AnyPartMatches(p, PartsOf(path))
    ensures AnyPartMatches(p, PartsOf(path + "/" + rest))
  {
    SplitAppend(path, rest);
    var i :| 0 <= i < |PartsOf(path)| && Glob(p, PartsOf(path)[i]);
    assert PartsOf(path + "/" + rest)[i] == PartsOf(path)[i];
  }

  lemma UnderStays(path: string, dir: string, rest: string)
    requires IsOrUnder(path, dir)
    ensures IsOrUnder(path + "/" + rest, dir)
  {
    var longer := path + "/" + rest;
    if path == dir {
      assert longer[..|dir| + 1] == dir + "/";
    } else {
      assert longer[..|dir| + 1] == path[..|dir| + 1];
    }
  }

  lemma NoDoubleStarBetween(dir: string, k: nat)
    requires '*' !in dir && k <= |dir + "/**"|
    ensures !HasPrefix((dir + "/**")[k..], "/**/")
  {
    var s := dir + "/**";
    if k + 4 <= |s| {
      assert k + 1 < |dir| ==> s[k + 1] == dir[k + 1];
      assert s[k..][..4][1] == s[k + 1] != '*';
    }
  }

  lemma SlashFreeGlobStays(p: Pattern, path: string, rest: string)
    requires SlashFreeGlob(p) && MatchPattern(p, path) == Some(true)
    ensures MatchPattern(p, path + "/" + rest) == Some(true)
  {
    SplitSlashFree(p.raw);
    if Glob(p.raw, path) {
      GlobStaysInComponent(p.raw, path);
      SplitSlashFree(path);
      assert Glob(p.raw, PartsOf(path)[0]);
    }
    PartsStay(p.raw, path, rest);
  }

  lemma DirectoryOnlyStays(p: Pattern, path: string, rest: string)
    requires DirectoryOnly(p) && MatchPattern(p, path) == Some(true)
    ensures MatchPattern(p, path + "/" + rest) == Some(true)
  {
    SplitAppend(path, rest);
    if IsOrUnder(path, p.raw) { UnderStays(path, p.raw, rest); }
  }

  lemma SubtreeMatches(p: Pattern, path: string)
    requires Subtree(p)
    ensures MatchPattern(p, path) == Some(IsOrUnder(path, p.raw[..|p.raw| - 3]))
  {
    var dir := p.raw[..|p.raw| - 3];
    assert p.raw == dir + "/**";
    assert HasPrefix(p.raw[|dir| + 1..], "**");
    assert |dir| > 0 ==> p.raw[0] == dir[0];
    assert p.raw[0] != '*' && p.raw[..3][0] == p.raw[0];
    forall k | 0 <= k <= |p.raw| ensures !HasPrefix(p.raw[k..], "/**/") { NoDoubleStarBetween(dir, k); }
  }

  lemma AnyDepthShape(raw: string, name: string)
    requires raw == "**/" + name && '/' !in name && !Contains(name, "**")
    ensures HasPrefix(raw, "**/") && raw[3..] == name && Contains(raw, "**")
    ensures !HasSuffix(raw, "/**")
    ensures forall k :: 0 <= k <= |raw| ==> !HasPrefix(raw[k..], "/**/")
  {
    assert HasPrefix(raw[0..], "**");
    assert HasPrefix("**"[0..], "**");
    assert name != "**";
    assert raw[|raw| - 3..] != "/**" by {
      if |name| >= 3 {
        assert raw[|raw| - 3..][0] == name[|name| - 3];
      } else if |name| == 2 {
        assert raw[|raw| - 3..][1..] == name;
      } else {
        assert raw[|raw| - 3..][0] == raw[|raw| - 3] == '*';
      }
    }
    forall k | 0 <= k <= |raw| ensures !HasPrefix(raw[k..], "/**/") {
      if k + 4 <= |raw| {
        assert raw[k..][..4][3] == raw[k + 3] == name[k];
      }
    }
  }

  lemma SuffixIsComponent(name: string, path: string)
    requires '/' !in name && HasSuffix(path, name) && (|path| == |name| || path[|path| - |name| - 1] == '/')
    ensures AnyPartMatches(name, PartsOf(path))
  {
    var front := path[..|path| - |name|];
    assert path == front + name;
    SplitLast(front, name);
    GlobMatchesItself(name);
    var i :| 0 <= i < |PartsOf(path)| && PartsOf(path)[i] == name;
    assert Glob(name, PartsOf(path)[i]);
  }

  lemma AnyDepthMatches(p: Pattern, path: string)
    requires AnyDepth(p)
    ensures MatchPattern(p, path) == Some(AnyPartMatches(p.raw[3..], PartsOf(path)))
  {
    var name := p.raw[3..];
    AnyDepthShape(p.raw, name);
    if MatchesAtAnyDepth(name, path) && !AnyPartMatches(name, PartsOf(path)) {
      SuffixIsComponent(name, path);
    }
  }

  /** A pattern of these kinds that ignores a path ignores everything below it. */
  lemma IgnoredSubtree(p: Pattern, path: string, rest: string)
    requires SubtreeClosed(p) && MatchPattern(p, path) == Some(true)
    ensures MatchPattern(p, path + "/" + rest) == Some(true)
  {
    if SlashFreeGlob(p) {
      SlashFreeGlobStays(p, path, rest);
    } else if DirectoryOnly(p) {
      DirectoryOnlyStays(p, path, rest);
    } else if Subtree(p) {
      SubtreeMatches(p, path);
      SubtreeMatches(p, path + "/" + rest);
      UnderStays(path, p.raw[..|p.raw| - 3], rest);
    } else {
      AnyDepthMatches(p, path);
      AnyDepthMatches(p, path + "/" + rest);
      PartsStay(p.raw[3..], path, rest);
    }
  }

  ghost predicate AllClosed(patterns: seq<Pattern>) {
    forall p :: p in patterns ==> SubtreeClosed(p)
  }

  lemma MatchesTotal(p: Pattern, path: string)
    requires SubtreeClosed(p)
    ensures MatchPattern(p, path).Some?
  {
    if Subtree(p) { SubtreeMatches(p, path); } else if AnyDepth(p) { AnyDepthMatches(p, path); }
  }

  /** A list of such patterns, loaded from any ignore file, never panics and ignores whole subtrees. */
  lemma {:induction false} IgnoredSubtreeOfList(patterns: seq<Pattern>, path: string, rest: string)
    requires AllClosed(patterns)
    ensures MatchRelative(patterns, path).Some? && MatchRelative(patterns, path + "/" + rest).Some?
    ensures MatchRelative(patterns, path) == Some(true) ==> MatchRelative(patterns, path + "/" + rest) == Some(true)
  {
    if patterns != [] {
      var last := patterns[|patterns| - 1];
      assert last in patterns;
      IgnoredSubtreeOfList(patterns[..|patterns| - 1], path, rest);
      MatchesTotal(last, path);
      MatchesTotal(last, path + "/" + rest);
      if MatchPattern(last, path) == Some(true) { IgnoredSubtree(last, path, rest); }
    }
  }

  /**
   * A pattern of two components is compared with the end of the path only: it ignores the directory
   * a/b but not a/b/c, unless c happens to match b.
   */
  lemma TwoPartPatternNotClosed(a: string, b: string, c: string)
    requires '/' !in a && '/' !in b && '/' !in c && !Contains(a + "/" + b, "**") && a != "**" && b != "**"
    ensures var p := Pattern(a + "/" + b, false, false);
            MatchPattern(p, a + "/" + b) == Some(true) && MatchPattern(p, a + "/" + b + "/" + c) == Some(Glob(a, b) && Glob(b, c))
  {
    var dir := a + "/" + b;
    SplitAppend(a, b);
    SplitAppend(dir, c);
    SplitSlashFree(a);
    SplitSlashFree(b);
    SplitSlashFree(c);
    GlobMatchesItself(a);
    GlobMatchesItself(b);
    assert dir[|a|] == '/';
    var parts, longer := PartsOf(dir), PartsOf(dir + "/" + c);
    assert parts == [a, b] && longer == [a, b, c];
    assert MatchMultiPattern(parts, parts);
    assert parts[0] == a && longer[1] == b && parts[1] == b && longer[2] == c;
    assert MatchMultiPattern(parts, longer) == (Glob(parts[0], longer[1]) && Glob(parts[1], longer[2]));
  }

  /*---------- What the kinds of pattern match ----------*/

  /** A slash-free glob matches exactly the paths one component of which it matches. */
  lemma SlashFreeMatches(p: Pattern, path: string)
    requires SlashFreeGlob(p)
    ensures MatchPattern(p, path) == Some(AnyPartMatches(p.raw, PartsOf(path)))
  {
    SplitSlashFree(p.raw);
    if Glob(p.raw, path) {
      GlobStaysInComponent(p.raw, path);
      SplitSlashFree(path);
      assert Glob(p.raw, PartsOf(path)[0]);
    }
  }

  lemma {:induction false} JoinedConcat(a: Parts, b: Parts)
    requires a != [] && b != []
    ensures Joined(a + b) == Joined(a) + "/" + Joined(b)
  {
    assert (a + b)[1..] == a[1..] + b;
    if |a| > 1 {
      JoinedConcat(a[1..], b);
      assert (a + b)[0] == a[0];
    } else {
      assert a[1..] + b == b;
    }
  }

  /** A path is a directory or below it exactly when it continues the directory's components. */
  lemma UnderIsContinuation(path: string, dir: string)
    ensures IsOrUnder(path, dir) <==> PartsOf(dir) <= PartsOf(path)
  {
    var short, long := PartsOf(dir), PartsOf(path);
    if HasPrefix(path, dir + "/") {
      var rest := path[|dir| + 1..];
      assert path == dir + "/" + rest;
      SplitAppend(dir, rest);
    }
    if short <= long {
      JoinedParts(dir);
      JoinedParts(path);
      assert long == short + long[|short|..];
      if long[|short|..] != [] {
        JoinedConcat(short, long[|short|..]);
        assert path[..|dir| + 1] == dir + "/";
      } else {
        assert long == short;
      }
    }
  }

  /** A directory-only pattern matches the directory and what is below it, a slash-free one at any depth. */
  lemma DirectoryOnlyMatches(p: Pattern, path: string)
    requires DirectoryOnly(p)
    ensures MatchPattern(p, path) == Some(PartsOf(p.raw) <= PartsOf(path) || ('/' !in p.raw && p.raw in PartsOf(path)))
  {
    UnderIsContinuation(path, p.raw);
  }

  lemma {:induction false} PiecesAreLiteral(s: string, i: nat)
    requires Literal(s) && i < |PartsOf(s)|
    ensures Literal(PartsOf(s)[i])
  {
    if s != "" {
      if s[0] == '/' {
        if i > 0 { PiecesAreLiteral(s[1..], i - 1); }
      } else {
        PiecesAreLiteral(s[1..], i);
      }
    }
  }

  lemma NoStarNoDoubleStar(s: string)
    requires '*' !in s
    ensures !Contains(s, "**")
  {
    forall k | 0 <= k <= |s| ensures !HasPrefix(s[k..], "**") {
      if k + 2 <= |s| { assert s[k..][..2][0] == s[k]; }
    }
  }

  lemma {:induction false} PartsOfSlashed(s: string)
    ensures |PartsOf(s)| == 1 <==> '/' !in s
  {
    if '/' !in s { SplitSlashFree(s); }
    if |PartsOf(s)| == 1 {
      PiecesHaveNoSeparator(s, '/', 0);
      JoinedParts(s);
    }
  }

  /** A literal pattern of several components matches exactly the paths that end in these components. */
  lemma LiteralPathMatches(p: Pattern, path: string)
    requires Literal(p.raw) && '/' in p.raw && !p.dirOnly
    ensures var short, long := PartsOf(p.raw), PartsOf(path);
            MatchPattern(p, path) == Some(|short| <= |long| && long[|long| - |short|..] == short)
  {
    var short, long := PartsOf(p.raw), PartsOf(path);
    NoStarNoDoubleStar(p.raw);
    PartsOfSlashed(p.raw);
    assert MatchPattern(p, path) == Some(MatchMultiPattern(short, long));
    MultiOfLiterals(short, long) by {
      forall i | 0 <= i < |short| ensures Literal(short[i]) { PiecesAreLiteral(p.raw, i); }
    }
  }

  lemma MultiOfLiterals(short: Parts, long: Parts)
    requires forall i :: 0 <= i < |short| ==> Literal(short[i])
    ensures MatchMultiPattern(short, long) <==> |short| <= |long| && long[|long| - |short|..] == short
  {
    if |short| <= |long| {
      var tail := long[|long| - |short|..];
      forall i | 0 <= i < |short| ensures Glob(short[i], tail[i]) <==> tail[i] == short[i] {
        GlobLiteral(short[i], tail[i]);
      }
      forall i | 0 <= i < |short| ensures short[i] != "**" {
        assert Literal(short[i]);
        assert "**"[0] == '*';
      }
    }
  }

  /** A text ends a path from the start of a component on exactly when its components end the path's. */
  lemma EndIsTail(path: string, name: string)
    ensures HasSuffix(path, name) && (|path| == |name| || path[|path| - |name| - 1] == '/') <==>
            var short, long := PartsOf(name), PartsOf(path); |short| <= |long| && long[|long| - |short|..] == short
  {
    var short, long := PartsOf(name), PartsOf(path);
    if HasSuffix(path, name) && |path| > |name| && path[|path| - |name| - 1] == '/' {
      var front := path[..|path| - |name| - 1];
      assert path == front + "/" + name;
      SplitAppend(front, name);
    }
    if HasSuffix(path, name) && |path| == |name| { assert path == name; }
    if |short| <= |long| && long[|long| - |short|..] == short {
      JoinedParts(path);
      JoinedParts(name);
      var front := long[..|long| - |short|];
      assert long == front + short;
      if front == [] {
        assert long == short;
        assert path == name;
      } else {
        JoinedConcat(front, short);
        assert path == Joined(front) + "/" + name;
      }
    }
  }

  /** `∗∗/a/b` with literal components matches exactly the paths that end in them. */
  lemma AnyDepthPathMatches(p: Pattern, path: string)
    requires HasPrefix(p.raw, "**/") && Literal(p.raw[3..]) && '/' in p.raw[3..]
    ensures var short, long := PartsOf(p.raw[3..]), PartsOf(path);
            MatchPattern(p, path) == Some(|short| <= |long| && long[|long| - |short|..] == short)
  {
    var name := p.raw[3..];
    EndIsTail(path, name);
    LiteralTail(p.raw, name);
    forall i | 0 <= i < |PartsOf(path)| ensures !Glob(name, PartsOf(path)[i]) {
      if Glob(name, PartsOf(path)[i]) { GlobKeepsSlash(name, PartsOf(path)[i]); PiecesHaveNoSeparator(path, '/', i); }
    }
  }

  lemma LiteralTail(raw: string, name: string)
    requires HasPrefix(raw, "**/") && name == raw[3..] && Literal(name) && name != ""
    ensures Contains(raw, "**") && !HasSuffix(raw, "/**") && IndexFrom(raw, "/**/", 0).None?
  {
    assert raw == "**/" + name;
    assert HasPrefix(raw[0..], "**");
    assert raw[|raw| - 1] == name[|name| - 1] != '*';
    assert |raw| >= 3 && raw[|raw| - 3..][2] == raw[|raw| - 1];
    forall k | 0 <= k <= |raw| ensures !HasPrefix(raw[k..], "/**/") {
      if k + 4 <= |raw| {
        assert raw[k..][..4][2] == raw[k + 2] && raw[k..][..4][1] == raw[k + 1] && raw[k..][..4][0] == raw[k];
        assert k >= 1 ==> raw[k + 2] == name[k - 1];
      }
    }
  }

  /**
   * `dir/∗∗/end` matches exactly the paths at or below dir whose text ends in `end`, also within a
   * component, wherever the two do not overlap.
   */
  lemma InnerStarMatches(p: Pattern, path: string)
    requires InnerStar(p.raw).Some? && !HasPrefix(p.raw, "**/") && !HasSuffix(p.raw, "/**")
    requires |path| >= |InnerStar(p.raw).value.0| + |InnerStar(p.raw).value.1|
    ensures var (prefix, suffix) := InnerStar(p.raw).value;
            MatchPattern(p, path) == Some(PartsOf(prefix) <= PartsOf(path) && HasSuffix(path, suffix))
  {
    var (prefix, suffix) := InnerStar(p.raw).value;
    var idx := IndexFrom(p.raw, "/**/", 0).value;
    assert p.raw[idx..][..4] == "/**/";
    assert p.raw[idx + 1..][..2] == p.raw[idx..][..4][1..3];
    assert HasPrefix(p.raw[idx + 1..], "**");
    UnderIsContinuation(path, prefix);
    AroundMatches(prefix, suffix, path);
  }

  lemma AroundMatches(prefix: string, suffix: string, path: string)
    requires |path| >= |prefix| + |suffix|
    ensures MatchAround(prefix, suffix, path) == Some(IsOrUnder(path, prefix) && HasSuffix(path, suffix))
  {
    if HasPrefix(path, prefix + "/") && HasSuffix(path, suffix) && |prefix| + |suffix| < |path| {
      var middle := path[|prefix|..|path| - |suffix|];
      assert path[..|prefix| + 1][|prefix|] == '/';
      assert middle[..1] == [path[|prefix|]];
    }
  }

  /*---------- Which patterns make the matcher panic, and on which paths ----------*/

  lemma {:induction false} GlobKeepsSlash(p: string, s: string)
    requires '/' in p && Glob(p, s)
    ensures '/' in s
    decreases |p| + |s|
  {
    if p[0] == '*' {
      if Glob(p[1..], s) { GlobKeepsSlash(p[1..], s); } else { GlobKeepsSlash(p, s[1..]); }
    } else if p[0] != '/' {
      GlobKeepsSlash(p[1..], s[1..]);
    }
  }

  /** The first inner double star of a pattern: what stands before and after it. */
  function InnerStar(raw: string): Option<(string, string)> {
    var idx := IndexFrom(raw, "/**/", 0);
    if idx.None? then None else Some((raw[..idx.value], raw[idx.value + 4..]))
  }

  /** The last `k` characters of the prefix are the first `k` of the suffix, and a component ends there. */
  predicate OverlapAt(prefix: string, suffix: string, k: nat) {
    && 0 < k <= |prefix| && k <= |suffix|
    && prefix[|prefix| - k..] == suffix[..k]
    && (k == |suffix| || suffix[k] == '/')
  }

  /** A pattern that panics on some path that Match lets through. */
  predicate CanPanic(raw: string) {
    InnerStar(raw).Some? &&
    var (prefix, suffix) := InnerStar(raw).value;
    exists k :: 0 <= k <= |suffix| && OverlapAt(prefix, suffix, k) && Cleaned(prefix + suffix[k..])
  }

  /** The path is prefix and suffix laid over one another by `k` characters. */
  predicate OverlaidBy(raw: string, path: string, k: nat) {
    InnerStar(raw).Some? &&
    var (prefix, suffix) := InnerStar(raw).value;
    OverlapAt(prefix, suffix, k) && path == prefix + suffix[k..]
  }

  lemma AroundPanics(prefix: string, suffix: string, path: string, k: int)
    requires k == |prefix| + |suffix| - |path|
    ensures MatchAround(prefix, suffix, path).None? <==> k >= 0 && OverlapAt(prefix, suffix, k) && path == prefix + suffix[k..]
  {
    if MatchAround(prefix, suffix, path).None? {
      assert path[..|prefix|] == prefix by {
        if path != prefix { assert path[..|prefix| + 1] == prefix + "/"; assert path[..|prefix|] == path[..|prefix| + 1][..|prefix|]; }
      }
      assert path[|path| - |suffix|..] == suffix;
      var from := |path| - |suffix|;
      assert path[from..][k..] == path[|prefix|..];
      assert path[..|prefix|][from..] == path[from..|prefix|] == path[from..][..k];
      assert path == path[..|prefix|] + path[|prefix|..];
      if k < |suffix| {
        assert path[|prefix|] == '/' by { assert path[..|prefix| + 1][|prefix|] == '/'; }
        assert path[|prefix|] == suffix[k..][0];
      }
    }
    if k >= 0 && OverlapAt(prefix, suffix, k) && path == prefix + suffix[k..] {
      assert path[..|prefix|] == prefix;
      if k < |suffix| { assert path[..|prefix| + 1] == prefix + "/"; }
      assert path[|path| - |suffix|..] == prefix[|prefix| - k..] + suffix[k..];
      assert suffix[..k] + suffix[k..] == suffix;
    }
  }

  /** Where the slice bounds cross, the cases before the inner double star have not matched. */
  lemma EarlierCasesMiss(raw: string, path: string)
    requires InnerStar(raw).Some? && |path| < |InnerStar(raw).value.0| + |InnerStar(raw).value.1|
    ensures Contains(raw, "**")
    ensures HasPrefix(raw, "**/") ==> !MatchesAtAnyDepth(raw[3..], path)
    ensures HasSuffix(raw, "/**") ==> !IsOrUnder(path, raw[..|raw| - 3])
  {
    var idx := IndexFrom(raw, "/**/", 0).value;
    assert raw[idx..][..4] == "/**/";
    assert raw[idx + 1..][..2] == raw[idx..][..4][1..3];
    assert HasPrefix(raw[idx + 1..], "**");
    if HasPrefix(raw, "**/") && AnyPartMatches(raw[3..], PartsOf(path)) {
      var i :| 0 <= i < |PartsOf(path)| && Glob(raw[3..], PartsOf(path)[i]);
      assert raw[idx..][..4][0] == raw[idx] && raw[idx..][..4][3] == raw[idx + 3];
      assert raw[3..][idx] == '/';
      GlobKeepsSlash(raw[3..], PartsOf(path)[i]);
      PiecesHaveNoSeparator(path, '/', i);
      assert false;
    }
  }

  /** A pattern panics on exactly the paths that overlay its prefix and suffix. */
  lemma PanicsExactlyOnOverlap(p: Pattern, path: string)
    ensures Panics(p, path) <==> exists k :: 0 <= k <= |p.raw| && OverlaidBy(p.raw, path, k)
  {
    if InnerStar(p.raw).Some? {
      var (prefix, suffix) := InnerStar(p.raw).value;
      var k := |prefix| + |suffix| - |path|;
      AroundPanics(prefix, suffix, path, k);
      if k > 0 { EarlierCasesMiss(p.raw, path); }
      forall l | 0 <= l <= |p.raw| && OverlaidBy(p.raw, path, l) ensures l == k {}
      if MatchAround(prefix, suffix, path).None? { assert OverlaidBy(p.raw, path, k); }
    }
  }

  /** Whether a pattern can make the matcher panic can be read off the pattern. */
  lemma PanicsOnSomePath(p: Pattern)
    ensures (exists path :: Cleaned(path) && Panics(p, path)) <==> CanPanic(p.raw)
  {
    if path :| Cleaned(path) && Panics(p, path) {
      PanicsExactlyOnOverlap(p, path);
      var k :| 0 <= k <= |p.raw| && OverlaidBy(p.raw, path, k);
    }
    if CanPanic(p.raw) {
      var (prefix, suffix) := InnerStar(p.raw).value;
      var k :| 0 <= k <= |suffix| && OverlapAt(prefix, suffix, k) && Cleaned(prefix + suffix[k..]);
      assert OverlaidBy(p.raw, prefix + suffix[k..], k);
      PanicsExactlyOnOverlap(p, prefix + suffix[k..]);
      assert Panics(p, prefix + suffix[k..]);
    }
  }

  lemma LeadingSlashNotCleaned(path: string)
    requires IsAbs(path)
    ensures !Cleaned(path)
  {
    assert path == "" + "/" + path[1..];
    SplitAtSeparator("", path[1..], '/');
    assert PartsOf(path)[0] == "" && !ProperName(PartsOf(path)[0]);
  }

  /** A pattern anchored by a leading slash is safe: no path that Match lets through begins with one. */
  lemma AnchoredIsSafe(raw: string)
    requires IsAbs(raw)
    ensures !CanPanic(raw)
  {
    if InnerStar(raw).Some? {
      var (prefix, suffix) := InnerStar(raw).value;
      forall k | 0 <= k <= |suffix| && OverlapAt(prefix, suffix, k) ensures !Cleaned(prefix + suffix[k..]) {
        var path := prefix + suffix[k..];
        assert raw[..1][0] == '/' && path[0] == raw[0];
        LeadingSlashNotCleaned(path);
      }
    }
  }

  predicate Panics(p: Pattern, path: string) {
    MatchPattern(p, path).None?
  }

  predicate SomePanics(patterns: seq<Pattern>, path: string) {
    exists p :: p in patterns && Panics(p, path)
  }

  /** Match tries every pattern, so one that panics is enough whatever the others answer. */
  lemma {:induction false} MatchPanics(patterns: seq<Pattern>, path: string)
    ensures MatchRelative(patterns, path).None? <==> SomePanics(patterns, path)
  {
    if patterns != [] {
      var front, last := patterns[..|patterns| - 1], patterns[|patterns| - 1];
      MatchPanics(front, path);
      assert forall p :: p in patterns <==> p in front || p == last;
      assert MatchRelative(patterns, path).None? <==> MatchRelative(front, path).None? || Panics(last, path);
    }
  }

  function ParseAll(lines: seq<string>): (r: seq<Pattern>)
    ensures |r| == |lines|
  {
    seq(|lines|, i requires 0 <= i < |lines| => ParsePattern(lines[i]))
  }

  lemma LinePanics(root: Parts, lines: seq<string>, i: nat)
    requires i < |lines| && CanPanic(ParsePattern(lines[i]).raw)
    ensures exists path :: Match(root, ParseAll(lines), path).None?
  {
    var p := ParseAll(lines)[i];
    PanicsOnSomePath(p);
    var path :| Cleaned(path) && Panics(p, path);
    MatchPanics(ParseAll(lines), path);
    CleanedReachesLoop(root, path);
    assert Match(root, ParseAll(lines), path).None?;
  }

  lemma PanicHasLine(root: Parts, lines: seq<string>, path: string) returns (i: nat)
    requires Match(root, ParseAll(lines), path).None?
    ensures i < |lines| && CanPanic(ParsePattern(lines[i]).raw)
  {
    LoopSeesCleaned(root, path);
    var rel := RelativePath(root, path).value;
    MatchPanics(ParseAll(lines), rel);
    var p :| p in ParseAll(lines) && Panics(p, rel);
    i :| 0 <= i < |lines| && ParseAll(lines)[i] == p;
    PanicsOnSomePath(p);
  }

  /**
   * Whatever its root, the matcher is safe on every path exactly when no line of the ignore file can
   * panic; `lines` are the trimmed lines that are neither blank nor comments, which the loader skips.
   */
  lemma FileIsSafe(root: Parts, lines: seq<string>)
    ensures (forall path :: Match(root, ParseAll(lines), path).Some?) <==>
            (forall i :: 0 <= i < |lines| ==> !CanPanic(ParsePattern(lines[i]).raw))
  {
    if i :| 0 <= i < |lines| && CanPanic(ParsePattern(lines[i]).raw) { LinePanics(root, lines, i); }
    if path :| Match(root, ParseAll(lines), path).None? { var i := PanicHasLine(root, lines, path); }
  }

  lemma InnerStarAfter(name: string, suffix: string)
    requires '/' !in name
    ensures InnerStar(name + "/**/" + suffix) == Some((name, suffix))
  {
    var raw := name + "/**/" + suffix;
    assert raw[|name|..] == "/**/" + suffix;
    assert HasPrefix(raw[|name|..], "/**/");
    forall k | 0 <= k < |name| ensures !HasPrefix(raw[k..], "/**/") {
      assert raw[k] == name[k];
      assert |raw[k..]| >= 4 && raw[k..][..4][0] == raw[k];
    }
    assert raw[..|name|] == name && raw[|name| + 4..] == suffix;
    var idx := IndexFrom(raw, "/**/", 0);
    assert idx == Some(|name|);
  }

  lemma ParseKeeps(line: string)
    requires line != "" && line[0] != '!' && line[|line| - 1] != '/'
    ensures ParsePattern(line) == Pattern(line, false, false)
  {
    assert line[..1][0] == line[0] && line[|line| - 1..][0] == line[|line| - 1];
  }

  lemma RepeatedNameOverlaid(name: string)
    requires ProperName(name)
    ensures OverlaidBy(name + "/**/" + name, name, |name|)
  {
    InnerStarAfter(name, name);
    assert name[|name|..] == "" && name + "" == name;
  }

  lemma OnePanics(p: Pattern, path: string)
    requires Panics(p, path)
    ensures MatchRelative([p], path).None?
  {
    assert p in [p];
    MatchPanics([p], path);
  }

  /** A line `name/∗∗/name` makes the matcher panic on the path `name`. */
  lemma RepeatedNamePanics(root: Parts, name: string)
    requires ProperName(name) && name[0] != '!'
    ensures Match(root, [ParsePattern(name + "/**/" + name)], name).None?
  {
    var raw := name + "/**/" + name;
    assert raw[0] == name[0] && raw[|raw| - 1] == name[|name| - 1];
    ParseKeeps(raw);
    SplitWithout(name, '/');
    CleanedReachesLoop(root, name);
    RepeatedNameOverlaid(name);
    var p := ParsePattern(raw);
    PanicsExactlyOnOverlap(p, name);
    OnePanics(p, name);
  }

  /** An everyday line, and the directory it is meant for. */
  lemma OverlapPanics(root: Parts) returns (line: string, path: string)
    ensures line == "build/**/build" && path == "build"
    ensures Match(root, [ParsePattern(line)], path).None?
  {
    path := "build";
    line := path + "/**/" + path;
    assert line == "build/**/build";
    RepeatedNamePanics(root, path);
  }
}
