/** Slash-separated paths as filepath.Clean and filepath.Rel see them: lists of components. */
module Paths {
  import opened Common
  import opened Text

  type Parts = seq<string>

  function PartsOf(p: Path): Parts {
    SplitOn(p, '/')
  }

  predicate IsAbs(p: Path) {
    HasPrefix(p, "/")
  }

  /** One component of filepath.Clean on the stack of components kept so far. */
  function Push(stack: Parts, part: string, rooted: bool): Parts {
    if part == "" || part == "." then stack
    else if part == ".." then
      if stack != [] && stack[|stack| - 1] != ".." then stack[..|stack| - 1]
      else if rooted then stack
      else stack + [".."]
    else stack + [part]
  }

  function Clean(stack: Parts, parts: Parts, rooted: bool): Parts
    decreases parts
  {
    if parts == [] then stack else Clean(Push(stack, parts[0], rooted), parts[1..], rooted)
  }

  function CleanRel(p: Path): Parts { Clean([], PartsOf(p), false) }
  function CleanAbs(p: Path): Parts { Clean([], PartsOf(p), true) }

  predicate StartsDotDot(s: string) {
    HasPrefix(s, "..")
  }

  function CommonLength(a: Parts, b: Parts): (k: nat)
    ensures k <= |a| && k <= |b| && a[..k] == b[..k]
    ensures k < |a| && k < |b| ==> a[k] != b[k]
  {
    if a == [] || b == [] || a[0] != b[0] then 0
    else
      var k := CommonLength(a[1..], b[1..]);
      assert a[..k + 1] == [a[0]] + a[1..][..k] && b[..k + 1] == [b[0]] + b[1..][..k];
      k + 1
  }

  function Ups(n: nat): (r: Parts)
    ensures |r| == n && forall i :: 0 <= i < n ==> r[i] == ".."
  {
    seq(n, _ => "..")
  }

  /** filepath.Rel of two cleaned absolute paths, as components; no components stands for ".". */
  function Rel(base: Parts, target: Parts): Parts {
    var k := CommonLength(base, target);
    Ups(|base| - k) + target[k..]
  }

  lemma CommonOfPrefix(a: Parts, b: Parts)
    ensures CommonLength(a, b) == |a| <==> a <= b
  {
    var k := CommonLength(a, b);
    if a <= b { assert forall i :: 0 <= i < |a| ==> a[i] == b[i]; }
  }

  predicate NoDots(stack: Parts) {
    forall i :: 0 <= i < |stack| ==> stack[i] != ".."
  }

  /** Once a cleaned relative path has gone above its start it never comes back. */
  lemma {:induction false} DotDotStays(stack: Parts, parts: Parts)
    requires stack != [] && stack[0] == ".."
    ensures Clean(stack, parts, false) != [] && Clean(stack, parts, false)[0] == ".."
    decreases parts
  {
    if parts != [] { DotDotStays(Push(stack, parts[0], false), parts[1..]); }
  }

  /** A component that does not leave the start does the same above any base. */
  lemma PushAbove(repo: Parts, stack: Parts, part: string)
    requires NoDots(stack) && !(part == ".." && stack == [])
    ensures Push(repo + stack, part, true) == repo + Push(stack, part, false) && NoDots(Push(stack, part, false))
  {
    if part == ".." {
      assert (repo + stack)[..|repo + stack| - 1] == repo + stack[..|stack| - 1];
    } else if part != "" && part != "." {
      assert (repo + stack) + [part] == repo + (stack + [part]);
    }
  }

  lemma {:induction false} WalkFrom(repo: Parts, stack: Parts, parts: Parts)
    requires NoDots(stack)
    requires var c := Clean(stack, parts, false); c == [] || c[0] != ".."
    ensures Clean(repo + stack, parts, true) == repo + Clean(stack, parts, false)
    decreases parts
  {
    if parts != [] {
      if parts[0] == ".." && stack == [] {
        DotDotStays(Push(stack, parts[0], false), parts[1..]);
        assert false;
      } else {
        PushAbove(repo, stack, parts[0]);
        WalkFrom(repo, Push(stack, parts[0], false), parts[1..]);
      }
    }
  }

  lemma {:induction false} CleanConcat(stack: Parts, a: Parts, b: Parts, rooted: bool)
    ensures Clean(stack, a + b, rooted) == Clean(Clean(stack, a, rooted), b, rooted)
    decreases a
  {
    if a == [] {
      assert a + b == b;
    } else {
      assert (a + b)[0] == a[0] && (a + b)[1..] == a[1..] + b;
      CleanConcat(Push(stack, a[0], rooted), a[1..], b, rooted);
    }
  }

  /** filepath.Rel keeps its promise: the relative path, followed from the base, leads to the target. */
  lemma RelLeadsToTarget(base: Parts, target: Parts)
    requires Proper(base) && Proper(target)
    ensures Clean(base, Rel(base, target), true) == target
  {
    var k := CommonLength(base, target);
    var down := target[k..];
    forall i | 0 <= i < |down| ensures ProperName(down[i]) { assert down[i] == target[k + i]; }
    UpThenDown(base, k, down);
    FirstAndRest(target, k);
  }

  lemma FirstAndRest(parts: Parts, k: nat)
    requires k <= |parts|
    ensures parts[..k] + parts[k..] == parts
  {
  }

  lemma UpThenDown(base: Parts, k: nat, down: Parts)
    requires Proper(base) && Proper(down) && k <= |base|
    ensures Clean(base, Ups(|base| - k) + down, true) == base[..k] + down
  {
    CleanConcat(base, Ups(|base| - k), down, true);
    CleanClimbs(base, k, Ups(|base| - k));
    CleanKeeps(base[..k], down, true);
  }

  lemma {:induction false} CleanClimbs(base: Parts, k: nat, up: Parts)
    requires Proper(base) && k <= |base| && |up| == |base| - k && forall i :: 0 <= i < |up| ==> up[i] == ".."
    ensures Clean(base, up, true) == base[..k]
    decreases |up|
  {
    if up == [] {
      assert base[..k] == base;
    } else {
      assert ProperName(base[|base| - 1]);
      CleanClimbs(base[..|base| - 1], k, up[1..]);
      assert base[..|base| - 1][..k] == base[..k];
    }
  }

  /** A name begins with two dots, and a path is absolute, by its first characters. */
  lemma ByFirstCharacters(s: string)
    ensures StartsDotDot(s) <==> |s| >= 2 && s[0] == '.' && s[1] == '.'
    ensures IsAbs(s) <==> |s| >= 1 && s[0] == '/'
  {
    if |s| >= 2 { assert s[..2] == [s[0], s[1]]; }
    if |s| >= 1 { assert s[..1] == [s[0]]; }
  }

  /** A name followed by `..` cancels out, and an empty component or `.` changes nothing. */
  lemma UpCancels(stack: Parts, name: string, rooted: bool)
    requires ProperName(name)
    ensures Clean(stack, [name, ".."], rooted) == stack
    ensures Clean(stack, ["", "."], rooted) == stack
  {
    assert [name, ".."][1..] == [".."] && [".."][1..] == [];
    assert ["", "."][1..] == ["."] && ["."][1..] == [];
    assert (stack + [name])[..|stack|] == stack;
  }

  /*---------- Clean paths ----------*/

  /** A component that filepath.Clean keeps. */
  predicate ProperName(n: string) {
    n != "" && n != "." && n != ".." && '/' !in n
  }

  predicate Proper(parts: Parts) {
    forall i :: 0 <= i < |parts| ==> ProperName(parts[i])
  }

  /** Components joined by slashes; no components give the empty path. */
  function Joined(parts: Parts): string {
    if parts == [] then "" else if |parts| == 1 then parts[0] else parts[0] + "/" + Joined(parts[1..])
  }

  /** A relative path without empty, `.` or `..` components; the empty path stands for the root itself. */
  predicate Cleaned(path: string) {
    path == "" || Proper(PartsOf(path))
  }

  lemma {:induction false} PartsOfJoined(parts: Parts)
    requires parts != [] && Proper(parts)
    ensures PartsOf(Joined(parts)) == parts
  {
    SplitWithout(parts[0], '/');
    if |parts| > 1 {
      PartsOfJoined(parts[1..]);
      SplitAtSeparator(parts[0], Joined(parts[1..]), '/');
      assert parts == [parts[0]] + parts[1..];
    }
  }

  lemma {:induction false} JoinedExtend(c: char, parts: Parts)
    requires |parts| > 0
    ensures Joined(Extend(c, '/', parts)) == [c] + Joined(parts)
  {
    var longer := Extend(c, '/', parts);
    if c == '/' {
      assert longer[1..] == parts;
      assert longer[0] + "/" + Joined(parts) == [c] + Joined(parts);
    } else {
      assert longer[1..] == parts[1..];
    }
  }

  lemma {:induction false} JoinedParts(path: string)
    ensures Joined(PartsOf(path)) == path
  {
    if path != [] {
      JoinedParts(path[1..]);
      JoinedExtend(path[0], PartsOf(path[1..]));
      assert path == [path[0]] + path[1..];
    }
  }

  lemma PartsHaveNoSlash(path: string)
    ensures forall i :: 0 <= i < |PartsOf(path)| ==> '/' !in PartsOf(path)[i]
  {
    forall i | 0 <= i < |PartsOf(path)| ensures '/' !in PartsOf(path)[i] {
      PiecesHaveNoSeparator(path, '/', i);
    }
  }

  /** What Clean keeps of an absolute path, or of a relative one that does not leave its start, is proper. */
  lemma {:induction false} CleanIsProper(stack: Parts, parts: Parts, rooted: bool)
    requires Proper(stack) && forall i :: 0 <= i < |parts| ==> '/' !in parts[i]
    requires rooted || (var c := Clean(stack, parts, false); c == [] || c[0] != "..")
    ensures Proper(Clean(stack, parts, rooted))
    decreases parts
  {
    if parts != [] {
      var next := Push(stack, parts[0], rooted);
      if !rooted && parts[0] == ".." && stack == [] {
        DotDotStays(next, parts[1..]);
        assert false;
      } else {
        CleanIsProper(next, parts[1..], rooted);
      }
    }
  }

  /** Clean keeps proper components as they are. */
  lemma {:induction false} CleanKeeps(stack: Parts, parts: Parts, rooted: bool)
    requires Proper(parts)
    ensures Clean(stack, parts, rooted) == stack + parts
    decreases parts
  {
    if parts == [] {
      assert stack + parts == stack;
    } else {
      assert ProperName(parts[0]);
      CleanKeeps(stack + [parts[0]], parts[1..], rooted);
      assert stack + parts == stack + [parts[0]] + parts[1..];
    }
  }
}
