/** `dsm config get` and `dsm config set`: dotted paths into a JSON object tree. */
module NestedConfig {
  import opened Common

  datatype Json =
    | Null
    | Bool(b: bool)
    | Num(n: real)
    | Str(s: string)
    | Arr(items: seq<Json>)
    | Obj(fields: map<string, Json>)

  /** setNestedValueRecursive: the tree after the call and whether the value was set. */
  function Set(tree: Json, parts: seq<string>, value: Json): (Json, bool)
    decreases parts
  {
    if parts == [] || !tree.Obj? then (tree, false)
    else
      var part, remaining := parts[0], parts[1..];
      if MachineShortcut(tree, parts, value) then (Obj(tree.fields["machine" := value]), true)
      else if remaining == [] then (Obj(tree.fields[part := value]), true)
      else
        var next := if part in tree.fields then tree.fields[part] else Obj(map[]);
        var (changed, ok) := Set(next, remaining, value);
        (Obj(tree.fields[part := changed]), ok)
  }

  /** `machine.name` on an object whose machine is a plain string replaces that string. */
  predicate MachineShortcut(tree: Json, parts: seq<string>, value: Json)
    requires tree.Obj?
  {
    parts == ["machine", "name"] && Lookup(tree.fields, "machine").Some? && tree.fields["machine"].Str? && value.Str?
  }

  /** The navigation loop of getNestedValue. */
  function Navigate(tree: Json, parts: seq<string>): Option<Json>
    decreases parts
  {
    if parts == [] then Some(tree)
    else if parts[0] == "" || !tree.Obj? || parts[0] !in tree.fields || tree.fields[parts[0]].Null? then None
    else Navigate(tree.fields[parts[0]], parts[1..])
  }

  /** getNestedValue on a map: `machine.name` is answered by a struct lookup that a map never satisfies. */
  function Get(tree: Json, parts: seq<string>): Option<Json> {
    if parts == ["machine", "name"] then Some(Str("")) else Navigate(tree, parts)
  }

  /** The path ends in `machine.name` at an object whose machine is a string. */
  predicate TakesShortcut(tree: Json, parts: seq<string>, value: Json)
    decreases parts
  {
    parts != [] && tree.Obj? &&
    (MachineShortcut(tree, parts, value)
     || (parts[0] in tree.fields && TakesShortcut(tree.fields[parts[0]], parts[1..], value)))
  }

  /** What stands at a path, null and empty keys included. */
  function Reach(tree: Json, parts: seq<string>): Option<Json>
    decreases parts
  {
    if parts == [] then Some(tree)
    else if !tree.Obj? || parts[0] !in tree.fields then None
    else Reach(tree.fields[parts[0]], parts[1..])
  }

  /** Something other than null stands at the first `k` keys, and the last of them is not empty. */
  predicate VisibleAt(tree: Json, parts: seq<string>, k: nat)
    requires 0 < k <= |parts|
  {
    parts[k - 1] != "" && Reach(tree, parts[..k]).Some? && !Reach(tree, parts[..k]).value.Null?
  }

  /** A lookup finds what stands at the path, unless a key is empty or null stands somewhere on the way. */
  lemma {:induction false} NavigateMeans(tree: Json, parts: seq<string>)
    ensures Navigate(tree, parts) ==
            if forall k :: 0 < k <= |parts| ==> VisibleAt(tree, parts, k) then Reach(tree, parts) else None
    decreases parts
  {
    if parts != [] {
      var one := [parts[0]];
      assert parts[..1] == one && one[1..] == [];
      assert tree.Obj? && parts[0] in tree.fields ==> Reach(tree, one) == Reach(tree.fields[parts[0]], []);
      assert VisibleAt(tree, parts, 1) <==>
             parts[0] != "" && tree.Obj? && parts[0] in tree.fields && !tree.fields[parts[0]].Null?;
      if VisibleAt(tree, parts, 1) {
        var next := tree.fields[parts[0]];
        NavigateMeans(next, parts[1..]);
        forall k | 1 < k <= |parts| ensures VisibleAt(tree, parts, k) <==> VisibleAt(next, parts[1..], k - 1) {
          assert parts[..k][0] == parts[0] && parts[..k][1..] == parts[1..][..k - 1];
        }
        if forall k :: 0 < k <= |parts| ==> VisibleAt(tree, parts, k) {
          forall k | 0 < k <= |parts[1..]| ensures VisibleAt(next, parts[1..], k) { assert VisibleAt(tree, parts, k + 1); }
        }
      }
    }
  }

  predicate ObjectAt(tree: Json, parts: seq<string>, k: nat)
    requires k <= |parts|
  {
    var at := Reach(tree, parts[..k]);
    at.None? || at.value.Obj?
  }

  /** Whatever stands on the way to the path is an object. */
  ghost predicate OnlyObjectsOnTheWay(tree: Json, parts: seq<string>) {
    forall k :: 0 <= k < |parts| ==> ObjectAt(tree, parts, k)
  }

  lemma OnTheWayStep(tree: Json, parts: seq<string>)
    requires parts != []
    ensures OnlyObjectsOnTheWay(tree, parts) <==>
            tree.Obj? && (parts[0] in tree.fields ==> OnlyObjectsOnTheWay(tree.fields[parts[0]], parts[1..]))
  {
    assert parts[..0] == [];
    assert ObjectAt(tree, parts, 0) <==> tree.Obj?;
    forall k | 0 < k < |parts|
      ensures tree.Obj? ==> (ObjectAt(tree, parts, k) <==> parts[0] !in tree.fields || ObjectAt(tree.fields[parts[0]], parts[1..], k - 1))
    {
      assert parts[..k][0] == parts[0] && parts[..k][1..] == parts[1..][..k - 1];
    }
    if tree.Obj? && parts[0] in tree.fields && OnlyObjectsOnTheWay(tree, parts) {
      forall k | 0 <= k < |parts[1..]| ensures ObjectAt(tree.fields[parts[0]], parts[1..], k) {
        assert ObjectAt(tree, parts, k + 1);
      }
    }
  }

  /** A set succeeds exactly when only objects stand on the way, whatever stands at the path itself, or by the shortcut. */
  lemma {:induction false} SetSucceeds(tree: Json, parts: seq<string>, value: Json)
    ensures Set(tree, parts, value).1 <==>
            TakesShortcut(tree, parts, value) || (parts != [] && OnlyObjectsOnTheWay(tree, parts))
    decreases parts
  {
    if parts != [] {
      OnTheWayStep(tree, parts);
      if tree.Obj? && !MachineShortcut(tree, parts, value) {
        var next := if parts[0] in tree.fields then tree.fields[parts[0]] else Obj(map[]);
        if |parts| > 1 {
          SetSucceeds(next, parts[1..], value);
          if parts[0] !in tree.fields { FreshSetSucceeds(parts[1..], value); }
        }
      }
    }
  }

  lemma {:induction false} NavigateAfterSet(tree: Json, parts: seq<string>, value: Json)
    requires Set(tree, parts, value).1 && value != Null && forall i :: 0 <= i < |parts| ==> parts[i] != ""
    ensures Navigate(Set(tree, parts, value).0, parts) == Some(value) <==> !TakesShortcut(tree, parts, value)
    ensures TakesShortcut(tree, parts, value) ==> Navigate(Set(tree, parts, value).0, parts).None?
    decreases parts
  {
    var part, remaining := parts[0], parts[1..];
    if MachineShortcut(tree, parts, value) {
      var after := Set(tree, parts, value).0;
      assert after.fields["machine"] == value;
      assert Navigate(value, remaining).None?;
    } else if remaining != [] {
      var next := if part in tree.fields then tree.fields[part] else Obj(map[]);
      NavigateAfterSet(next, remaining, value);
      assert Set(next, remaining, value).0.Obj?;
    }
  }

  /**
   * After a successful set of a value other than null at a path of non-empty parts, get returns that
   * value exactly when the path is not `machine.name` and the set did not take the machine shortcut;
   * `machine.name` always reads back as the empty string.
   */
  lemma SetThenGet(tree: Json, parts: seq<string>, value: Json)
    requires Set(tree, parts, value).1 && value != Null && forall i :: 0 <= i < |parts| ==> parts[i] != ""
    ensures Get(Set(tree, parts, value).0, parts) == Some(value) <==>
            if parts == ["machine", "name"] then value == Str("") else !TakesShortcut(tree, parts, value)
  {
    NavigateAfterSet(tree, parts, value);
  }

  /** A failed set leaves the whole tree as it was. */
  lemma {:induction false} FailedSetChangesNothing(tree: Json, parts: seq<string>, value: Json)
    requires !Set(tree, parts, value).1
    ensures Set(tree, parts, value).0 == tree
    decreases parts
  {
    if parts != [] && tree.Obj? {
      var part, remaining := parts[0], parts[1..];
      var next := if part in tree.fields then tree.fields[part] else Obj(map[]);
      FailedSetChangesNothing(next, remaining, value);
      if part in tree.fields {
        assert tree.fields[part := next] == tree.fields;
      } else {
        FreshSetSucceeds(remaining, value);
      }
    }
  }

  /** Setting inside a freshly created object always succeeds. */
  lemma {:induction false} FreshSetSucceeds(parts: seq<string>, value: Json)
    requires parts != []
    ensures Set(Obj(map[]), parts, value).1
    decreases parts
  {
    if |parts| > 1 { FreshSetSucceeds(parts[1..], value); }
  }

  /** Neither path continues the other: they part ways somewhere. */
  predicate Diverge(p: seq<string>, q: seq<string>)
    decreases p
  {
    p != [] && q != [] && (p[0] != q[0] || Diverge(p[1..], q[1..]))
  }

  lemma {:induction false} NavigateElsewhere(tree: Json, p: seq<string>, q: seq<string>, value: Json)
    requires Diverge(p, q)
    ensures Navigate(Set(tree, p, value).0, q) == Navigate(tree, q)
    decreases p
  {
    if tree.Obj? {
      var part, remaining := p[0], p[1..];
      if MachineShortcut(tree, p, value) {
        if q[0] == "machine" {
          assert Diverge(remaining, q[1..]);
          assert Navigate(tree.fields["machine"], q[1..]).None? && Navigate(value, q[1..]).None?;
        }
      } else if remaining != [] && q[0] == part {
        var next := if part in tree.fields then tree.fields[part] else Obj(map[]);
        NavigateElsewhere(next, remaining, q[1..], value);
        NeverBecomesNull(next, remaining, value);
        if part !in tree.fields { assert Navigate(next, q[1..]).None?; }
      }
    }
  }

  lemma NeverBecomesNull(tree: Json, parts: seq<string>, value: Json)
    requires parts != []
    ensures Set(tree, parts, value).0.Null? <==> tree.Null?
  {
  }

  /** A set changes no value at a path that is neither a prefix nor an extension of its own. */
  lemma SetElsewhereKeepsGet(tree: Json, p: seq<string>, q: seq<string>, value: Json)
    requires !(p <= q) && !(q <= p)
    ensures Get(Set(tree, p, value).0, q) == Get(tree, q)
  {
    DivergeIffNeitherPrefix(p, q);
    NavigateElsewhere(tree, p, q, value);
  }

  /** Diverging is the same as being neither prefix nor extension. */
  lemma {:induction false} DivergeIffNeitherPrefix(p: seq<string>, q: seq<string>)
    ensures Diverge(p, q) <==> !(p <= q) && !(q <= p)
    decreases p
  {
    if p != [] && q != [] && p[0] == q[0] {
      DivergeIffNeitherPrefix(p[1..], q[1..]);
      PrefixTail(p, q);
      PrefixTail(q, p);
    }
  }

  lemma PrefixTail(p: seq<string>, q: seq<string>)
    requires p != [] && q != [] && p[0] == q[0]
    ensures p <= q <==> p[1..] <= q[1..]
  {
    assert p == [p[0]] + p[1..] && q == [q[0]] + q[1..];
    if p[1..] <= q[1..] {
      assert forall i :: 0 < i < |p| ==> p[i] == p[1..][i - 1] && q[i] == q[1..][i - 1];
    }
    if p <= q {
      assert forall i :: 0 <= i < |p| - 1 ==> p[1..][i] == p[i + 1] && q[1..][i] == q[i + 1];
    }
  }
}
