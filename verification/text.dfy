/** Byte-order comparison, sorted listings, and the few string functions the models share. */
module Text {
  /** Byte-wise lexicographic order: the order of Go's `<` on strings. */
  predicate Less(a: string, b: string) {
    if b == [] then false
    else if a == [] then true
    else if a[0] == b[0] then Less(a[1..], b[1..])
    else a[0] < b[0]
  }

  lemma {:induction false} LessTotal(a: string, b: string)
    ensures a == b || Less(a, b) || Less(b, a)
    ensures !(Less(a, b) && Less(b, a)) && (a == b ==> !Less(a, b))
  {
    if a != [] && b != [] && a[0] == b[0] {
      LessTotal(a[1..], b[1..]);
      if a[1..] == b[1..] {
        assert a == [a[0]] + a[1..] && b == [b[0]] + b[1..];
      }
    }
  }

  lemma {:induction false} LessTransitive(a: string, b: string, c: string)
    requires Less(a, b) && Less(b, c)
    ensures Less(a, c)
  {
    if a != [] && a[0] == b[0] && b[0] == c[0] {
      LessTransitive(a[1..], b[1..], c[1..]);
    }
  }

  predicate StrictlySorted(s: seq<string>) {
    forall i, j :: 0 <= i < j < |s| ==> Less(s[i], s[j])
  }

  function Elements<T>(s: seq<T>): set<T> {
    set x | x in s
  }

  /** Insert a new string into a strictly sorted listing. */
  function InsertSorted(x: string, s: seq<string>): (r: seq<string>)
    requires StrictlySorted(s) && x !in s
    ensures StrictlySorted(r) && Elements(r) == Elements(s) + {x}
  {
    if s == [] then [x]
    else if Less(x, s[0]) then
      assert forall j :: 0 < j < |s| ==> Less(x, s[j]) by {
        forall j | 0 < j < |s| ensures Less(x, s[j]) { LessTransitive(x, s[0], s[j]); }
      }
      [x] + s
    else
      var t := InsertSorted(x, s[1..]);
      assert s == [s[0]] + s[1..];
      assert forall y :: y in t ==> Less(s[0], y) by {
        LessTotal(x, s[0]);
        forall y | y in t ensures Less(s[0], y) {
          assert y in Elements(t);
        }
      }
      [s[0]] + t
  }

  /** Listing of a set in sorted order, as `sort.Strings` on the collected keys gives it. */
  method SortedListing(names: set<string>) returns (r: seq<string>)
    ensures StrictlySorted(r) && Elements(r) == names && r == SortedOf(names)
  {
    r := [];
    var todo := names;
    while todo != {}
      invariant StrictlySorted(r) && todo <= names && Elements(r) == names - todo
      decreases |todo|
    {
      var x :| x in todo;
      assert x !in Elements(r);
      r := InsertSorted(x, r);
      todo := todo - {x};
    }
    SortedListingUnique(r, SortedOf(names));
  }

  /** The sorted listing of a set. */
  ghost function SortedOf(names: set<string>): (r: seq<string>)
    ensures StrictlySorted(r) && Elements(r) == names
  {
    if names == {} then []
    else
      var x :| x in names;
      assert x !in Elements(SortedOf(names - {x}));
      InsertSorted(x, SortedOf(names - {x}))
  }

  /** A set has only one sorted listing, so two programs that both sort agree on the order. */
  lemma {:induction false} SortedListingUnique(a: seq<string>, b: seq<string>)
    requires StrictlySorted(a) && StrictlySorted(b) && Elements(a) == Elements(b)
    ensures a == b
  {
    if a == [] {
      ElementsEmpty(b);
    } else {
      assert a[0] in Elements(b);
      assert b[0] in Elements(a);
      HeadIsLeast(a, b[0]);
      HeadIsLeast(b, a[0]);
      LessTotal(a[0], b[0]);
      TailElements(a);
      TailElements(b);
      SortedListingUnique(a[1..], b[1..]);
      assert a == [a[0]] + a[1..] && b == [b[0]] + b[1..];
    }
  }

  lemma ElementsEmpty<T>(s: seq<T>)
    ensures Elements(s) == {} <==> s == []
  {
    assert |s| > 0 ==> s[0] in Elements(s);
  }

  lemma HeadIsLeast(s: seq<string>, x: string)
    requires StrictlySorted(s) && x in s
    ensures x == s[0] || Less(s[0], x)
  {
    var k :| 0 <= k < |s| && s[k] == x;
    assert k == 0 || Less(s[0], s[k]);
  }

  lemma TailElements(a: seq<string>)
    requires a != [] && StrictlySorted(a)
    ensures Elements(a[1..]) == Elements(a) - {a[0]}
  {
    forall x | x in a[1..] ensures x != a[0] {
      LessTotal(x, a[0]);
    }
    assert a == [a[0]] + a[1..];
  }

  predicate HasPrefix(s: string, p: string) {
    |p| <= |s| && s[..|p|] == p
  }

  predicate HasSuffix(s: string, p: string) {
    |p| <= |s| && s[|s| - |p|..] == p
  }

  /*---------- Splitting at a separator ----------*/

  /** strings.Split at a one-element separator: the pieces between separators, at least one. */
  function SplitOn<T(==)>(s: seq<T>, sep: T): (r: seq<seq<T>>)
    ensures |r| > 0
  {
    if s == [] then [[]] else Extend(s[0], sep, SplitOn(s[1..], sep))
  }

  function Extend<T(==)>(c: T, sep: T, parts: seq<seq<T>>): (r: seq<seq<T>>)
    requires |parts| > 0
    ensures |r| > 0
  {
    if c == sep then [[]] + parts else [[c] + parts[0]] + parts[1..]
  }

  /** Joining two texts joins the last piece of one with the first piece of the other. */
  function Glue<T>(x: seq<seq<T>>, y: seq<seq<T>>): seq<seq<T>>
    requires |x| > 0 && |y| > 0
  {
    x[..|x| - 1] + [x[|x| - 1] + y[0]] + y[1..]
  }

  lemma SplitCons<T>(c: T, s: seq<T>, sep: T)
    ensures SplitOn([c] + s, sep) == Extend(c, sep, SplitOn(s, sep))
  {
    assert ([c] + s)[1..] == s;
  }

  lemma ExtendGlue<T>(c: T, sep: T, x: seq<seq<T>>, y: seq<seq<T>>)
    requires |x| > 0 && |y| > 0
    ensures Extend(c, sep, Glue(x, y)) == Glue(Extend(c, sep, x), y)
  {
    if c != sep && |x| == 1 {
      assert [c] + (x[0] + y[0]) == ([c] + x[0]) + y[0];
    }
  }

  lemma {:induction false} SplitConcat<T>(a: seq<T>, b: seq<T>, sep: T)
    ensures SplitOn(a + b, sep) == Glue(SplitOn(a, sep), SplitOn(b, sep))
  {
    if a == [] {
      assert a + b == b;
      assert [] + SplitOn(b, sep)[0] == SplitOn(b, sep)[0];
    } else {
      SplitConcat(a[1..], b, sep);
      SplitCons(a[0], a[1..], sep);
      SplitCons(a[0], a[1..] + b, sep);
      ExtendGlue(a[0], sep, SplitOn(a[1..], sep), SplitOn(b, sep));
      assert a == [a[0]] + a[1..];
      assert a + b == [a[0]] + (a[1..] + b);
    }
  }

  lemma {:induction false} SplitWithout<T>(s: seq<T>, sep: T)
    requires sep !in s
    ensures SplitOn(s, sep) == [s]
  {
    if s != [] {
      SplitWithout(s[1..], sep);
      assert [s[0]] + s[1..] == s;
    }
  }

  /** No piece contains the separator. */
  lemma {:induction false} PiecesHaveNoSeparator<T>(s: seq<T>, sep: T, i: nat)
    requires i < |SplitOn(s, sep)|
    ensures sep !in SplitOn(s, sep)[i]
  {
    if s != [] {
      var rest := SplitOn(s[1..], sep);
      if s[0] == sep {
        if i > 0 { PiecesHaveNoSeparator(s[1..], sep, i - 1); }
      } else {
        PiecesHaveNoSeparator(s[1..], sep, i);
      }
    }
  }

  /** Splitting at an occurrence of the separator splits the two sides separately. */
  lemma SplitAtSeparator<T>(a: seq<T>, b: seq<T>, sep: T)
    ensures SplitOn(a + [sep] + b, sep) == SplitOn(a, sep) + SplitOn(b, sep)
  {
    var x, y := SplitOn(a, sep), SplitOn(b, sep);
    SplitConcat(a, [sep] + b, sep);
    SplitCons(sep, b, sep);
    assert a + [sep] + b == a + ([sep] + b);
    assert x[|x| - 1] + [] == x[|x| - 1];
    assert x == x[..|x| - 1] + [x[|x| - 1]];
  }
}
