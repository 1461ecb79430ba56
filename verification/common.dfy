/** Shared value types and the one source of nondeterminism used by every file-system model. */
module Common {
  datatype Option<+T> = None | Some(value: T)

  /** The entry of a map at a key that may be absent. */
  function Lookup<K, V>(m: map<K, V>, k: K): Option<V> {
    if k in m then Some(m[k]) else None
  }

  /** The map with one entry set, or removed when the new entry is None. */
  function Assign<K, V>(m: map<K, V>, k: K, v: Option<V>): map<K, V> {
    match v
    case Some(x) => m[k := x]
    case None => m - {k}
  }

  lemma SameLookups<K, V>(a: map<K, V>, b: map<K, V>)
    requires forall k :: Lookup(a, k) == Lookup(b, k)
    ensures a == b
  {
    forall k ensures k in a <==> k in b {
      assert Lookup(a, k) == Lookup(b, k);
    }
    forall k | k in a ensures a[k] == b[k] {
      assert Lookup(a, k) == Lookup(b, k);
    }
  }

  lemma SameUpdate<K, V>(a: map<K, V>, b: map<K, V>, k: K, v: V)
    requires forall x :: x != k ==> Lookup(a, x) == Lookup(b, x)
    ensures a[k := v] == b[k := v]
  {
    var c, d := a[k := v], b[k := v];
    forall x ensures Lookup(c, x) == Lookup(d, x) {
      if x != k { assert Lookup(a, x) == Lookup(b, x); }
    }
    SameLookups(c, d);
  }

  lemma UpdatedTwice<K, V>(m: map<K, V>, k: K, a: V, b: V)
    ensures m[k := a][k := b] == m[k := b]
  {
  }

  lemma RemovedTwice<K, V>(m: map<K, V>, a: set<K>, b: set<K>)
    ensures (m - a) - b == m - (a + b)
  {
    assert ((m - a) - b).Keys == (m - (a + b)).Keys;
  }

  /** A system call that may fail for reasons the program cannot see, unless the system is reliable. */
  method MayFail(reliable: bool) returns (failed: bool)
    ensures reliable ==> !failed
  {
    failed := *;
    if reliable { failed := false; }
  }

  /** The last `n` entries of a sequence, or all of them. */
  function LastN<T>(s: seq<T>, n: nat): seq<T> {
    if |s| > n then s[|s| - n..] else s
  }

  newtype byte = x: int | 0 <= x < 256
  type Bytes = seq<byte>
  type Path = string

  /** The bytes of an ASCII literal. */
  function AsciiBytes(s: string): (r: Bytes)
    ensures |r| == |s|
  {
    seq(|s|, i requires 0 <= i < |s| => (s[i] as int % 256) as byte)
  }

  /** Flat picture of a directory tree of regular files: path to contents. */
  type Tree = map<Path, Bytes>
}
