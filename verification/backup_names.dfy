/** Names of backups: claiming a fresh one and reading the original path back from it. */
module BackupNames {
  import opened Common
  import opened Text

  const MAX_ATTEMPTS := 100

  predicate IsDigit(c: char) {
    '0' <= c <= '9'
  }

  predicate AllDigits(s: string) {
    forall i :: 0 <= i < |s| ==> IsDigit(s[i])
  }

  /** YYYYMMDD_HHMMSS */
  predicate IsDateTime(s: string) {
    |s| == 15 && AllDigits(s[..8]) && s[8] == '_' && AllDigits(s[9..])
  }

  /** YYYYMMDD_HHMMSS.microseconds, the format of generated names. */
  predicate IsTimestamp(s: string) {
    |s| == 22 && IsDateTime(s[..15]) && s[15] == '.' && AllDigits(s[16..])
  }

  function Replaced(s: string, from: char, to: char): (r: string)
    ensures |r| == |s| && forall i :: 0 <= i < |s| ==> r[i] == if s[i] == from then to else s[i]
  {
    seq(|s|, i requires 0 <= i < |s| => if s[i] == from then to else s[i])
  }

  function Digit(n: nat): (c: char)
    requires n < 10
    ensures IsDigit(c)
  {
    '0' + n as char
  }

  /** %03d of a collision counter. */
  function Counter(n: nat): (s: string)
    requires n < MAX_ATTEMPTS
    ensures |s| == 3 && AllDigits(s)
  {
    ['0', Digit(n / 10), Digit(n % 10)]
  }

  function BackupName(timestamp: string, attempt: nat, path: Path): string
    requires attempt < MAX_ATTEMPTS
  {
    var encoded := Replaced(path, '/', '_');
    if attempt == 0 then "backup_" + timestamp + "_" + encoded
    else "backup_" + timestamp + "_" + Counter(attempt) + "_" + encoded
  }

  /** The hundred names of one timestamp and path differ. */
  lemma NamesDiffer(timestamp: string, path: Path, i: nat, j: nat)
    requires i < j < MAX_ATTEMPTS
    ensures BackupName(timestamp, i, path) != BackupName(timestamp, j, path)
  {
    var a, b := BackupName(timestamp, i, path), BackupName(timestamp, j, path);
    var n := |"backup_" + timestamp + "_"|;
    if i == 0 {
      assert |b| == |a| + 4;
    } else {
      assert a[n..n + 3] == Counter(i) && b[n..n + 3] == Counter(j);
      assert Counter(i) != Counter(j) by {
        if i / 10 == j / 10 { assert i % 10 != j % 10; }
        assert Counter(i)[1] == Digit(i / 10) && Counter(j)[1] == Digit(j / 10);
        assert Counter(i)[2] == Digit(i % 10) && Counter(j)[2] == Digit(j % 10);
      }
    }
  }

  /*---------- Claiming a name ----------*/

  class BackupDir {
    const reliable: bool
    var names: set<string>

    /**
     * generateUniqueBackupPath: claims the first free name.  Without other errors it fails exactly
     * when all hundred names are taken.
     */
    method GenerateUniqueBackupPath(timestamp: string, path: Path) returns (r: Option<string>, ghost ioFailed: bool)
      modifies this
      ensures r.Some? ==> r.value !in old(names) && names == old(names) + {r.value}
      ensures r.Some? ==> exists k: nat :: k < MAX_ATTEMPTS && r.value == BackupName(timestamp, k, path)
                                           && forall j: nat :: j < k ==> BackupName(timestamp, j, path) in old(names)
      ensures r.None? ==> names == old(names)
      ensures reliable ==> !ioFailed
      ensures !ioFailed ==> (r.None? <==> forall j: nat :: j < MAX_ATTEMPTS ==> BackupName(timestamp, j, path) in old(names))
    {
      ioFailed := false;
      var attempt := 0;
      while attempt < MAX_ATTEMPTS
        invariant attempt <= MAX_ATTEMPTS && names == old(names) && !ioFailed
        invariant forall j: nat :: j < attempt ==> BackupName(timestamp, j, path) in names
      {
        var backupName := BackupName(timestamp, attempt, path);
        var failed := MayFail(reliable);
        if failed { return None, true; }
        if backupName !in names {
          names := names + {backupName};
          return Some(backupName), false;
        }
        attempt := attempt + 1;
      }
      return None, false;
    }
  }

  /*---------- Reading the path back ----------*/

  /** The final part of the pattern: an underscore and at least one character, none a newline. */
  function MatchRest(s: string): Option<string> {
    if |s| >= 2 && s[0] == '_' && '\n' !in s[1..] then Some(s[1..]) else None
  }

  /** The optional counter, preferred when the rest still matches. */
  function MatchCounter(s: string): Option<string> {
    if |s| >= 4 && s[0] == '_' && AllDigits(s[1..4]) && MatchRest(s[4..]).Some? then MatchRest(s[4..]) else MatchRest(s)
  }

  /** The optional microseconds, preferred when the rest still matches. */
  function MatchMicros(s: string): Option<string> {
    if |s| >= 7 && s[0] == '.' && AllDigits(s[1..7]) && MatchCounter(s[7..]).Some? then MatchCounter(s[7..]) else MatchCounter(s)
  }

  /** backupPattern: the encoded path of a backup name, old and new formats. */
  function MatchBackupName(name: string): Option<string> {
    if HasPrefix(name, "backup_") && |name| >= 22 && IsDateTime(name[7..22]) then MatchMicros(name[22..]) else None
  }

  /** ListBackups: the original path shown for a name; empty when the name is no backup's. */
  function OriginalPath(name: string): Path {
    var encoded := MatchBackupName(name);
    if encoded.None? then ""
    else
      var decoded := Replaced(encoded.value, '_', '/');
      if HasPrefix(decoded, "/") then decoded else encoded.value
  }

  lemma GeneratedShape(timestamp: string, attempt: nat, path: Path)
    requires IsTimestamp(timestamp) && attempt < MAX_ATTEMPTS
    ensures var name := BackupName(timestamp, attempt, path);
            var tail := if attempt == 0 then "_" else "_" + Counter(attempt) + "_";
            && HasPrefix(name, "backup_") && |name| >= 29
            && name[7..22] == timestamp[..15] && name[22..29] == timestamp[15..] && name[29..] == tail + Replaced(path, '/', '_')
  {
    var name := BackupName(timestamp, attempt, path);
    var tail := if attempt == 0 then "_" else "_" + Counter(attempt) + "_";
    assert name == "backup_" + timestamp + (tail + Replaced(path, '/', '_'));
  }

  lemma MatchedTail(attempt: nat, encoded: string)
    requires attempt < MAX_ATTEMPTS && encoded != [] && encoded[0] == '_'
    ensures var s := (if attempt == 0 then "_" else "_" + Counter(attempt) + "_") + encoded;
            MatchCounter(s) == if '\n' in encoded then None else Some(encoded)
  {
    var s := (if attempt == 0 then "_" else "_" + Counter(attempt) + "_") + encoded;
    if attempt == 0 {
      assert s[1..] == encoded && s[1] == '_';
      assert |s| >= 4 ==> s[1..4][0] == '_';
    } else {
      assert s[1..4] == Counter(attempt) && s[4..] == "_" + encoded;
      assert s[4..][1..] == encoded;
      if '\n' in encoded {
        var i :| 0 <= i < |encoded| && encoded[i] == '\n';
        assert s[1..][4 + i] == '\n';
      }
    }
  }

  /** A base name as the old format stored it, unless it begins like a counter. */
  predicate OldBase(base: string) {
    && base != "" && base[0] != '_' && '/' !in base && '\n' !in base
    && !(|base| >= 4 && AllDigits(base[..3]) && base[3] == '_')
  }

  lemma OldTail(base: string)
    requires OldBase(base)
    ensures MatchCounter("_" + base) == Some(base)
  {
    var tail := "_" + base;
    assert tail[1..] == base;
    if |tail| >= 4 {
      assert tail[1..4] == base[..3];
      if |tail| > 4 { assert tail[4..][0] == base[3]; }
    }
  }

  lemma OldFormatParses(timestamp: string, base: string)
    requires (IsDateTime(timestamp) || IsTimestamp(timestamp)) && OldBase(base)
    ensures MatchBackupName("backup_" + (timestamp + ("_" + base))) == Some(base)
  {
    var tail := "_" + base;
    var name := "backup_" + (timestamp + tail);
    OldTail(base);
    assert name[7..22] == timestamp[..15];
    if |timestamp| == 15 {
      assert timestamp[..15] == timestamp;
      assert name[22..] == tail;
    } else {
      var rest := timestamp[15..] + tail;
      assert name[22..] == rest;
      assert rest[0] == timestamp[15] && rest[1..7] == timestamp[16..] && rest[7..] == tail;
    }
  }

  /** A name of the old format, with or without microseconds, gives its base name. */
  lemma OldFormatKept(timestamp: string, base: string)
    requires (IsDateTime(timestamp) || IsTimestamp(timestamp)) && OldBase(base)
    ensures OriginalPath("backup_" + (timestamp + ("_" + base))) == base
  {
    OldFormatParses(timestamp, base);
    assert Replaced(base, '_', '/')[0] == base[0] != '/';
  }

  /** For an absolute path the name gives the path back exactly when it has no underscore and no newline. */
  lemma NameRoundTrip(timestamp: string, attempt: nat, path: Path)
    requires IsTimestamp(timestamp) && attempt < MAX_ATTEMPTS && HasPrefix(path, "/")
    ensures OriginalPath(BackupName(timestamp, attempt, path)) == path <==> '_' !in path && '\n' !in path
  {
    var name, encoded := BackupName(timestamp, attempt, path), Replaced(path, '/', '_');
    assert path[0] == '/';
    GeneratedShape(timestamp, attempt, path);
    MatchedTail(attempt, encoded);
    var rest := name[22..];
    assert timestamp[15..][0] == '.' && timestamp[15..][1..] == timestamp[16..];
    assert rest[..7] == timestamp[15..] && rest[7..] == name[29..];
    assert rest[0] == rest[..7][0] && rest[1..7] == rest[..7][1..];
    assert '\n' in encoded <==> '\n' in path by {
      if '\n' in encoded { var i :| 0 <= i < |encoded| && encoded[i] == '\n'; assert path[i] == '\n'; }
      if '\n' in path { var i :| 0 <= i < |path| && path[i] == '\n'; assert encoded[i] == '\n'; }
    }
    var decoded := Replaced(encoded, '_', '/');
    assert decoded[0] == '/';
    if '_' in path {
      var i :| 0 <= i < |path| && path[i] == '_';
      assert decoded[i] == '/';
    } else {
      assert decoded == path;
    }
  }
}
