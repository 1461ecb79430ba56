/** `dsm log`: the last lines of a file, read backwards in chunks. */
module LogTail {
  import opened Common
  import opened Text

  const NEWLINE: byte := 10
  const CHUNK_SIZE := 4096

  /** The lines of a text; a final newline ends the last line instead of starting an empty one. */
  function Lines(text: Bytes): seq<Bytes> {
    var parts := SplitOn(text, NEWLINE);
    if parts[|parts| - 1] == [] then parts[..|parts| - 1] else parts
  }

  function CountNewlines(text: Bytes): nat {
    if text == [] then 0 else (if text[0] == NEWLINE then 1 else 0) + CountNewlines(text[1..])
  }

  lemma {:induction false} PiecesAndNewlines(text: Bytes)
    ensures |SplitOn(text, NEWLINE)| == CountNewlines(text) + 1
  {
    if text != [] { PiecesAndNewlines(text[1..]); }
  }

  /** The last piece is empty exactly for the empty text and for texts that end in a newline. */
  lemma {:induction false} LastPieceEmpty(text: Bytes)
    ensures var parts := SplitOn(text, NEWLINE);
            parts[|parts| - 1] == [] <==> text == [] || text[|text| - 1] == NEWLINE
  {
    if text != [] { LastPieceEmpty(text[1..]); }
  }

  /** The text in which every line ends with a newline. */
  function Unlines(lines: seq<Bytes>): Bytes {
    if lines == [] then [] else lines[0] + [NEWLINE] + Unlines(lines[1..])
  }

  lemma {:induction false} UnlinesExtend(c: byte, lines: seq<Bytes>)
    requires lines != []
    ensures Unlines(Extend(c, NEWLINE, lines)) == [c] + Unlines(lines)
  {
    var longer := Extend(c, NEWLINE, lines);
    if c == NEWLINE {
      assert longer[1..] == lines;
      assert longer[0] + [NEWLINE] == [c];
    } else {
      assert longer[1..] == lines[1..];
      assert longer[0] + [NEWLINE] + Unlines(lines[1..]) == [c] + (lines[0] + [NEWLINE] + Unlines(lines[1..]));
    }
  }

  lemma {:induction false} UnlinesOfPieces(text: Bytes)
    ensures Unlines(SplitOn(text, NEWLINE)) == text + [NEWLINE]
  {
    if text != [] {
      UnlinesOfPieces(text[1..]);
      UnlinesExtend(text[0], SplitOn(text[1..], NEWLINE));
      assert text == [text[0]] + text[1..];
    }
  }

  lemma {:induction false} UnlinesConcat(a: seq<Bytes>, b: seq<Bytes>)
    ensures Unlines(a + b) == Unlines(a) + Unlines(b)
  {
    if a == [] {
      assert a + b == b;
    } else {
      assert (a + b)[1..] == a[1..] + b;
      UnlinesConcat(a[1..], b);
    }
  }

  lemma LinesHaveNoNewline(text: Bytes)
    ensures forall i :: 0 <= i < |Lines(text)| ==> NEWLINE !in Lines(text)[i]
  {
    var parts := SplitOn(text, NEWLINE);
    forall i | 0 <= i < |parts| ensures NEWLINE !in parts[i] { PiecesHaveNoSeparator(text, NEWLINE, i); }
  }

  /** The lines are those of the text: written down again they give the text, with a final newline if it had none. */
  lemma LinesRoundTrip(text: Bytes)
    ensures Unlines(Lines(text)) == if text == [] || text[|text| - 1] == NEWLINE then text else text + [NEWLINE]
    ensures forall i :: 0 <= i < |Lines(text)| ==> NEWLINE !in Lines(text)[i]
  {
    LinesHaveNoNewline(text);
    LastPieceEmpty(text);
    UnlinesOfPieces(text);
    LinesWritten(text, SplitOn(text, NEWLINE));
  }

  lemma LinesWritten(text: Bytes, parts: seq<Bytes>)
    requires parts == SplitOn(text, NEWLINE) && Unlines(parts) == text + [NEWLINE]
    ensures Unlines(Lines(text)) == if parts[|parts| - 1] == [] then text else text + [NEWLINE]
  {
    if parts[|parts| - 1] == [] {
      assert parts == parts[..|parts| - 1] + [[]];
      DropEmptyLine(parts[..|parts| - 1], text);
    }
  }

  lemma DropEmptyLine(lines: seq<Bytes>, text: Bytes)
    requires Unlines(lines + [[]]) == text + [NEWLINE]
    ensures Unlines(lines) == text
  {
    var empty: Bytes := [];
    UnlinesConcat(lines, [empty]);
    assert Unlines([empty]) == [NEWLINE] by {
      assert [empty][1..] == [];
      assert empty + [NEWLINE] + [] == [NEWLINE];
    }
    assert (text + [NEWLINE])[..|text|] == text;
    assert (Unlines(lines) + [NEWLINE])[..|Unlines(lines)|] == Unlines(lines);
  }

  /** A final newline adds no line. */
  lemma FinalNewlineAddsNone(text: Bytes)
    requires text != [] && text[|text| - 1] != NEWLINE
    ensures Lines(text + [NEWLINE]) == Lines(text)
  {
    SplitAtSeparator(text, [], NEWLINE);
    LastPieceEmpty(text);
    assert text + [NEWLINE] + [] == text + [NEWLINE];
    var parts := SplitOn(text, NEWLINE);
    assert SplitOn<byte>([], NEWLINE) == [[]];
    assert (parts + [[]])[..|parts|] == parts;
  }

  /** The stretch read from `start` on suffices for `n` lines. */
  predicate Enough(content: Bytes, start: nat, n: nat)
    requires start <= |content|
  {
    start == 0 || CountNewlines(content[start..]) >= n
  }

  /** The first line of the stretch is wanted, but the stretch starts inside it. */
  predicate CutsFirstLine(content: Bytes, start: nat, n: nat)
    requires start <= |content|
  {
    0 < n && 0 < start && content[start - 1] != NEWLINE && |Lines(content[start..])| == n
  }

  /** Lines of the whole file in terms of the pieces before and after a cut. */
  lemma LinesAcrossCut(a: Bytes, b: Bytes)
    requires CountNewlines(b) > 0
    ensures Lines(b) != [] && Lines(a + b) == Glue(SplitOn(a, NEWLINE), Lines(b))
  {
    var x, y := SplitOn(a, NEWLINE), SplitOn(b, NEWLINE);
    SplitConcat(a, b, NEWLINE);
    PiecesAndNewlines(b);
    var whole := Glue(x, y);
    assert whole[|whole| - 1] == y[|y| - 1];
    if y[|y| - 1] == [] {
      assert whole[..|whole| - 1] == Glue(x, y[..|y| - 1]);
    }
  }

  ghost predicate RightPart(part: Bytes, whole: Bytes) {
    |part| <= |whole| && part == whole[|whole| - |part|..]
  }

  /** Exactly as many lines, all but the first equal, the first a right part; all equal unless cut. */
  ghost predicate SameUnlessCut(got: seq<Bytes>, want: seq<Bytes>, cut: bool) {
    && |got| == |want|
    && (forall i :: 0 < i < |got| ==> got[i] == want[i])
    && (|got| > 0 ==> RightPart(got[0], want[0]))
    && (got == want <==> !cut)
  }

  /** Gluing something before a list of lines can only change its first line, and only by extending it to the left. */
  lemma GlueTail(x: seq<Bytes>, lines: seq<Bytes>, n: nat)
    requires |x| > 0 && 0 < n <= |lines|
    ensures SameUnlessCut(LastN(lines, n), LastN(Glue(x, lines), n), |lines| == n && x[|x| - 1] != [])
  {
    if n < |lines| { GlueFewer(x, lines, n); } else { GlueAll(x, lines); }
  }

  lemma GlueFewer(x: seq<Bytes>, lines: seq<Bytes>, n: nat)
    requires |x| > 0 && 0 < n < |lines|
    ensures LastN(Glue(x, lines), n) == LastN(lines, n)
  {
    var all := Glue(x, lines);
    assert all[|x|..] == lines[1..];
    assert all[|all| - n..] == all[|x|..][|lines| - 1 - n..];
    assert lines[|lines| - n..] == lines[1..][|lines| - 1 - n..];
  }

  lemma GlueAll(x: seq<Bytes>, lines: seq<Bytes>)
    requires |x| > 0 && |lines| > 0
    ensures SameUnlessCut(LastN(lines, |lines|), LastN(Glue(x, lines), |lines|), x[|x| - 1] != [])
  {
    var all, last := Glue(x, lines), x[|x| - 1];
    var want := all[|x| - 1..];
    assert LastN(lines, |lines|) == lines && LastN(all, |lines|) == want;
    assert want == [last + lines[0]] + lines[1..];
    assert lines == [lines[0]] + lines[1..];
    if last == [] {
      assert last + lines[0] == lines[0];
    } else {
      assert |want[0]| > |lines[0]|;
    }
  }

  /** `lines` are the last `n` lines of the file, the first of them possibly cut at `start`. */
  ghost predicate IsTail(lines: seq<Bytes>, content: Bytes, start: nat, n: nat)
    requires start <= |content|
  {
    SameUnlessCut(lines, LastN(Lines(content), n), CutsFirstLine(content, start, n))
  }

  lemma TailAfterCut(a: Bytes, b: Bytes, n: nat)
    requires a != [] && 0 < n <= CountNewlines(b)
    ensures SameUnlessCut(LastN(Lines(b), n), LastN(Lines(a + b), n), a[|a| - 1] != NEWLINE && |Lines(b)| == n)
  {
    LinesAcrossCut(a, b);
    PiecesAndNewlines(b);
    LastPieceEmpty(a);
    GlueTail(SplitOn(a, NEWLINE), Lines(b), n);
  }

  /** Reading backwards far enough yields the tail of the file. */
  lemma TailOfStretch(content: Bytes, start: nat, n: nat)
    requires start <= |content| && Enough(content, start, n)
    ensures IsTail(LastN(Lines(content[start..]), n), content, start, n)
  {
    var a, b := content[..start], content[start..];
    assert a + b == content;
    if start > 0 && n > 0 {
      TailAfterCut(a, b, n);
    } else if start == 0 {
      assert b == content;
    }
  }

  datatype LogResult = LogResult(lines: seq<Bytes>, totalLines: nat)

  /** The loop of readLastLines: chunks are read from the end until enough newlines are in the buffer. */
  method ReadBackwards(reliable: bool, content: Bytes, n: int) returns (r: Option<Bytes>, pos: nat)
    ensures reliable ==> r.Some?
    ensures r.Some? ==> pos <= |content| && r.value == content[pos..]
    ensures r.Some? && n <= 0 ==> pos == |content|
    ensures r.Some? && n > 0 ==> Enough(content, pos, n)
    ensures r.Some? && 0 < pos && pos + CHUNK_SIZE < |content| ==> CountNewlines(content[pos + CHUNK_SIZE..]) < n
  {
    var buf: Bytes := [];
    pos := |content|;
    var lineCount := 0;
    while pos > 0 && lineCount < n
      invariant 0 <= pos <= |content| && buf == content[pos..] && lineCount == 0
      invariant n <= 0 ==> pos == |content|
      invariant pos < |content| ==> CountNewlines(buf) < n
      invariant 0 < pos && pos + CHUNK_SIZE < |content| ==> CountNewlines(content[pos + CHUNK_SIZE..]) < n
      decreases pos
    {
      var chunkStart := if pos < CHUNK_SIZE then 0 else pos - CHUNK_SIZE;
      var failed := MayFail(reliable);
      if failed { return None, 0; }
      assert content[chunkStart..pos] + content[pos..] == content[chunkStart..];
      buf := content[chunkStart..pos] + buf;
      pos := chunkStart;
      var newlines := NewlinesIn(buf);
      if newlines >= n { break; }
    }
    r := Some(buf);
  }

  /** readLastLines over a file's content; `start` is where reading stopped. */
  method ReadLastLines(reliable: bool, content: Bytes, n: int) returns (r: Option<LogResult>, ghost start: nat)
    ensures reliable ==> r.Some?
    ensures r.Some? && n <= 0 ==> r.value == LogResult([], 0)
    ensures r.Some? && n > 0 ==>
              && start <= |content| && Enough(content, start, n)
              && IsTail(r.value.lines, content, start, n)
              && r.value.totalLines == |Lines(content[start..])|
  {
    start := 0;
    if |content| == 0 {
      return Some(LogResult([], 0)), 0;
    }
    var buf, pos := ReadBackwards(reliable, content, n);
    if buf.None? { return None, 0; }
    if |buf.value| == 0 {
      NoLinesLeft(content, pos, n);
      return Some(LogResult([], 0)), pos;
    }
    assert n > 0;
    var lines, total := ExtractLines(buf.value, n);
    TailOfStretch(content, pos, n);
    return Some(LogResult(lines, total)), pos;
  }

  /** Split the buffer, drop the empty piece after a final newline, keep the last `n` lines. */
  method ExtractLines(buf: Bytes, n: nat) returns (lines: seq<Bytes>, total: nat)
    ensures lines == LastN(Lines(buf), n) && total == |Lines(buf)|
  {
    var allLines := SplitOn(buf, NEWLINE);
    if allLines[|allLines| - 1] == [] {
      allLines := allLines[..|allLines| - 1];
    }
    var from := 0;
    if |allLines| > n {
      from := |allLines| - n;
    }
    return allLines[from..], |allLines|;
  }

  lemma NoLinesLeft(content: Bytes, pos: nat, n: int)
    requires content != [] && pos <= |content| && content[pos..] == []
    requires n > 0 ==> Enough(content, pos, n)
    ensures n <= 0
  {
  }

  method NewlinesIn(buf: Bytes) returns (newlines: nat)
    ensures newlines == CountNewlines(buf)
  {
    newlines := 0;
    for i := 0 to |buf|
      invariant newlines + CountNewlines(buf[i..]) == CountNewlines(buf)
    {
      assert buf[i..][1..] == buf[i + 1..];
      if buf[i] == NEWLINE {
        newlines := newlines + 1;
      }
    }
  }

  /** The result is exact whenever the file does not end in a newline or was read completely. */
  lemma ExactUnlessTrailingNewline(content: Bytes, start: nat, n: nat)
    requires start <= |content| && Enough(content, start, n)
    ensures start == 0 || content == [] || content[|content| - 1] != NEWLINE ==> !CutsFirstLine(content, start, n)
  {
    if 0 < n && 0 < start && content[|content| - 1] != NEWLINE {
      var b := content[start..];
      PiecesAndNewlines(b);
      LastPieceEmpty(b);
      if start < |content| { assert b[|b| - 1] == content[|content| - 1]; }
    }
  }
}
