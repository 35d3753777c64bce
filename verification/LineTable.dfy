/** Line tables (`read_line_lengths_for_path` in `src/recorder.rs`): the byte length of each source
    line.  The writer addresses a (line, column) pair as one offset into the file; this module proves
    that the pairs the source recorder offers can be read back from that offset. */
module LineTable {
  import opened Words
  import opened Wrappers
  import opened DebugModel
  import opened SourceRecorder

  const NEWLINE: byte := 10

  /** Where `current_len` saturates. */
  const LIMIT: nat := 0xFFFF_FFFF

  type Line = seq<byte>

  /** The pieces between newlines; the last is what follows the last newline. */
  function Split(bytes: seq<byte>): (pieces: seq<Line>)
    ensures pieces != []
  {
    if bytes == [] then [[]]
    else
      var front, b := Split(bytes[..|bytes| - 1]), bytes[|bytes| - 1];
      if b == NEWLINE then front + [[]] else front[..|front| - 1] + [front[|front| - 1] + [b]]
  }

  /** The pieces put together again. */
  function Join(pieces: seq<Line>): seq<byte> {
    if pieces == [] then []
    else if |pieces| == 1 then pieces[0]
    else Join(pieces[..|pieces| - 1]) + [10] + pieces[|pieces| - 1]
  }

  /** A newline at the end of the file starts no further line. */
  predicate EndsInNewline(bytes: seq<byte>) {
    bytes != [] && bytes[|bytes| - 1] == NEWLINE
  }

  /** The lines of a file. */
  function Lines(bytes: seq<byte>): seq<Line> {
    var pieces := Split(bytes);
    if EndsInNewline(bytes) then pieces[..|pieces| - 1] else pieces
  }

  function Lengths(lines: seq<Line>): (lengths: seq<nat>)
    ensures |lengths| == |lines|
    ensures forall k :: 0 <= k < |lines| ==> lengths[k] == Min(|lines[k]|, LIMIT)
  {
    seq(|lines|, k requires 0 <= k < |lines| => Min(|lines[k]|, LIMIT))
  }

  /** A name such as <stdin> is no file. */
  predicate IsSynthetic(path: string) {
    path != "" && path[0] == '<' && path[|path| - 1] == '>'
  }

  /** The table recorded for a path; empty when the file does not read. */
  function TableOf(path: string, contents: Option<seq<byte>>): seq<nat> {
    if IsSynthetic(path) || contents.None? then [] else Lengths(Lines(contents.value))
  }

  method ReadLineLengths(path: string, contents: Option<seq<byte>>) returns (lines: seq<nat>)
    ensures lines == TableOf(path, contents)
  {
    if IsSynthetic(path) || contents.None? {
      return [];
    }
    var bytes := contents.value;
    lines := [];
    var currentLen: nat := 0;
    for i := 0 to |bytes|
      invariant ScanState(bytes[..i], lines, currentLen)
    {
      ScanStep(bytes, i, lines, currentLen);
      if bytes[i] == NEWLINE {
        lines := lines + [currentLen];
        currentLen := 0;
      } else {
        currentLen := Min(currentLen + 1, LIMIT);
      }
    }
    assert bytes[..|bytes|] == bytes;
    LastPiece(bytes);
    if currentLen > 0 || !EndsInNewline(bytes) {
      lines := lines + [currentLen];
    }
  }

  /** The loop's state: the closed lines' lengths, and the open one's. */
  ghost predicate ScanState(bytes: seq<byte>, lines: seq<nat>, currentLen: nat) {
    var pieces := Split(bytes);
    lines == Lengths(pieces[..|pieces| - 1]) && currentLen == Min(|pieces[|pieces| - 1]|, LIMIT)
  }

  lemma ScanStep(bytes: seq<byte>, i: nat, lines: seq<nat>, currentLen: nat)
    requires i < |bytes| && ScanState(bytes[..i], lines, currentLen)
    ensures ScanState(
      bytes[..i + 1],
      if bytes[i] == NEWLINE then lines + [currentLen] else lines,
      if bytes[i] == NEWLINE then 0 else Min(currentLen + 1, LIMIT))
  {
    assert bytes[..i + 1][..i] == bytes[..i];
    var before, after := Split(bytes[..i]), Split(bytes[..i + 1]);
    if bytes[i] == NEWLINE {
      assert after[..|after| - 1] == before;
    } else {
      assert after[..|after| - 1] == before[..|before| - 1];
    }
  }

  /** The last piece is empty after a newline. */
  lemma LastPiece(bytes: seq<byte>)
    ensures
      var pieces := Split(bytes);
      EndsInNewline(bytes) ==> pieces[|pieces| - 1] == []
  {
  }

  // ---------------------------------------------------------------------------
  // Nothing is lost
  // ---------------------------------------------------------------------------

  lemma JoinPush(pieces: seq<Line>)
    requires pieces != []
    ensures Join(pieces + [[]]) == Join(pieces) + [10]
  {
  }

  lemma JoinExtend(front: seq<Line>, last: Line, b: byte)
    ensures Join(front + [last + [b]]) == Join(front + [last]) + [b]
  {
  }

  lemma {:induction false} JoinSplit(bytes: seq<byte>)
    ensures Join(Split(bytes)) == bytes
  {
    if bytes != [] {
      var front, b := bytes[..|bytes| - 1], bytes[|bytes| - 1];
      JoinSplit(front);
      assert bytes == front + [b];
      var before := Split(front);
      var last := |before| - 1;
      if b == NEWLINE {
        JoinPush(before);
      } else {
        JoinExtend(before[..last], before[last], b);
        assert before == before[..last] + [before[last]];
      }
    }
  }

  lemma {:induction false} NoNewlines(bytes: seq<byte>, k: nat)
    requires k < |Split(bytes)|
    ensures 10 !in Split(bytes)[k]
  {
    if bytes != [] {
      var front := bytes[..|bytes| - 1];
      if k < |Split(front)| {
        NoNewlines(front, k);
      }
    }
  }

  /** The byte offset a line starts at, by the lengths of the lines before it. */
  function Start(lengths: seq<nat>, line: nat): nat
    requires line <= |lengths|
  {
    if line == 0 then 0 else Start(lengths, line - 1) + lengths[line - 1] + 1
  }

  /** Lines short enough for the table. */
  ghost predicate Short(lines: seq<Line>) {
    forall k :: 0 <= k < |lines| ==> |lines[k]| <= 0xFFFF_FFFF
  }

  function Newlines(bytes: seq<byte>): nat {
    |Split(bytes)| - 1
  }

  function Sum(lengths: seq<nat>): nat {
    if lengths == [] then 0 else Sum(lengths[..|lengths| - 1]) + lengths[|lengths| - 1]
  }

  lemma {:induction false} StartIsSum(lengths: seq<nat>, line: nat)
    requires line <= |lengths|
    ensures Start(lengths, line) == Sum(lengths[..line]) + line
  {
    if line > 0 {
      StartIsSum(lengths, line - 1);
      assert lengths[..line][..line - 1] == lengths[..line - 1];
    }
  }

  /** The real lengths. */
  function Sizes(lines: seq<Line>): (sizes: seq<nat>)
    ensures |sizes| == |lines|
    ensures forall k :: 0 <= k < |lines| ==> sizes[k] == |lines[k]|
  {
    seq(|lines|, k requires 0 <= k < |lines| => |lines[k]|)
  }

  lemma {:induction false} JoinSize(pieces: seq<Line>)
    requires pieces != []
    ensures |Join(pieces)| == Sum(Sizes(pieces)) + |pieces| - 1
  {
    var last := |pieces| - 1;
    assert Sizes(pieces)[..last] == Sizes(pieces[..last]);
    if last > 0 {
      JoinSize(pieces[..last]);
    } else {
      assert Sum(Sizes(pieces)[..0]) == 0;
    }
  }

  lemma {:induction false} SumCapped(lines: seq<Line>)
    ensures Sum(Lengths(lines)) <= Sum(Sizes(lines))
    ensures Sum(Lengths(lines)) == Sum(Sizes(lines)) <==> Short(lines)
  {
    if lines != [] {
      var last := |lines| - 1;
      SumCapped(lines[..last]);
      assert Lengths(lines)[..last] == Lengths(lines[..last]);
      assert Sizes(lines)[..last] == Sizes(lines[..last]);
      assert Short(lines) <==> Short(lines[..last]) && |lines[last]| <= LIMIT;
    }
  }

  /** The table's lengths and the newlines add up to the size of the file, exactly when no line
      reaches 4 GiB. */
  lemma LengthsAddUpIff(bytes: seq<byte>)
    ensures Sum(Lengths(Lines(bytes))) + Newlines(bytes) == |bytes| <==> Short(Lines(bytes))
  {
    var pieces := Split(bytes);
    JoinSplit(bytes);
    JoinSize(pieces);
    SumCapped(Lines(bytes));
    LastPiece(bytes);
    if EndsInNewline(bytes) {
      assert Sizes(pieces)[..|pieces| - 1] == Sizes(Lines(bytes));
    }
  }

  lemma {:induction false} OneLine(bytes: seq<byte>)
    requires NEWLINE !in bytes
    ensures Split(bytes) == [bytes]
  {
    if bytes != [] {
      var front := bytes[..|bytes| - 1];
      OneLine(front);
      assert bytes == front + [bytes[|bytes| - 1]];
    }
  }

  lemma {:induction false} PiecesAreCounted(bytes: seq<byte>)
    ensures |Split(bytes)| == multiset(bytes)[10] + 1
  {
    if bytes != [] {
      var last := |bytes| - 1;
      PiecesAreCounted(bytes[..last]);
      assert bytes == bytes[..last] + [bytes[last]];
    }
  }

  /** A file has as many lines as newlines, and one more unless it ends in one. */
  lemma LinesAreCounted(bytes: seq<byte>)
    ensures |Lines(bytes)| == multiset(bytes)[10] + if bytes != [] && bytes[|bytes| - 1] == 10 then 0 else 1
  {
    PiecesAreCounted(bytes);
  }

  /** A file of one line of 2^32 bytes is recorded one byte short. */
  lemma LongLineIsCutShort(b: byte)
    requires b != NEWLINE
    ensures
      var bytes := seq(0x1_0000_0000, _ => b);
      Lengths(Lines(bytes)) == [0xFFFF_FFFF] && Sum(Lengths(Lines(bytes))) + Newlines(bytes) != |bytes|
  {
    var bytes := seq(LIMIT + 1, _ => b);
    OneLine(bytes);
    assert Lines(bytes) == [bytes];
    assert Sum([LIMIT]) == Sum([LIMIT][..0]) + LIMIT == LIMIT;
  }

  // ---------------------------------------------------------------------------
  // Columns
  // ---------------------------------------------------------------------------

  /** The offset of a 1-based line and column. */
  function Offset(lengths: seq<nat>, line: nat, column: nat): nat
    requires 1 <= line <= |lengths| && column >= 1
  {
    Start(lengths, line - 1) + column - 1
  }

  /** The offset is the prefix sum of the lengths before the line, a newline each, and the column. */
  lemma OffsetIsPrefixSum(lengths: seq<nat>, line: nat, column: nat)
    requires 1 <= line <= |lengths| && column >= 1
    ensures Offset(lengths, line, column) == Sum(lengths[..line - 1]) + (line - 1) + (column - 1)
  {
    StartIsSum(lengths, line - 1);
  }

  /** A pair that names a byte of the text of a line, as the recorder offers them. */
  predicate Offered(lengths: seq<nat>, line: nat, column: nat) {
    1 <= line <= |lengths| && 1 <= column <= lengths[line - 1]
  }

  /** Read an offset back as a line and column, looking for the line from `line` on down. */
  function Locate(lengths: seq<nat>, offset: nat, line: nat): (nat, nat)
    requires line <= |lengths|
  {
    if line == 0 then (0, 0)
    else if Start(lengths, line - 1) <= offset then (line, offset - Start(lengths, line - 1) + 1)
    else Locate(lengths, offset, line - 1)
  }

  lemma {:induction false} StartsIncrease(lengths: seq<nat>, i: nat, j: nat)
    requires i < j <= |lengths|
    ensures Start(lengths, i) + lengths[i] + 1 <= Start(lengths, j)
  {
    if i + 1 < j {
      StartsIncrease(lengths, i, j - 1);
    }
  }

  lemma {:induction false} LocateFrom(lengths: seq<nat>, line: nat, column: nat, from: nat)
    requires Offered(lengths, line, column) && line <= from <= |lengths|
    ensures Locate(lengths, Offset(lengths, line, column), from) == (line, column)
  {
    if line < from {
      StartsIncrease(lengths, line - 1, from - 1);
      LocateFrom(lengths, line, column, from - 1);
    }
  }

  /** The table has the real lengths of the first k pieces. */
  ghost predicate Agrees(lengths: seq<nat>, pieces: seq<Line>, k: nat) {
    k <= |lengths| && k <= |pieces| && forall i :: 0 <= i < k ==> lengths[i] == |pieces[i]|
  }

  lemma TableAgrees(bytes: seq<byte>, k: nat)
    requires k <= |Lines(bytes)| && forall i :: 0 <= i < k ==> |Lines(bytes)[i]| <= LIMIT
    ensures Agrees(Lengths(Lines(bytes)), Split(bytes), k)
    ensures k > 0 ==> Split(bytes)[k - 1] == Lines(bytes)[k - 1]
  {
  }

  /** Where a line starts in the file, when the lines before it are short. */
  lemma {:induction false} StartInFile(pieces: seq<Line>, lengths: seq<nat>, k: nat)
    requires k < |pieces| && Agrees(lengths, pieces, k)
    ensures Start(lengths, k) + |pieces[k]| <= |Join(pieces)|
    ensures Join(pieces)[Start(lengths, k)..Start(lengths, k) + |pieces[k]|] == pieces[k]
  {
    var last := |pieces| - 1;
    if k < last {
      StartInFile(pieces[..last], lengths, k);
      var front := Join(pieces[..last]);
      assert Join(pieces)[..|front|] == front;
    } else if k > 0 {
      StartAfter(pieces[..last], lengths);
    }
  }

  lemma {:induction false} StartAfter(pieces: seq<Line>, lengths: seq<nat>)
    requires pieces != [] && Agrees(lengths, pieces, |pieces|)
    ensures Start(lengths, |pieces|) == |Join(pieces)| + 1
  {
    if |pieces| > 1 {
      StartAfter(pieces[..|pieces| - 1], lengths);
    } else {
      assert Start(lengths, 1) == Start(lengths, 0) + lengths[0] + 1;
    }
  }

  /** A byte of a line, in the file. */
  lemma ByteInFile(pieces: seq<Line>, lengths: seq<nat>, k: nat, column: nat)
    requires k < |pieces| && column < |pieces[k]| && Agrees(lengths, pieces, k)
    ensures Start(lengths, k) + column < |Join(pieces)|
    ensures Join(pieces)[Start(lengths, k) + column] == pieces[k][column]
  {
    StartInFile(pieces, lengths, k);
    var start := Start(lengths, k);
    assert Join(pieces)[start..start + |pieces[k]|][column] == Join(pieces)[start + column];
  }

  /** After each piece but the last stands a newline. */
  lemma {:induction false} NewlineInFile(pieces: seq<Line>, lengths: seq<nat>, k: nat)
    requires k + 1 < |pieces| && Agrees(lengths, pieces, k + 1)
    ensures Start(lengths, k) + lengths[k] < |Join(pieces)|
    ensures Join(pieces)[Start(lengths, k) + lengths[k]] == NEWLINE
  {
    var last := |pieces| - 1;
    var front := Join(pieces[..last]);
    assert Join(pieces)[..|front|] == front;
    if k + 1 < last {
      NewlineInFile(pieces[..last], lengths, k);
    } else {
      StartAfter(pieces[..last], lengths);
      assert Join(pieces)[|front|] == NEWLINE;
    }
  }

  /** Every pair offered names the byte at that column of that line, never a newline, and can be
      read back from the byte's offset. */
  lemma OfferedIsInvertible(bytes: seq<byte>, line: nat, column: nat)
    requires Offered(Lengths(Lines(bytes)), line, column)
    requires forall k :: 0 <= k < line - 1 ==> |Lines(bytes)[k]| <= LIMIT
    ensures
      var lengths := Lengths(Lines(bytes));
      var offset := Offset(lengths, line, column);
      && Locate(lengths, offset, |lengths|) == (line, column)
      && offset < |bytes| && bytes[offset] == Lines(bytes)[line - 1][column - 1] != 10
  {
    var lengths := Lengths(Lines(bytes));
    LocateFrom(lengths, line, column, |lengths|);
    JoinSplit(bytes);
    NoNewlines(bytes, line - 1);
    TableAgrees(bytes, line - 1);
    ByteInFile(Split(bytes), lengths, line - 1, column - 1);
  }

  /** The end of the file, by the table. */
  lemma EndOfTable(bytes: seq<byte>)
    requires Short(Lines(bytes))
    ensures
      var lengths := Lengths(Lines(bytes));
      Start(lengths, |lengths|) == if EndsInNewline(bytes) then |bytes| else |bytes| + 1
  {
    var lines, pieces := Lines(bytes), Split(bytes);
    JoinSplit(bytes);
    LastPiece(bytes);
    if lines != [] {
      StartAfter(lines, Lengths(lines));
    }
  }

  lemma {:induction false} LocateBounds(lengths: seq<nat>, offset: nat, from: nat)
    requires 1 <= from <= |lengths| && offset < Start(lengths, from)
    ensures
      var (line, column) := Locate(lengths, offset, from);
      1 <= line <= from && column >= 1 && Offset(lengths, line, column) == offset && column <= lengths[line - 1] + 1
  {
    if Start(lengths, from - 1) > offset {
      LocateBounds(lengths, offset, from - 1);
    }
  }

  lemma NewlineInBytes(bytes: seq<byte>, lengths: seq<nat>, k: nat)
    requires k + 1 < |Split(bytes)| && Agrees(lengths, Split(bytes), k + 1)
    ensures Start(lengths, k) + lengths[k] < |bytes| && bytes[Start(lengths, k) + lengths[k]] == 10
  {
    JoinSplit(bytes);
    NewlineInFile(Split(bytes), lengths, k);
  }

  /** What follows the text of a line is a newline or the end of the file. */
  lemma AfterLine(bytes: seq<byte>, line: nat)
    requires Short(Lines(bytes)) && 1 <= line <= |Lines(bytes)|
    ensures
      var lengths := Lengths(Lines(bytes));
      var after := Start(lengths, line - 1) + lengths[line - 1];
      after < |bytes| ==> bytes[after] == 10
  {
    var lengths := Lengths(Lines(bytes));
    if line < |Lines(bytes)| || EndsInNewline(bytes) {
      LinesAreCounted(bytes);
      PiecesAreCounted(bytes);
      TableAgrees(bytes, line);
      NewlineEndsLine(bytes, lengths, line);
    } else {
      LastLineEnds(bytes, lengths);
    }
  }

  lemma NewlineEndsLine(bytes: seq<byte>, lengths: seq<nat>, line: nat)
    requires 1 <= line < |Split(bytes)| && Agrees(lengths, Split(bytes), line)
    ensures
      var after := Start(lengths, line - 1) + lengths[line - 1];
      after < |bytes| && bytes[after] == 10
  {
    NewlineInBytes(bytes, lengths, line - 1);
  }

  /** A last line without a newline reaches the end of the file. */
  lemma LastLineEnds(bytes: seq<byte>, lengths: seq<nat>)
    requires lengths == Lengths(Lines(bytes)) && Short(Lines(bytes)) && !EndsInNewline(bytes) && lengths != []
    ensures Start(lengths, |lengths| - 1) + lengths[|lengths| - 1] == |bytes|
  {
    EndOfTable(bytes);
  }

  /** And every byte that is not a newline is named by one of them: reading its offset back gives a
      pair that the recorder would offer. */
  lemma EveryByteIsOffered(bytes: seq<byte>, offset: nat)
    requires Short(Lines(bytes)) && offset < |bytes| && bytes[offset] != 10
    ensures
      var lengths := Lengths(Lines(bytes));
      var (line, column) := Locate(lengths, offset, |lengths|);
      Offered(lengths, line, column) && Offset(lengths, line, column) == offset
  {
    var lengths := Lengths(Lines(bytes));
    EndOfTable(bytes);
    LocateBounds(lengths, offset, |lengths|);
    AfterLine(bytes, Locate(lengths, offset, |lengths|).0);
  }

  /** The recorder's own filter offers such pairs only. */
  lemma OfferedColumnIsInvertible(lineLengths: seq<seq<nat>>, p: SourcePosition, bytes: seq<byte>)
    requires p.file < |lineLengths| && lineLengths[p.file] == Lengths(Lines(bytes))
    requires Short(Lines(bytes)) && OfferedColumn(lineLengths, p).Some?
    ensures
      var lengths, column := lineLengths[p.file], OfferedColumn(lineLengths, p).value;
      && 1 <= p.line <= |lengths|
      && var offset := Offset(lengths, p.line, column);
      && p.column == Some(column) && Locate(lengths, offset, |lengths|) == (p.line, column)
      && offset < |bytes| && bytes[offset] == Lines(bytes)[p.line - 1][column - 1] != 10
  {
    OfferedIsInvertible(bytes, p.line, OfferedColumn(lineLengths, p).value);
  }

  /** Two pairs offered for one file are the same when their offsets are. */
  lemma OffsetsAreInjective(lengths: seq<nat>, line: nat, column: nat, line': nat, column': nat)
    requires Offered(lengths, line, column) && Offered(lengths, line', column')
    requires Offset(lengths, line, column) == Offset(lengths, line', column')
    ensures line == line' && column == column'
  {
    LocateFrom(lengths, line, column, |lengths|);
    LocateFrom(lengths, line', column', |lengths|);
  }
}
