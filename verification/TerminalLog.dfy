// TerminalLog.kt: chunks of output become lines, and the oldest lines are evicted.
module TerminalLog {
  import opened TerminalText

  const MAX_BYTES: nat := 8 * 32 * 1024
  const MAX_LINES: nat := 5000

  datatype Line = Line(text: Text, complete: bool, bytes: nat)

  // ---- the simple form ----

  datatype Log = Log(buffer: seq<Line>, totalBytes: int)

  const EMPTY := Log([], 0)

  // The index of the first newline at or after start, or -1.
  function IndexOfNewline(s: Text, start: nat): (r: int)
    requires start <= |s|
    ensures r == -1 || (start <= r < |s| && s[r] == NEWLINE)
    ensures forall i :: start <= i < (if r == -1 then |s| else r) ==> s[i] != NEWLINE
    decreases |s| - start
  {
    if start == |s| then -1 else if s[start] == NEWLINE then start else IndexOfNewline(s, start + 1)
  }

  // Just after the first newline at or after start, or the end.
  function PieceEnd(s: Text, start: nat): (r: nat)
    requires start < |s|
    ensures start < r <= |s|
  {
    var i := IndexOfNewline(s, start);
    if i == -1 then |s| else i + 1
  }

  predicate EndsLine(piece: Text) {
    piece != [] && piece[|piece| - 1] == NEWLINE
  }

  function WithoutNewline(piece: Text): Text {
    if EndsLine(piece) then piece[..|piece| - 1] else piece
  }

  predicate Open(log: Log) {
    log.buffer != [] && !log.buffer[|log.buffer| - 1].complete
  }

  // Text joins an open last line, or starts a line.
  function Extend(log: Log, piece: Text, endsLine: bool): Log {
    var bytes := Utf8Size(piece);
    if Open(log) then
      var n := |log.buffer| - 1;
      var last := log.buffer[n];
      Log(log.buffer[..n] + [Line(last.text + piece, endsLine, last.bytes + bytes)], log.totalBytes + bytes)
    else
      Log(log.buffer + [Line(piece, endsLine, bytes)], log.totalBytes + bytes)
  }

  function AddPiece(log: Log, raw: Text): Log {
    Extend(log, WithoutNewline(raw), EndsLine(raw))
  }

  // Adds the pieces of chunk from start on, one by one.
  function Fold(add: (Log, Text) -> Log, log: Log, chunk: Text, start: nat): Log
    requires start <= |chunk|
    decreases |chunk| - start
  {
    if start == |chunk| then log
    else Fold(add, add(log, chunk[start..PieceEnd(chunk, start)]), chunk, PieceEnd(chunk, start))
  }

  function AddFrom(log: Log, chunk: Text, start: nat): Log
    requires start <= |chunk|
  {
    Fold(AddPiece, log, chunk, start)
  }

  function AddAll(log: Log, chunk: Text): Log {
    AddFrom(log, chunk, 0)
  }

  predicate OverCap(log: Log) {
    |log.buffer| > 1 && (log.totalBytes > MAX_BYTES || |log.buffer| > MAX_LINES)
  }

  function DropFront(log: Log): Log
    requires log.buffer != []
  {
    Log(log.buffer[1..], log.totalBytes - log.buffer[0].bytes)
  }

  function Enforce(log: Log): Log
    decreases |log.buffer|
  {
    if OverCap(log) then Enforce(DropFront(log)) else log
  }

  function Append(log: Log, chunk: Text): Log {
    Enforce(AddAll(log, chunk))
  }

  // ---- the code ----

  class TerminalLog {
    var buffer: seq<Line>
    var totalBytes: int
    var lines: seq<Line>     // the published snapshot

    ghost function Abs(): Log
      reads this
    {
      Log(buffer, totalBytes)
    }

    constructor ()
      ensures Abs() == EMPTY && lines == []
    {
      buffer, totalBytes, lines := [], 0, [];
    }

    method Append(chunk: Text)
      modifies this
      ensures Abs() == Enforce(AddAll(old(Abs()), chunk))
      ensures lines == buffer
    {
      var start := 0;
      while start < |chunk|
        invariant 0 <= start <= |chunk|
        invariant AddFrom(Abs(), chunk, start) == AddAll(old(Abs()), chunk)
      {
        var newlineIndex := IndexOfNewline(chunk, start);
        var end := if newlineIndex == -1 then |chunk| else newlineIndex + 1;
        AddStep(Abs(), chunk, start);
        AppendPiece(chunk[start..end]);
        start := end;
      }
      EnforceCap();
      Publish();
    }

    method AppendPiece(rawPiece: Text)
      modifies this`buffer, this`totalBytes
      ensures Abs() == AddPiece(old(Abs()), rawPiece)
    {
      var endsLine := EndsLine(rawPiece);
      var piece := if endsLine then rawPiece[..|rawPiece| - 1] else rawPiece;
      var pieceBytes := Utf8Size(piece);
      if buffer == [] || buffer[|buffer| - 1].complete {
        buffer := buffer + [Line(piece, endsLine, pieceBytes)];
      } else {
        var last := buffer[|buffer| - 1];
        buffer := buffer[..|buffer| - 1];
        buffer := buffer + [Line(last.text + piece, endsLine, last.bytes + pieceBytes)];
      }
      totalBytes := totalBytes + pieceBytes;
    }

    method EnforceCap()
      modifies this`buffer, this`totalBytes
      ensures Abs() == Enforce(old(Abs()))
    {
      while |buffer| > 1 && (totalBytes > MAX_BYTES || |buffer| > MAX_LINES)
        invariant Enforce(Abs()) == Enforce(old(Abs()))
        decreases |buffer|
      {
        totalBytes := totalBytes - buffer[0].bytes;
        buffer := buffer[1..];
      }
    }

    method Publish()
      modifies this`lines
      ensures lines == buffer
    {
      lines := buffer;
    }

    method LastLineText() returns (text: Text)
      ensures text == if buffer == [] then [] else buffer[|buffer| - 1].text
    {
      text := if buffer == [] then [] else buffer[|buffer| - 1].text;
    }

    method Clear()
      modifies this
      ensures Abs() == EMPTY && lines == []
    {
      buffer := [];
      totalBytes := 0;
      Publish();
    }
  }

  // ---- chunking ----

  lemma IndexUnique(s: Text, start: nat, i: int)
    requires start <= |s|
    requires i == -1 || (start <= i < |s| && s[i] == NEWLINE)
    requires forall k :: start <= k < (if i == -1 then |s| else i) ==> s[k] != NEWLINE
    ensures IndexOfNewline(s, start) == i
  {
  }

  lemma PieceEndInFront(a: Text, b: Text, start: nat)
    requires start < |a| && IndexOfNewline(a, start) != -1
    ensures PieceEnd(a + b, start) == PieceEnd(a, start)
  {
    IndexUnique(a + b, start, IndexOfNewline(a, start));
  }

  lemma PieceEndAcross(a: Text, b: Text, start: nat)
    requires start <= |a| && b != [] && IndexOfNewline(a, start) == -1
    ensures PieceEnd(a + b, start) == |a| + PieceEnd(b, 0)
  {
    var j := IndexOfNewline(b, 0);
    IndexUnique(a + b, start, if j == -1 then -1 else |a| + j);
  }

  lemma PieceEndInBack(a: Text, b: Text, start: nat)
    requires start < |b|
    ensures PieceEnd(a + b, |a| + start) == |a| + PieceEnd(b, start)
  {
    var j := IndexOfNewline(b, start);
    IndexUnique(a + b, |a| + start, if j == -1 then -1 else |a| + j);
  }

  // A piece without newline and the piece after it make one piece.
  lemma MergedParts(a: Text, p: Text)
    requires a != [] && p != [] && !SplitsPair(a, p)
    ensures WithoutNewline(a + p) == a + WithoutNewline(p) && EndsLine(a + p) == EndsLine(p)
    ensures Utf8Size(a + WithoutNewline(p)) == Utf8Size(a) + Utf8Size(WithoutNewline(p))
  {
    SizeOfConcat(a, WithoutNewline(p));
  }

  lemma ExtendTwice(log: Log, a: Text, p: Text, endsLine: bool)
    requires Utf8Size(a + p) == Utf8Size(a) + Utf8Size(p)
    ensures Extend(Extend(log, a, false), p, endsLine) == Extend(log, a + p, endsLine)
  {
    if Open(log) {
      var last := log.buffer[|log.buffer| - 1];
      assert (last.text + a) + p == last.text + (a + p);
    }
  }

  lemma MergePieces(log: Log, a: Text, p: Text)
    requires a != [] && !EndsLine(a) && p != [] && !SplitsPair(a, p)
    ensures AddPiece(AddPiece(log, a), p) == AddPiece(log, a + p)
  {
    MergedParts(a, p);
    ExtendTwice(log, a, WithoutNewline(p), EndsLine(p));
  }

  lemma SliceBack(a: Text, b: Text, start: nat, end: nat)
    requires start <= end <= |b|
    ensures (a + b)[|a| + start..|a| + end] == b[start..end]
  {
  }

  lemma SliceAcross(a: Text, b: Text, start: nat, end: nat)
    requires start <= |a| && end <= |b|
    ensures (a + b)[start..|a| + end] == a[start..] + b[..end]
  {
  }

  lemma {:induction false} FoldBack(add: (Log, Text) -> Log, log: Log, a: Text, b: Text, start: nat)
    requires start <= |b|
    ensures Fold(add, log, a + b, |a| + start) == Fold(add, log, b, start)
    decreases |b| - start
  {
    if start < |b| {
      PieceEndInBack(a, b, start);
      var end := PieceEnd(b, start);
      SliceBack(a, b, start, end);
      FoldBack(add, add(log, b[start..end]), a, b, end);
    }
  }

  // A piece of a that ends with a newline.
  lemma FoldFront(add: (Log, Text) -> Log, log: Log, a: Text, b: Text, start: nat)
    requires start < |a| && IndexOfNewline(a, start) != -1
    ensures var end := PieceEnd(a, start);
            && Fold(add, log, a, start) == Fold(add, add(log, a[start..end]), a, end)
            && Fold(add, log, a + b, start) == Fold(add, add(log, a[start..end]), a + b, end)
  {
    PieceEndInFront(a, b, start);
    var end := PieceEnd(a, start);
    assert (a + b)[start..end] == a[start..end];
  }

  // The last piece of a, when it has no newline, and the first of b.
  lemma FoldAcross(add: (Log, Text) -> Log, log: Log, a: Text, b: Text, start: nat)
    requires start < |a| && b != [] && IndexOfNewline(a, start) == -1
    ensures var end := PieceEnd(b, 0);
            && Fold(add, log, a, start) == add(log, a[start..])
            && Fold(add, log, a + b, start) == Fold(add, add(log, a[start..] + b[..end]), b, end)
  {
    assert PieceEnd(a, start) == |a| && a[start..|a|] == a[start..];
    var end := PieceEnd(b, 0);
    PieceEndAcross(a, b, start);
    SliceAcross(a, b, start, end);
    FoldBack(add, add(log, a[start..] + b[..end]), a, b, end);
  }

  lemma AddStep(log: Log, chunk: Text, start: nat)
    requires start < |chunk|
    ensures var end := PieceEnd(chunk, start);
            AddFrom(log, chunk, start) == AddFrom(AddPiece(log, chunk[start..end]), chunk, end)
  {
  }

  lemma AddInFront(log: Log, a: Text, b: Text, start: nat)
    requires start < |a| && IndexOfNewline(a, start) != -1
    ensures var end := PieceEnd(a, start);
            && AddFrom(log, a, start) == AddFrom(AddPiece(log, a[start..end]), a, end)
            && AddFrom(log, a + b, start) == AddFrom(AddPiece(log, a[start..end]), a + b, end)
  {
    FoldFront(AddPiece, log, a, b, start);
  }

  lemma AddAcross(log: Log, a: Text, b: Text, start: nat)
    requires start < |a| && b != [] && IndexOfNewline(a, start) == -1
    ensures var end := PieceEnd(b, 0);
            && AddAll(AddFrom(log, a, start), b) == AddFrom(AddPiece(AddPiece(log, a[start..]), b[..end]), b, end)
            && AddFrom(log, a + b, start) == AddFrom(AddPiece(log, a[start..] + b[..end]), b, end)
  {
    FoldAcross(AddPiece, log, a, b, start);
    assert b[0..PieceEnd(b, 0)] == b[..PieceEnd(b, 0)];
  }

  lemma {:induction false} AddFromConcat(log: Log, a: Text, b: Text, start: nat)
    requires !SplitsPair(a, b) && start <= |a|
    ensures AddAll(AddFrom(log, a, start), b) == AddFrom(log, a + b, start)
    decreases |a| - start
  {
    if start == |a| {
      FoldBack(AddPiece, log, a, b, 0);
    } else if b == [] {
      assert a + b == a;
    } else if IndexOfNewline(a, start) != -1 {
      var end := PieceEnd(a, start);
      AddInFront(log, a, b, start);
      AddFromConcat(AddPiece(log, a[start..end]), a, b, end);
    } else {
      AddFromConcatAcross(log, a, b, start);
    }
  }

  lemma PiecesAtBoundary(a: Text, b: Text, start: nat)
    requires !SplitsPair(a, b) && start < |a| && b != [] && IndexOfNewline(a, start) == -1
    ensures var x, p := a[start..], b[..PieceEnd(b, 0)];
            x != [] && p != [] && !EndsLine(x) && !SplitsPair(x, p)
  {
  }

  lemma AddFromConcatAcross(log: Log, a: Text, b: Text, start: nat)
    requires !SplitsPair(a, b) && start < |a| && b != [] && IndexOfNewline(a, start) == -1
    ensures AddAll(AddFrom(log, a, start), b) == AddFrom(log, a + b, start)
  {
    AddAcross(log, a, b, start);
    PiecesAtBoundary(a, b, start);
    MergePieces(log, a[start..], b[..PieceEnd(b, 0)]);
  }

  lemma AddAllConcat(log: Log, a: Text, b: Text)
    requires !SplitsPair(a, b)
    ensures AddAll(AddAll(log, a), b) == AddAll(log, a + b)
  {
    AddFromConcat(log, a, b, 0);
  }

  lemma AddPieceBehindFront(log: Log, raw: Text)
    requires |log.buffer| > 1
    ensures AddPiece(DropFront(log), raw) == DropFront(AddPiece(log, raw))
    ensures |AddPiece(log, raw).buffer| >= |log.buffer|
    ensures AddPiece(log, raw).totalBytes >= log.totalBytes
  {
    if Open(log) {
      var n := |log.buffer| - 1;
      assert log.buffer[1..][..n - 1] == log.buffer[..n][1..];
    }
  }

  // Adding text never touches the front line of two or more, and only grows the log.
  lemma {:induction false} AddBehindFront(log: Log, chunk: Text, start: nat)
    requires |log.buffer| > 1 && start <= |chunk|
    ensures |AddFrom(log, chunk, start).buffer| >= |log.buffer|
    ensures AddFrom(log, chunk, start).totalBytes >= log.totalBytes
    ensures AddFrom(DropFront(log), chunk, start) == DropFront(AddFrom(log, chunk, start))
    decreases |chunk| - start
  {
    if start < |chunk| {
      var piece := chunk[start..PieceEnd(chunk, start)];
      AddStep(log, chunk, start);
      AddStep(DropFront(log), chunk, start);
      AddPieceBehindFront(log, piece);
      AddBehindFront(AddPiece(log, piece), chunk, PieceEnd(chunk, start));
    }
  }

  // Evicting early evicts nothing that would have stayed.
  lemma {:induction false} EvictEarly(log: Log, chunk: Text)
    ensures Enforce(AddAll(Enforce(log), chunk)) == Enforce(AddAll(log, chunk))
    decreases |log.buffer|
  {
    if OverCap(log) {
      AddBehindFront(log, chunk, 0);
      EvictEarly(DropFront(log), chunk);
    }
  }

  // Main result: chunking does not matter, for every log and any two chunks that do not
  // split a surrogate pair.
  lemma ChunkingDoesNotMatter(log: Log, a: Text, b: Text)
    requires !SplitsPair(a, b)
    ensures Append(Append(log, a), b) == Append(log, a + b)
  {
    EvictEarly(AddAll(log, a), b);
    AddAllConcat(log, a, b);
  }

  function Concat(chunks: seq<Text>): Text {
    if chunks == [] then [] else Concat(chunks[..|chunks| - 1]) + chunks[|chunks| - 1]
  }

  function AppendEach(log: Log, chunks: seq<Text>): Log {
    if chunks == [] then log
    else Append(AppendEach(log, chunks[..|chunks| - 1]), chunks[|chunks| - 1])
  }

  ghost predicate NoPairSplit(chunks: seq<Text>) {
    forall i :: 0 <= i < |chunks| ==> !SplitsPair(Concat(chunks[..i]), chunks[i])
  }

  // Over a whole session since the log was cleared: however the output arrives, the log
  // is that of all of it in one chunk.
  lemma {:induction false} SessionIsOneChunk(chunks: seq<Text>)
    requires NoPairSplit(chunks)
    ensures AppendEach(EMPTY, chunks) == Append(EMPTY, Concat(chunks))
    decreases |chunks|
  {
    if chunks != [] {
      var n := |chunks| - 1;
      var before := chunks[..n];
      assert forall i :: 0 <= i < n ==> before[..i] == chunks[..i];
      SessionIsOneChunk(before);
      assert !SplitsPair(Concat(chunks[..n]), chunks[n]);
      ChunkingDoesNotMatter(EMPTY, Concat(before), chunks[n]);
    }
  }
}
