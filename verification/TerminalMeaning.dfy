// What TerminalLog.kt's buffer holds: the lines of all output, less the fewest old ones;
// and exactly when a chunk boundary inside a surrogate pair shows.
module TerminalMeaning {
  import opened TerminalText
  import opened TerminalLog

  function SumBytes(lines: seq<Line>): nat {
    if lines == [] then 0 else SumBytes(lines[..|lines| - 1]) + lines[|lines| - 1].bytes
  }

  // The text the lines stand for.
  function Unlines(lines: seq<Line>): Text {
    if lines == [] then []
    else
      var last := lines[|lines| - 1];
      Unlines(lines[..|lines| - 1]) + last.text + if last.complete then [NEWLINE] else []
  }

  predicate NoNewline(s: Text) {
    forall i :: 0 <= i < |s| ==> s[i] != NEWLINE
  }

  // No line has a newline in it, and only the last may be open, then not empty.
  ghost predicate ProperLines(lines: seq<Line>) {
    && (forall i :: 0 <= i < |lines| ==> NoNewline(lines[i].text) && (lines[i].complete || lines[i].text != []))
    && (forall i :: 0 <= i < |lines| - 1 ==> lines[i].complete)
  }

  ghost predicate Proper(log: Log) {
    log.totalBytes == SumBytes(log.buffer) && ProperLines(log.buffer)
  }

  // A chunk's piece: a newline nowhere but at its end.
  ghost predicate IsPiece(raw: Text) {
    raw != [] && NoNewline(raw[..|raw| - 1])
  }

  lemma ExtendMeaning(log: Log, piece: Text, endsLine: bool)
    requires Proper(log) && NoNewline(piece) && (endsLine || piece != [])
    ensures Proper(Extend(log, piece, endsLine))
    ensures Unlines(Extend(log, piece, endsLine).buffer) ==
            Unlines(log.buffer) + piece + if endsLine then [NEWLINE] else []
  {
    var log' := Extend(log, piece, endsLine);
    var n := |log'.buffer| - 1;
    if Open(log) {
      assert log'.buffer[..n] == log.buffer[..n];
      var before, last := Unlines(log.buffer[..n]), log.buffer[n].text;
      assert Unlines(log.buffer) == before + last + [] == before + last;
      assert before + (last + piece) == (before + last) + piece;
    } else {
      assert log'.buffer[..n] == log.buffer;
    }
  }

  lemma AddPieceMeaning(log: Log, raw: Text)
    requires Proper(log) && IsPiece(raw)
    ensures Proper(AddPiece(log, raw))
    ensures Unlines(AddPiece(log, raw).buffer) == Unlines(log.buffer) + raw
  {
    var piece := WithoutNewline(raw);
    var end := if EndsLine(raw) then [NEWLINE] else [];
    assert raw == piece + end;
    ExtendMeaning(log, piece, EndsLine(raw));
    assert Unlines(log.buffer) + piece + end == Unlines(log.buffer) + (piece + end);
  }

  lemma PieceIsPiece(chunk: Text, start: nat)
    requires start < |chunk|
    ensures IsPiece(chunk[start..PieceEnd(chunk, start)])
  {
    var raw := chunk[start..PieceEnd(chunk, start)];
    assert forall i :: 0 <= i < |raw| - 1 ==> raw[i] == chunk[start + i] != NEWLINE;
  }

  lemma Glue(text: Text, chunk: Text, start: nat, end: nat)
    requires start <= end <= |chunk|
    ensures (text + chunk[start..end]) + chunk[end..] == text + chunk[start..]
  {
  }

  lemma {:induction false} AddFromMeaning(log: Log, chunk: Text, start: nat)
    requires Proper(log) && start <= |chunk|
    ensures Proper(AddFrom(log, chunk, start))
    ensures Unlines(AddFrom(log, chunk, start).buffer) == Unlines(log.buffer) + chunk[start..]
    decreases |chunk| - start
  {
    if start < |chunk| {
      var end := PieceEnd(chunk, start);
      var raw := chunk[start..end];
      AddStep(log, chunk, start);
      PieceIsPiece(chunk, start);
      AddPieceMeaning(log, raw);
      AddFromMeaning(AddPiece(log, raw), chunk, end);
      Glue(Unlines(log.buffer), chunk, start, end);
    }
  }

  // Each line's byte count is its size, when no piece was cut out of a line.
  ghost predicate ExactBytes(log: Log) {
    forall i :: 0 <= i < |log.buffer| ==> log.buffer[i].bytes == Utf8Size(log.buffer[i].text)
  }

  lemma AddPieceExact(log: Log, raw: Text)
    requires ExactBytes(log) && !Open(log)
    ensures ExactBytes(AddPiece(log, raw)) && (Open(AddPiece(log, raw)) <==> !EndsLine(raw))
  {
  }

  lemma {:induction false} AddFromExact(log: Log, chunk: Text, start: nat)
    requires ExactBytes(log) && !Open(log) && start <= |chunk|
    ensures ExactBytes(AddFrom(log, chunk, start))
    decreases |chunk| - start
  {
    if start < |chunk| {
      var end := PieceEnd(chunk, start);
      var log' := AddPiece(log, chunk[start..end]);
      AddStep(log, chunk, start);
      AddPieceExact(log, chunk[start..end]);
      if EndsLine(chunk[start..end]) {
        AddFromExact(log', chunk, end);
      } else {
        assert end == |chunk| && AddFrom(log', chunk, end) == log';
      }
    }
  }

  lemma SameFront(p: Text, q: Text, s: Text, t: Text)
    requires p + s == q + t && NoNewline(s)
    requires q != [] ==> q[|q| - 1] == NEWLINE
    ensures |q| <= |p|
  {
    if q != [] {
      assert (p + s)[|q| - 1] == NEWLINE;
    }
  }

  lemma SameLastLine(p: Text, q: Text, s: Text, t: Text)
    requires p + s == q + t && NoNewline(s) && NoNewline(t)
    requires p != [] ==> p[|p| - 1] == NEWLINE
    requires q != [] ==> q[|q| - 1] == NEWLINE
    ensures p == q && s == t
  {
    SameFront(p, q, s, t);
    SameFront(q, p, t, s);
    assert p == (p + s)[..|p|] && q == (q + t)[..|q|];
    assert s == (p + s)[|p|..] && t == (q + t)[|q|..];
  }

  lemma EndsWithNewline(lines: seq<Line>)
    requires ProperLines(lines) && lines != []
    ensures var t := Unlines(lines);
            t != [] && (t[|t| - 1] == NEWLINE <==> lines[|lines| - 1].complete)
  {
  }

  // Two proper lists of lines for the same text have the same lines.
  lemma {:induction false} LinesAreUnique(x: seq<Line>, y: seq<Line>)
    requires ProperLines(x) && ProperLines(y) && Unlines(x) == Unlines(y)
    ensures |x| == |y|
    ensures forall i :: 0 <= i < |x| ==> x[i].text == y[i].text && x[i].complete == y[i].complete
    decreases |x|
  {
    if x == [] || y == [] {
      if x != [] { EndsWithNewline(x); }
      if y != [] { EndsWithNewline(y); }
    } else {
      SameLast(x, y);
      LinesAreUnique(x[..|x| - 1], y[..|y| - 1]);
    }
  }

  lemma SameLast(x: seq<Line>, y: seq<Line>)
    requires ProperLines(x) && ProperLines(y) && Unlines(x) == Unlines(y) && x != [] && y != []
    ensures var m, n := |x| - 1, |y| - 1;
            Unlines(x[..m]) == Unlines(y[..n]) && x[m].text == y[n].text && x[m].complete == y[n].complete
  {
    EndsWithNewline(x);
    EndsWithNewline(y);
    var m, n := |x| - 1, |y| - 1;
    var front, front' := Unlines(x[..m]), Unlines(y[..n]);
    CancelTail(front + x[m].text, front' + y[n].text, if x[m].complete then [NEWLINE] else []);
    FrontEndsLine(x);
    FrontEndsLine(y);
    SameLastLine(front, front', x[m].text, y[n].text);
  }

  lemma CancelTail(u: Text, v: Text, tail: Text)
    requires u + tail == v + tail
    ensures u == v
  {
    assert |u| == |v|;
    assert u == (u + tail)[..|u|] && v == (v + tail)[..|v|];
  }

  lemma FrontEndsLine(lines: seq<Line>)
    requires ProperLines(lines) && lines != []
    ensures var front := Unlines(lines[..|lines| - 1]);
            front != [] ==> front[|front| - 1] == NEWLINE
  {
    if |lines| > 1 {
      EndsWithNewline(lines[..|lines| - 1]);
    }
  }

  // ---- eviction ----

  // Both caps hold, or nothing is left to evict.
  ghost predicate Fits(lines: seq<Line>) {
    |lines| <= 1 || (SumBytes(lines) <= MAX_BYTES && |lines| <= MAX_LINES)
  }

  lemma {:induction false} SumWithoutFront(lines: seq<Line>)
    requires lines != []
    ensures SumBytes(lines) == lines[0].bytes + SumBytes(lines[1..])
    decreases |lines|
  {
    var n := |lines| - 1;
    if n > 0 {
      SumWithoutFront(lines[..n]);
      assert lines[..n][1..] == lines[1..][..n - 1];
    }
  }

  // The lines kept are those after the fewest front lines whose removal makes the rest fit.
  lemma {:induction false} EvictsFewest(log: Log) returns (k: nat)
    requires log.totalBytes == SumBytes(log.buffer)
    ensures k <= |log.buffer| && Enforce(log).buffer == log.buffer[k..]
    ensures Enforce(log).totalBytes == SumBytes(log.buffer[k..])
    ensures Fits(log.buffer[k..]) && forall j :: 0 <= j < k ==> !Fits(log.buffer[j..])
    decreases |log.buffer|
  {
    assert log.buffer[0..] == log.buffer;
    if OverCap(log) {
      SumWithoutFront(log.buffer);
      var k1 := EvictsFewest(DropFront(log));
      k := k1 + 1;
      assert log.buffer[1..][k1..] == log.buffer[k..];
      forall j | 0 <= j < k
        ensures !Fits(log.buffer[j..])
      {
        if j > 0 {
          assert log.buffer[1..][j - 1..] == log.buffer[j..];
        }
      }
    } else {
      k := 0;
    }
  }

  lemma LinesOfText(text: Text)
    ensures var log := AddAll(EMPTY, text);
            Proper(log) && ExactBytes(log) && Unlines(log.buffer) == text
  {
    AddFromMeaning(EMPTY, text, 0);
    AddFromExact(EMPTY, text, 0);
    assert [] + text[0..] == text;
  }

  // ---- whole sessions, however the chunks are cut ----

  function AddEach(chunks: seq<Text>): Log {
    if chunks == [] then EMPTY else AddAll(AddEach(chunks[..|chunks| - 1]), chunks[|chunks| - 1])
  }

  // Evicting once at the end is evicting after every chunk.
  lemma {:induction false} EvictOnce(chunks: seq<Text>)
    ensures AppendEach(EMPTY, chunks) == Enforce(AddEach(chunks))
    decreases |chunks|
  {
    if chunks != [] {
      var n := |chunks| - 1;
      EvictOnce(chunks[..n]);
      EvictEarly(AddEach(chunks[..n]), chunks[n]);
    }
  }

  lemma {:induction false} AddEachMeaning(chunks: seq<Text>)
    ensures Proper(AddEach(chunks)) && Unlines(AddEach(chunks).buffer) == Concat(chunks)
    decreases |chunks|
  {
    if chunks != [] {
      var n := |chunks| - 1;
      AddEachMeaning(chunks[..n]);
      AddFromMeaning(AddEach(chunks[..n]), chunks[n], 0);
    }
  }

  // How many chunk boundaries fall inside a surrogate pair.
  function SplitCount(chunks: seq<Text>): nat {
    if chunks == [] then 0
    else
      var n := |chunks| - 1;
      SplitCount(chunks[..n]) + if SplitsPair(Concat(chunks[..n]), chunks[n]) then 1 else 0
  }

  function SumOf(cuts: seq<nat>): nat {
    if cuts == [] then 0 else SumOf(cuts[..|cuts| - 1]) + cuts[|cuts| - 1]
  }

  // cuts[i] boundaries fell inside a pair of line i: it counts 2 bytes less for each.
  ghost predicate CutIn(lines: seq<Line>, cuts: seq<nat>) {
    |cuts| == |lines|
    && forall i :: 0 <= i < |lines| ==> lines[i].bytes + 2 * cuts[i] == Utf8Size(lines[i].text)
  }

  predicate CutsLast(log: Log, piece: Text) {
    Open(log) && SplitsPair(log.buffer[|log.buffer| - 1].text, piece)
  }

  lemma SumOfLast(front: seq<nat>, last: nat)
    ensures SumOf(front + [last]) == SumOf(front) + last
  {
    assert (front + [last])[..|front|] == front;
  }

  lemma ExtendCuts(log: Log, piece: Text, endsLine: bool, cuts: seq<nat>) returns (cuts': seq<nat>)
    requires CutIn(log.buffer, cuts)
    ensures CutIn(Extend(log, piece, endsLine).buffer, cuts')
    ensures SumOf(cuts') == SumOf(cuts) + if CutsLast(log, piece) then 1 else 0
  {
    if Open(log) {
      var n := |cuts| - 1;
      var d := if CutsLast(log, piece) then 1 else 0;
      SizeOfConcat(log.buffer[n].text, piece);
      SumOfLast(cuts[..n], cuts[n]);
      SumOfLast(cuts[..n], cuts[n] + d);
      assert cuts == cuts[..n] + [cuts[n]];
      cuts' := cuts[..n] + [cuts[n] + d];
    } else {
      SumOfLast(cuts, 0);
      cuts' := cuts + [0];
    }
  }

  // Only the first piece of a chunk can join a line.
  lemma {:induction false} AddFromCuts(log: Log, chunk: Text, start: nat, cuts: seq<nat>) returns (cuts': seq<nat>)
    requires CutIn(log.buffer, cuts) && start <= |chunk|
    ensures CutIn(AddFrom(log, chunk, start).buffer, cuts')
    ensures SumOf(cuts') == SumOf(cuts) + if CutsLast(log, chunk[start..]) then 1 else 0
    decreases |chunk| - start
  {
    if start == |chunk| {
      cuts' := cuts;
    } else {
      var end := PieceEnd(chunk, start);
      var raw := chunk[start..end];
      AddStep(log, chunk, start);
      FirstPieceCuts(log, chunk, start);
      var cuts1 := ExtendCuts(log, WithoutNewline(raw), EndsLine(raw), cuts);
      RestJoinsNothing(log, chunk, start);
      cuts' := AddFromCuts(AddPiece(log, raw), chunk, end, cuts1);
    }
  }

  lemma FirstPieceCuts(log: Log, chunk: Text, start: nat)
    requires start < |chunk|
    ensures CutsLast(log, WithoutNewline(chunk[start..PieceEnd(chunk, start)])) <==> CutsLast(log, chunk[start..])
  {
  }

  lemma RestJoinsNothing(log: Log, chunk: Text, start: nat)
    requires start < |chunk|
    ensures var end := PieceEnd(chunk, start);
            !CutsLast(AddPiece(log, chunk[start..end]), chunk[end..])
  {
    LastPieceOpen(chunk, start);
  }

  // The last line is open exactly when the text does not end with a newline, and ends as
  // the text does.
  lemma CutsTextIff(log: Log, chunk: Text)
    requires ProperLines(log.buffer)
    ensures CutsLast(log, chunk) <==> SplitsPair(Unlines(log.buffer), chunk)
  {
    if log.buffer != [] {
      EndsWithNewline(log.buffer);
    }
  }

  lemma {:induction false} AddEachCuts(chunks: seq<Text>) returns (cuts: seq<nat>)
    ensures CutIn(AddEach(chunks).buffer, cuts) && SumOf(cuts) == SplitCount(chunks)
    decreases |chunks|
  {
    if chunks == [] {
      cuts := [];
    } else {
      var n := |chunks| - 1;
      var before := AddEachCuts(chunks[..n]);
      AddEachMeaning(chunks[..n]);
      CutsTextIff(AddEach(chunks[..n]), chunks[n]);
      assert chunks[n][0..] == chunks[n];
      cuts := AddFromCuts(AddEach(chunks[..n]), chunks[n], 0, before);
    }
  }

  // Main result, for every session: the buffer is the lines of the whole output, less the
  // fewest front lines that meet both caps or leave one line; totalBytes is the sum of
  // their counts; and each count is the line's size as UTF-8, less 2 for every chunk
  // boundary inside one of its pairs.
  lemma SessionMeaning(chunks: seq<Text>) returns (all: seq<Line>, k: nat, cuts: seq<nat>)
    ensures ProperLines(all) && Unlines(all) == Concat(chunks)
    ensures CutIn(all, cuts) && SumOf(cuts) == SplitCount(chunks)
    ensures k <= |all| && AppendEach(EMPTY, chunks) == Log(all[k..], SumBytes(all[k..]))
    ensures Fits(all[k..]) && forall j :: 0 <= j < k ==> !Fits(all[j..])
  {
    EvictOnce(chunks);
    AddEachMeaning(chunks);
    all := AddEach(chunks).buffer;
    k := EvictsFewest(AddEach(chunks));
    cuts := AddEachCuts(chunks);
  }

  ghost predicate SplitsAt(chunks: seq<Text>, i: nat)
    requires i < |chunks|
  {
    SplitsPair(Concat(chunks[..i]), chunks[i])
  }

  lemma SplitsInFront(chunks: seq<Text>, i: nat)
    requires i + 1 < |chunks|
    ensures SplitsAt(chunks[..|chunks| - 1], i) == SplitsAt(chunks, i)
  {
    assert chunks[..|chunks| - 1][..i] == chunks[..i];
  }

  lemma {:induction false} SplitCountZero(chunks: seq<Text>)
    requires forall i :: 0 <= i < |chunks| ==> !SplitsAt(chunks, i)
    ensures SplitCount(chunks) == 0
    decreases |chunks|
  {
    if chunks != [] {
      var n := |chunks| - 1;
      forall i | 0 <= i < n
        ensures !SplitsAt(chunks[..n], i)
      {
        SplitsInFront(chunks, i);
      }
      SplitCountZero(chunks[..n]);
      assert !SplitsAt(chunks, n);
    }
  }

  lemma {:induction false} SumZero(cuts: seq<nat>, i: nat)
    requires SumOf(cuts) == 0 && i < |cuts|
    ensures cuts[i] == 0
    decreases |cuts|
  {
    if i < |cuts| - 1 {
      SumZero(cuts[..|cuts| - 1], i);
    }
  }

  // So the counts are exact in all sessions that split no pair.
  lemma SessionSizes(chunks: seq<Text>) returns (all: seq<Line>, k: nat)
    requires NoPairSplit(chunks)
    ensures k <= |all| && AppendEach(EMPTY, chunks).buffer == all[k..] && Unlines(all) == Concat(chunks)
    ensures forall i :: 0 <= i < |all| ==> all[i].bytes == Utf8Size(all[i].text)
  {
    var cuts;
    all, k, cuts := SessionMeaning(chunks);
    assert forall i :: 0 <= i < |chunks| ==> !SplitsAt(chunks, i);
    SplitCountZero(chunks);
    forall i | 0 <= i < |all|
      ensures all[i].bytes == Utf8Size(all[i].text)
    {
      SumZero(cuts, i);
    }
  }

  // The last line is what was written after the last newline but a final one.
  lemma LastLine(chunks: seq<Text>) returns (front: Text, end: Text)
    requires Concat(chunks) != []
    ensures var log := AppendEach(EMPTY, chunks);
            && log.buffer != []
            && Concat(chunks) == front + log.buffer[|log.buffer| - 1].text + end
            && NoNewline(log.buffer[|log.buffer| - 1].text)
            && (front != [] ==> front[|front| - 1] == NEWLINE)
            && end == if EndsLine(Concat(chunks)) then [NEWLINE] else []
  {
    var all, k, _ := SessionMeaning(chunks);
    var n := |all| - 1;
    assert k <= n by {
      assert Fits(all[n..]);
    }
    assert all[k..][n - k] == all[n];
    front, end := Unlines(all[..n]), if all[n].complete then [NEWLINE] else [];
    FrontEndsLine(all);
    EndsWithNewline(all);
  }

  // ---- a boundary inside a surrogate pair ----

  function PieceCount(chunk: Text, start: nat): nat
    requires start <= |chunk|
    decreases |chunk| - start
  {
    if start == |chunk| then 0 else 1 + PieceCount(chunk, PieceEnd(chunk, start))
  }

  // The same log but for line at, which counts 2 bytes more in whole than in cut.
  ghost predicate TwoMoreAt(cut: Log, whole: Log, at: nat) {
    && |cut.buffer| == |whole.buffer| && at < |cut.buffer|
    && whole.totalBytes == cut.totalBytes + 2
    && whole.buffer == cut.buffer[at := cut.buffer[at].(bytes := cut.buffer[at].bytes + 2)]
  }

  lemma AddPieceTwoMore(cut: Log, whole: Log, at: nat, raw: Text)
    requires TwoMoreAt(cut, whole, at)
    ensures TwoMoreAt(AddPiece(cut, raw), AddPiece(whole, raw), at)
  {
  }

  lemma {:induction false} AddFromTwoMore(cut: Log, whole: Log, at: nat, chunk: Text, start: nat)
    requires TwoMoreAt(cut, whole, at) && start <= |chunk|
    ensures TwoMoreAt(AddFrom(cut, chunk, start), AddFrom(whole, chunk, start), at)
    decreases |chunk| - start
  {
    if start < |chunk| {
      var piece := chunk[start..PieceEnd(chunk, start)];
      AddStep(cut, chunk, start);
      AddStep(whole, chunk, start);
      AddPieceTwoMore(cut, whole, at, piece);
      AddFromTwoMore(AddPiece(cut, piece), AddPiece(whole, piece), at, chunk, PieceEnd(chunk, start));
    }
  }

  // The piece before the boundary and the piece after it, joined in two steps or in one.
  lemma ExtendTwoMore(log: Log, x: Text, p: Text, endsLine: bool)
    requires Utf8Size(x + p) == Utf8Size(x) + Utf8Size(p) + 2
    ensures var cut, whole := Extend(Extend(log, x, false), p, endsLine), Extend(log, x + p, endsLine);
            TwoMoreAt(cut, whole, |cut.buffer| - 1)
  {
    if Open(log) {
      var text := log.buffer[|log.buffer| - 1].text;
      assert (text + x) + p == text + (x + p);
    }
  }

  lemma JoinTwoMore(log: Log, x: Text, p: Text) returns (cut: Log, whole: Log)
    requires SplitsPair(x, p)
    ensures cut == AddPiece(AddPiece(log, x), p) && whole == AddPiece(log, x + p)
    ensures cut.buffer != [] && TwoMoreAt(cut, whole, |cut.buffer| - 1)
    ensures EndsLine(p) ==> !Open(cut)
  {
    JoinedParts(x, p);
    ExtendTwoMore(log, x, WithoutNewline(p), EndsLine(p));
    cut, whole := AddPiece(AddPiece(log, x), p), AddPiece(log, x + p);
  }

  lemma JoinedParts(x: Text, p: Text)
    requires SplitsPair(x, p)
    ensures WithoutNewline(x) == x && !EndsLine(x)
    ensures WithoutNewline(x + p) == x + WithoutNewline(p) && EndsLine(x + p) == EndsLine(p)
    ensures Utf8Size(x + WithoutNewline(p)) == Utf8Size(x) + Utf8Size(WithoutNewline(p)) + 2
  {
    SizeOfConcat(x, WithoutNewline(p));
  }

  lemma SplitAcross(log: Log, a: Text, b: Text, start: nat) returns (cut: Log, whole: Log, at: nat)
    requires SplitsPair(a, b) && start < |a| && IndexOfNewline(a, start) == -1
    ensures cut == AddAll(AddFrom(log, a, start), b) && whole == AddFrom(log, a + b, start)
    ensures TwoMoreAt(cut, whole, at) && |cut.buffer| - at == PieceCount(b, 0)
  {
    BoundaryKept(a, b, start);
    AddAcross(log, a, b, start);
    cut, whole, at := JoinedThenRest(log, a[start..], b);
  }

  // The piece x that a ends in, and then b.
  lemma JoinedThenRest(log: Log, x: Text, b: Text) returns (cut: Log, whole: Log, at: nat)
    requires b != [] && SplitsPair(x, b[..PieceEnd(b, 0)])
    requires PieceEnd(b, 0) < |b| ==> EndsLine(b[..PieceEnd(b, 0)])
    ensures var end := PieceEnd(b, 0);
            && cut == AddFrom(AddPiece(AddPiece(log, x), b[..end]), b, end)
            && whole == AddFrom(AddPiece(log, x + b[..end]), b, end)
    ensures TwoMoreAt(cut, whole, at) && |cut.buffer| - at == PieceCount(b, 0)
  {
    var end := PieceEnd(b, 0);
    var cut1, whole1 := JoinTwoMore(log, x, b[..end]);
    RestTwoMore(cut1, whole1, b);
    cut, whole, at := AddFrom(cut1, b, end), AddFrom(whole1, b, end), |cut1.buffer| - 1;
  }

  lemma BoundaryKept(a: Text, b: Text, start: nat)
    requires SplitsPair(a, b) && start < |a|
    ensures SplitsPair(a[start..], b[..PieceEnd(b, 0)])
    ensures PieceEnd(b, 0) < |b| ==> EndsLine(b[..PieceEnd(b, 0)])
  {
  }

  lemma RestTwoMore(cut: Log, whole: Log, b: Text)
    requires b != [] && cut.buffer != [] && TwoMoreAt(cut, whole, |cut.buffer| - 1)
    requires PieceEnd(b, 0) < |b| ==> !Open(cut)
    ensures var end := PieceEnd(b, 0);
            cut.buffer != []
            && TwoMoreAt(AddFrom(cut, b, end), AddFrom(whole, b, end), |cut.buffer| - 1)
            && |AddFrom(cut, b, end).buffer| - (|cut.buffer| - 1) == PieceCount(b, 0)
  {
    AddFromTwoMore(cut, whole, |cut.buffer| - 1, b, PieceEnd(b, 0));
    AddFromAccount(cut, b, PieceEnd(b, 0), |cut.buffer| - 1);
  }

  lemma PieceEndsBeforePair(a: Text, b: Text, start: nat)
    requires SplitsPair(a, b) && start < |a| && IndexOfNewline(a, start) != -1
    ensures PieceEnd(a, start) < |a|
  {
  }

  // For any chunks a and b: the log that gets them one by one and the log that gets both
  // at once, before eviction, and where the line with the pair is.
  lemma {:induction false} SplitTwoMore(log: Log, a: Text, b: Text, start: nat)
    returns (cut: Log, whole: Log, at: nat)
    requires SplitsPair(a, b) && start < |a|
    ensures cut == AddAll(AddFrom(log, a, start), b) && whole == AddFrom(log, a + b, start)
    ensures TwoMoreAt(cut, whole, at) && |cut.buffer| - at == PieceCount(b, 0)
    decreases |a| - start
  {
    if IndexOfNewline(a, start) != -1 {
      PieceEndsBeforePair(a, b, start);
      var end := PieceEnd(a, start);
      AddInFront(log, a, b, start);
      cut, whole, at := SplitTwoMore(AddPiece(log, a[start..end]), a, b, end);
    } else {
      cut, whole, at := SplitAcross(log, a, b, start);
    }
  }

  // After eviction the two differ exactly while the line is kept.
  lemma {:induction false} EnforceTwoMore(cut: Log, whole: Log, at: nat)
    requires TwoMoreAt(cut, whole, at)
    ensures Enforce(cut) == Enforce(whole) <==> |Enforce(cut).buffer| < |cut.buffer| - at
    decreases |cut.buffer|
  {
    EnforceShrinks(cut);
    EnforceShrinks(whole);
    if OverCap(cut) {
      var cut', whole' := DropFront(cut), DropFront(whole);
      if at == 0 {
        assert cut' == whole';
        EnforceShrinks(cut');
      } else {
        assert TwoMoreAt(cut', whole', at - 1);
        EnforceTwoMore(cut', whole', at - 1);
      }
    } else if OverCap(whole) {
      EnforceShrinks(DropFront(whole));
    } else {
      assert cut.buffer[at] != whole.buffer[at];
    }
  }

  lemma {:induction false} EnforceShrinks(log: Log)
    ensures |Enforce(log).buffer| <= |log.buffer|
    decreases |log.buffer|
  {
    if OverCap(log) {
      EnforceShrinks(DropFront(log));
    }
  }

  // A pair cut in two shows exactly while the line with it is kept: b adds one line to
  // it for each of its pieces but the first.
  lemma SplitPairShows(log: Log, a: Text, b: Text)
    requires SplitsPair(a, b)
    ensures Append(Append(log, a), b) == Append(log, a + b)
            <==> |Append(Append(log, a), b).buffer| < PieceCount(b, 0)
  {
    EvictEarly(AddAll(log, a), b);
    var cut, whole, at := SplitTwoMore(log, a, b, 0);
    EnforceTwoMore(cut, whole, at);
  }

  // ---- when that line is evicted, from the log and the chunks alone ----

  // The class invariant of TerminalLog: totalBytes counts the lines of the buffer.
  ghost predicate Counted(log: Log) {
    log.totalBytes == SumBytes(log.buffer)
  }

  lemma ExtendKeepsCounted(log: Log, piece: Text, endsLine: bool)
    requires Counted(log)
    ensures Counted(Extend(log, piece, endsLine))
  {
    var log' := Extend(log, piece, endsLine);
    var n := |log'.buffer| - 1;
    assert log'.buffer[..n] == if Open(log) then log.buffer[..n] else log.buffer;
  }

  lemma {:induction false} AddFromKeepsCounted(log: Log, chunk: Text, start: nat)
    requires Counted(log) && start <= |chunk|
    ensures Counted(AddFrom(log, chunk, start))
    decreases |chunk| - start
  {
    if start < |chunk| {
      var raw := chunk[start..PieceEnd(chunk, start)];
      AddStep(log, chunk, start);
      ExtendKeepsCounted(log, WithoutNewline(raw), EndsLine(raw));
      AddFromKeepsCounted(AddPiece(log, raw), chunk, PieceEnd(chunk, start));
    }
  }

  lemma AppendKeepsCounted(log: Log, chunk: Text)
    requires Counted(log)
    ensures Counted(Append(log, chunk))
  {
    AddFromKeepsCounted(log, chunk, 0);
    var _ := EvictsFewest(AddAll(log, chunk));
  }

  function OpenBytes(log: Log): nat {
    if Open(log) then log.buffer[|log.buffer| - 1].bytes else 0
  }

  // The size of the line that chunk leaves open, when open bytes are there already.
  function TailBytes(open: nat, chunk: Text, start: nat): nat
    requires start <= |chunk|
    decreases |chunk| - start
  {
    if IndexOfNewline(chunk, start) == -1 then open + Utf8Size(chunk[start..])
    else TailBytes(0, chunk, PieceEnd(chunk, start))
  }

  function PiecesBytes(chunk: Text, start: nat): nat
    requires start <= |chunk|
    decreases |chunk| - start
  {
    if start == |chunk| then 0
    else Utf8Size(WithoutNewline(chunk[start..PieceEnd(chunk, start)])) + PiecesBytes(chunk, PieceEnd(chunk, start))
  }

  // The lines from the one with the pair on, which b follows, break a cap.
  predicate PairLineEvicted(log: Log, a: Text, b: Text) {
    PieceCount(b, 0) > 1
    && (PieceCount(b, 0) > MAX_LINES || TailBytes(OpenBytes(log), a, 0) + PiecesBytes(b, 0) > MAX_BYTES)
  }

  lemma TailPiece(log: Log, piece: Text)
    requires !EndsLine(piece)
    ensures var x := AddPiece(log, piece);
            Open(x) && x.buffer[|x.buffer| - 1].bytes == OpenBytes(log) + Utf8Size(piece)
  {
  }

  lemma LineClosed(log: Log, piece: Text)
    requires EndsLine(piece)
    ensures OpenBytes(AddPiece(log, piece)) == 0
  {
  }

  lemma LastPiece(a: Text, start: nat)
    requires start < |a| && IndexOfNewline(a, start) == -1
    ensures PieceEnd(a, start) == |a| && a[start..PieceEnd(a, start)] == a[start..]
    ensures EndsLine(a[start..]) == EndsLine(a)
  {
  }

  lemma PieceWithNewline(a: Text, start: nat)
    requires start < |a| && IndexOfNewline(a, start) != -1
    ensures EndsLine(a[start..PieceEnd(a, start)])
    ensures !EndsLine(a) ==> PieceEnd(a, start) < |a|
  {
  }

  lemma AddNothing(log: Log, chunk: Text)
    ensures AddFrom(log, chunk, |chunk|) == log
  {
  }

  // The first piece of a, and then the rest.
  lemma TailFrom(log: Log, a: Text, start: nat) returns (piece: Text, end: nat)
    requires start < |a| && !EndsLine(a)
    ensures start < end <= |a| && AddFrom(log, a, start) == AddFrom(AddPiece(log, piece), a, end)
    ensures end == |a| ==> !EndsLine(piece) && TailBytes(OpenBytes(log), a, start) == OpenBytes(log) + Utf8Size(piece)
    ensures end < |a| ==> EndsLine(piece) && TailBytes(OpenBytes(log), a, start) == TailBytes(0, a, end)
  {
    end := PieceEnd(a, start);
    piece := a[start..end];
    AddStep(log, a, start);
    if IndexOfNewline(a, start) == -1 {
      LastPiece(a, start);
    } else {
      PieceWithNewline(a, start);
    }
  }

  lemma {:induction false} TailLine(log: Log, a: Text, start: nat)
    requires start < |a| && !EndsLine(a)
    ensures var x := AddFrom(log, a, start);
            Open(x) && x.buffer[|x.buffer| - 1].bytes == TailBytes(OpenBytes(log), a, start)
    decreases |a| - start
  {
    var piece, end := TailFrom(log, a, start);
    if end == |a| {
      TailPiece(log, piece);
      AddNothing(AddPiece(log, piece), a);
    } else {
      LineClosed(log, piece);
      TailLine(AddPiece(log, piece), a, end);
    }
  }

  lemma AddPieceAccount(log: Log, raw: Text, at: nat)
    requires at + 1 == |log.buffer|
    ensures var log' := AddPiece(log, raw);
            && |log'.buffer| == |log.buffer| + (if Open(log) then 0 else 1)
            && log'.totalBytes == log.totalBytes + Utf8Size(WithoutNewline(raw))
            && log'.buffer[..at] == log.buffer[..at]
            && (Open(log') <==> !EndsLine(raw))
  {
  }

  // What adding text leaves alone, and how many lines and bytes it adds.
  lemma {:induction false} AddFromAccount(log: Log, chunk: Text, start: nat, at: nat)
    requires start <= |chunk| && at < |log.buffer|
    ensures var log' := AddFrom(log, chunk, start);
            && |log'.buffer| == |log.buffer| + PieceCount(chunk, start)
                                - (if Open(log) && start < |chunk| then 1 else 0)
            && log'.totalBytes == log.totalBytes + PiecesBytes(chunk, start)
            && log'.buffer[..at] == log.buffer[..at]
    decreases |chunk| - start
  {
    if start < |chunk| {
      AddStep(log, chunk, start);
      var end := PieceEnd(chunk, start);
      var log1 := AddPiece(log, chunk[start..end]);
      AddPieceAccount(log, chunk[start..end], |log.buffer| - 1);
      FrontOfFront(log1.buffer, log.buffer, |log.buffer| - 1, at);
      AddFromAccount(log1, chunk, end, at);
      LastPieceOpen(chunk, start);
    }
  }

  lemma LastPieceOpen(chunk: Text, start: nat)
    requires start < |chunk|
    ensures var end := PieceEnd(chunk, start);
            !EndsLine(chunk[start..end]) ==> end == |chunk|
  {
  }

  lemma FrontOfFront(x: seq<Line>, y: seq<Line>, n: nat, at: nat)
    requires at <= n <= |x| && n <= |y| && x[..n] == y[..n]
    ensures x[..at] == y[..at]
  {
    assert x[..at] == x[..n][..at] && y[..at] == y[..n][..at];
  }

  lemma {:induction false} SumInTwo(lines: seq<Line>, at: nat)
    requires at <= |lines|
    ensures SumBytes(lines) == SumBytes(lines[..at]) + SumBytes(lines[at..])
    decreases |lines|
  {
    if at < |lines| {
      var n := |lines| - 1;
      SumInTwo(lines[..n], at);
      assert lines[..n][..at] == lines[..at] && lines[..n][at..] == lines[at..][..n - at];
    } else {
      assert lines[..at] == lines;
    }
  }

  lemma FitsFurther(lines: seq<Line>, k: nat, at: nat)
    requires k <= at <= |lines| && Fits(lines[k..])
    ensures Fits(lines[at..])
  {
    SumInTwo(lines[k..], at - k);
    assert lines[k..][at - k..] == lines[at..];
  }

  // Fewer lines are kept than there are from at on exactly when those do not fit.
  lemma KeptLess(log: Log, at: nat)
    requires Counted(log) && at < |log.buffer|
    ensures |Enforce(log).buffer| < |log.buffer| - at <==> !Fits(log.buffer[at..])
  {
    var k := EvictsFewest(log);
    if k <= at {
      FitsFurther(log.buffer, k, at);
    }
  }

  lemma LinesFromPair(log: Log, a: Text, b: Text) returns (cut: Log, at: nat)
    requires Counted(log) && SplitsPair(a, b)
    ensures cut == AddAll(AddAll(log, a), b) && Counted(cut)
    ensures at < |cut.buffer| && |cut.buffer| - at == PieceCount(b, 0)
    ensures SumBytes(cut.buffer[at..]) == TailBytes(OpenBytes(log), a, 0) + PiecesBytes(b, 0)
  {
    var x := AddAll(log, a);
    AddFromKeepsCounted(log, a, 0);
    TailLine(log, a, 0);
    at := |x.buffer| - 1;
    cut := AddAll(x, b);
    AddFromKeepsCounted(x, b, 0);
    AddFromAccount(x, b, 0, at);
    SumInTwo(cut.buffer, at);
  }

  // Main result, for every log and any chunks: two chunks leave the log their
  // concatenation would exactly when the boundary is not inside a surrogate pair, or the
  // line with that pair goes at once, since what b adds to it breaks a cap.
  lemma ChunkingIff(log: Log, a: Text, b: Text)
    requires Counted(log)
    ensures Append(Append(log, a), b) == Append(log, a + b)
            <==> !SplitsPair(a, b) || PairLineEvicted(log, a, b)
  {
    if SplitsPair(a, b) {
      SplitPairShows(log, a, b);
      EvictEarly(AddAll(log, a), b);
      var cut, at := LinesFromPair(log, a, b);
      KeptLess(cut, at);
    } else {
      ChunkingDoesNotMatter(log, a, b);
    }
  }

  // U+1F600, in two chunks and in one, on an empty log: 2 bytes are counted, not 4.
  const HIGH_HALF: Text := [0xD83D]
  const LOW_HALF: Text := [0xDE00]

  lemma SplitPairCountsLess()
    ensures Append(Append(EMPTY, HIGH_HALF), LOW_HALF).totalBytes == 2
    ensures Append(EMPTY, HIGH_HALF + LOW_HALF).totalBytes == 4
  {
    ShortText(EMPTY, HIGH_HALF);
    var log := AddPiece(EMPTY, HIGH_HALF);
    ShortText(log, LOW_HALF);
    assert SizeUpTo(HIGH_HALF, 0) == SizeUpTo(LOW_HALF, 0) == 0;
    ShortText(EMPTY, HIGH_HALF + LOW_HALF);
    assert SizeUpTo(HIGH_HALF + LOW_HALF, 1) == 2;
  }

  // Text without a newline is one piece; one line is never evicted.
  lemma ShortText(log: Log, s: Text)
    requires s != [] && NoNewline(s)
    requires log == EMPTY || (|log.buffer| == 1 && Open(log))
    ensures Append(log, s) == AddPiece(log, s) == Extend(log, s, false)
  {
    assert s[0..PieceEnd(s, 0)] == s;
    AddStep(log, s, 0);
  }
}
