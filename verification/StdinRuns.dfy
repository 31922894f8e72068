// Whole runs of the stdin FIFO: which script reads which byte.
module StdinRuns {
  import opened Common
  import opened StdinFifo

  // Calls in the order the lock admits them. Start and Stop are script_active(1) and
  // script_active(0); Clear is the clear an Interrupt does.
  datatype Op = Start | Stop | Clear | Push(data: seq<byte>) | Read(max: nat)

  // A byte handed to a script: the script's number, the place of the byte among those
  // accepted while that script was active, and the byte.
  datatype ReadByte = ReadByte(script: nat, index: nat, value: byte)

  // accepted: per script, the bytes pushes took. The FIFO holds the last script's
  // accepted bytes from next on.
  datatype State = State(active: bool, accepted: seq<seq<byte>>, next: nat, content: seq<byte>, got: seq<ReadByte>)

  const INITIAL := State(false, [], 0, [], [])

  ghost function Last(s: State): seq<byte> {
    if s.accepted == [] then [] else s.accepted[|s.accepted| - 1]
  }

  ghost function Marked(script: nat, from: nat, bytes: seq<byte>): (r: seq<ReadByte>)
    ensures |r| == |bytes|
    ensures forall i :: 0 <= i < |r| ==> r[i] == ReadByte(script, from + i, bytes[i])
  {
    seq(|bytes|, i requires 0 <= i < |bytes| => ReadByte(script, from + i, bytes[i]))
  }

  // content moves as the contracts of StdinFifo's methods say.
  ghost function Step(s: State, op: Op): State
    requires s.next <= |Last(s)|
    requires s.active ==> s.accepted != []
    requires !s.active ==> s.content == []
  {
    match op
    case Start => State(true, s.accepted + [[]], 0, [], s.got)
    case Stop => s.(active := false, content := [], next := |Last(s)|)
    case Clear => s.(content := [], next := |Last(s)|)
    case Push(data) =>
      if !s.active then s
      else
        var taken := Accepted(s.content, data);
        s.(content := s.content + taken, accepted := s.accepted[|s.accepted| - 1 := Last(s) + taken])
    case Read(max) =>
      var n := Min(|s.content|, max);
      if n == 0 then s
      else
        s.(content := s.content[n..], next := s.next + n,
           got := s.got + Marked(|s.accepted| - 1, s.next, s.content[..n]))
  }

  predicate Before(a: ReadByte, b: ReadByte) {
    a.script < b.script || (a.script == b.script && a.index < b.index)
  }

  // Every byte read was accepted for the script that read it.
  ghost predicate FromOwnScript(s: State) {
    forall i :: 0 <= i < |s.got| ==>
      s.got[i].script < |s.accepted|
      && s.got[i].index < |s.accepted[s.got[i].script]|
      && s.accepted[s.got[i].script][s.got[i].index] == s.got[i].value
  }

  // Bytes are read in the order accepted, none twice.
  ghost predicate InOrderOnce(s: State) {
    forall i, j :: 0 <= i < j < |s.got| ==> Before(s.got[i], s.got[j])
  }

  ghost predicate Inv(s: State) {
    && s.next <= |Last(s)| && s.content == Last(s)[s.next..] && |s.content| <= FIFO_SIZE
    && (s.active ==> s.accepted != [])
    && (!s.active ==> s.content == [])
    && FromOwnScript(s)
    && InOrderOnce(s)
    && forall i :: 0 <= i < |s.got| ==> s.got[i].script < |s.accepted| - 1 || s.got[i].index < s.next
  }

  // ---- these steps are the code's ----

  ghost predicate Agrees(fifo: StdinFifo, s: State)
    reads fifo
  {
    fifo.scriptActive == s.active && fifo.content == s.content
  }

  // One call on the FIFO. n: what a push returns. read: the bytes a read puts into the
  // caller's buffer.
  method Call(fifo: StdinFifo, op: Op, ghost s: State) returns (n: int, read: seq<byte>)
    requires fifo.Valid() && Agrees(fifo, s) && Inv(s)
    modifies fifo, fifo.buf
    ensures fifo.Valid() && Agrees(fifo, Step(s, op))
    ensures Values(Step(s, op).got) == Values(s.got) + read
    ensures op.Push? ==>
              if s.active then 0 <= n <= |op.data| && Last(Step(s, op)) == Last(s) + op.data[..n]
              else n == -1 && Step(s, op) == s
  {
    n, read := 0, [];
    match op
    case Start => fifo.ScriptActive(true);
    case Stop => fifo.ScriptActive(false);
    case Clear => fifo.Clear();
    case Push(data) => n := fifo.Push(data);
    case Read(max) => read := fifo.ReadAvailable(max);
  }

  lemma PushKeepsInv(s: State, data: seq<byte>)
    requires Inv(s) && s.active
    ensures Inv(Step(s, Push(data)))
  {
    var s' := Step(s, Push(data));
    assert Last(s')[s.next..] == s'.content;
  }

  lemma ReadKeepsInv(s: State, max: nat)
    requires Inv(s)
    ensures Inv(Step(s, Read(max)))
  {
    var s' := Step(s, Read(max));
    if s' != s {
      var n := Min(|s.content|, max);
      var script, last := |s.accepted| - 1, Last(s);
      assert last[s.next..][n..] == last[s.next + n..];
      AppendMarked(s.accepted, s.got, script, s.next, s.content[..n]);
    }
  }

  lemma AppendMarked(accepted: seq<seq<byte>>, got: seq<ReadByte>, script: nat, from: nat, bytes: seq<byte>)
    requires script + 1 == |accepted| && from + |bytes| <= |accepted[script]|
    requires accepted[script][from..from + |bytes|] == bytes
    requires forall i :: 0 <= i < |got| ==> got[i].script < script || (got[i].script == script && got[i].index < from)
    requires forall i, j :: 0 <= i < j < |got| ==> Before(got[i], got[j])
    ensures var got' := got + Marked(script, from, bytes);
            && (forall i, j :: 0 <= i < j < |got'| ==> Before(got'[i], got'[j]))
            && (forall i :: |got| <= i < |got'| ==>
                  got'[i].script == script && from <= got'[i].index < from + |bytes|
                  && accepted[script][got'[i].index] == got'[i].value)
  {
    forall i | 0 <= i < |bytes| ensures bytes[i] == accepted[script][from + i] {
      assert accepted[script][from..from + |bytes|][i] == accepted[script][from + i];
    }
  }

  lemma StartKeepsInv(s: State)
    requires Inv(s)
    ensures Inv(Step(s, Start))
  {
    var s' := Step(s, Start);
    assert Last(s') == [] && s'.content == Last(s')[0..];
    forall i | 0 <= i < |s.got|
      ensures s'.accepted[s.got[i].script] == s.accepted[s.got[i].script]
    {
    }
  }

  lemma EmptyKeepsInv(s: State, op: Op)
    requires Inv(s) && (op.Stop? || op.Clear?)
    ensures Inv(Step(s, op))
  {
    assert Last(s)[|Last(s)|..] == [];
  }

  lemma StepKeepsInv(s: State, op: Op)
    requires Inv(s)
    ensures Inv(Step(s, op))
    // Bytes are handed out only while a script is active.
    ensures Step(s, op).got != s.got ==> s.active && op.Read?
  {
    match op
    case Push(data) => if s.active { PushKeepsInv(s, data); }
    case Read(max) => ReadKeepsInv(s, max);
    case Start => StartKeepsInv(s);
    case _ => EmptyKeepsInv(s, op);
  }

  ghost function Run(s: State, ops: seq<Op>): (s': State)
    requires Inv(s)
    ensures Inv(s')
    decreases |ops|
  {
    if ops == [] then s
    else
      StepKeepsInv(s, ops[0]);
      Run(Step(s, ops[0]), ops[1..])
  }

  lemma RunStep(s: State, op: Op, rest: seq<Op>)
    requires Inv(s)
    ensures Inv(Step(s, op)) && Run(s, [op] + rest) == Run(Step(s, op), rest)
  {
    StepKeepsInv(s, op);
    assert ([op] + rest)[1..] == rest;
  }

  // Main result, for every sequence of calls: with no script active the FIFO is empty,
  // and every byte a script reads was pushed while that script was active, in order
  // and once.
  lemma ScriptsReadTheirOwnInput(ops: seq<Op>)
    ensures var s := Run(INITIAL, ops);
            (!s.active ==> s.content == []) && FromOwnScript(s) && InOrderOnce(s)
  {
    assert Inv(INITIAL);
  }

  ghost function Values(got: seq<ReadByte>): (r: seq<byte>)
    ensures |r| == |got|
    ensures forall i :: 0 <= i < |r| ==> r[i] == got[i].value
  {
    seq(|got|, i requires 0 <= i < |got| => got[i].value)
  }

  lemma StepLosesNothing(s: State, op: Op)
    requires Inv(s) && s.active && (op.Push? || op.Read?)
    ensures var s' := Step(s, op);
            s'.active && Last(s) <= Last(s') && s.next <= s'.next <= |Last(s')|
            && Values(s'.got) == Values(s.got) + Last(s')[s.next..s'.next]
  {
  }

  lemma Chain(v: seq<byte>, l1: seq<byte>, l2: seq<byte>, a: nat, b: nat, c: nat)
    requires l1 <= l2 && a <= b <= |l1| && b <= c <= |l2|
    ensures v + l1[a..b] + l2[b..c] == v + l2[a..c]
  {
    assert l1[a..b] + l2[b..c] == l2[a..c];
  }

  // While one script stays active and nothing clears, what it has read is exactly what
  // was queued at first and then accepted, up to what is still queued (Inv: content is
  // the rest).
  lemma {:induction false} NothingLostWithoutClear(s: State, ops: seq<Op>)
    requires Inv(s) && s.active
    requires forall i :: 0 <= i < |ops| ==> ops[i].Push? || ops[i].Read?
    ensures var s' := Run(s, ops);
            Last(s) <= Last(s') && s.next <= s'.next <= |Last(s')|
            && Values(s'.got) == Values(s.got) + Last(s')[s.next..s'.next]
            && s'.content == Last(s')[s'.next..]
    decreases |ops|
  {
    if ops != [] {
      StepKeepsInv(s, ops[0]);
      StepLosesNothing(s, ops[0]);
      var s1 := Step(s, ops[0]);
      NothingLostWithoutClear(s1, ops[1..]);
      var s' := Run(s1, ops[1..]);
      Chain(Values(s.got), Last(s1), Last(s'), s.next, s1.next, s'.next);
    }
  }
}
