// mphalport.c: the interpreter thread blocked in a stdin read, the threads that push
// input or interrupt it, and the eventfd doorbell between them. Each locked section,
// each read or write of the pending exception and each eventfd call is one step;
// a schedule is any sequence of steps of any number of threads.
module Doorbell {
  import opened Common

  // mp_hal_stdin_rx_chr with mp_event_wait_indefinite: read the FIFO; if it was empty,
  // raise a pending exception; then wait for the doorbell and start again.
  datatype Interp =
    | Running     // in other code of the script, or between scripts
    | AtRead      // about to call stdin_read_available
    | FoundEmpty  // it returned 0; about to handle pending
    | Waiting     // in ppoll
    | Woken       // ppoll returned; about to read the eventfd
    | GotByte     // the read returned a byte
    | Raised      // KeyboardInterrupt left the read

  // Another thread that has changed the state and not yet rung.
  datatype InFlight =
    | Pushed              // stdin_push: unlocked, about to ring
    | SetPending          // nativeInterrupt: about to clear stdin
    | ClearedStdin        // nativeInterrupt: about to ring

  // fifo: bytes queued. rings: the eventfd counter.
  datatype State = State(fifo: nat, pending: bool, active: bool, rings: nat, interp: Interp, others: map<nat, InFlight>)

  const FIFO_SIZE: nat := 64 * 1024
  const MAX_RINGS: nat := 0xFFFF_FFFF_FFFF_FFFE   // a write beyond it fails with EAGAIN

  datatype Move =
    | StartRead
    | InterpStep
    | Resume                          // after GotByte or Raised
    | PollPending                     // the VM loop, or any other handle_pending
    | OtherWait                       // sleep and friends also empty the eventfd
    | ForgetPending                   // nativeExec, before a script
    | ScriptActive(active: bool)      // nativeExec, before and after a script
    | Push(id: nat, n: nat)
    | Interrupt(id: nat)
    | OtherStep(id: nat)

  const INITIAL := State(0, false, false, 0, Running, map[])

  function Rung(rings: nat): nat {
    if rings < MAX_RINGS then rings + 1 else rings
  }

  function StepInterp(s: State): State {
    match s.interp
    case Running => s
    case AtRead => if s.fifo > 0 then s.(fifo := s.fifo - 1, interp := GotByte) else s.(interp := FoundEmpty)
    case FoundEmpty => if s.pending then s.(pending := false, interp := Raised) else s.(interp := Waiting)
    case Waiting => if s.rings > 0 then s.(interp := Woken) else s   // else blocked
    case Woken => s.(rings := 0, interp := AtRead)
    case GotByte => s
    case Raised => s
  }

  function StepOther(s: State, id: nat): State {
    if id !in s.others then s
    else
      match s.others[id]
      case Pushed => s.(rings := Rung(s.rings), others := s.others - {id})
      case SetPending => s.(fifo := 0, others := s.others[id := ClearedStdin])
      case ClearedStdin => s.(rings := Rung(s.rings), others := s.others - {id})
  }

  function Step(s: State, m: Move): State {
    match m
    case InterpStep => StepInterp(s)
    case Push(id, n) =>
      if id in s.others || !s.active then s
      else s.(fifo := if s.fifo >= FIFO_SIZE then s.fifo else s.fifo + Min(n, FIFO_SIZE - s.fifo),
              others := s.others[id := Pushed])
    case Interrupt(id) =>
      if id in s.others then s else s.(pending := true, others := s.others[id := SetPending])
    case OtherStep(id) => StepOther(s, id)
    case Resume => if s.interp.GotByte? || s.interp.Raised? then s.(interp := Running) else s
    // The rest happens only while the interpreter is outside the read.
    case StartRead => if s.interp.Running? then s.(interp := AtRead) else s
    case PollPending => if s.interp.Running? then s.(pending := false) else s
    case OtherWait => if s.interp.Running? then s.(rings := 0) else s
    case ForgetPending => if s.interp.Running? then s.(pending := false) else s
    case ScriptActive(active) => if s.interp.Running? then s.(active := active, fifo := 0) else s
  }

  // Some other thread is between its change and its ring.
  ghost predicate SomeInFlight(s: State) {
    exists id :: id in s.others
  }

  predicate WorkToDo(s: State) {
    s.fifo > 0 || s.pending
  }

  // The doorbell was rung and not heard, or is about to be rung.
  ghost predicate RingComes(s: State) {
    s.rings > 0 || SomeInFlight(s)
  }

  ghost predicate Inv(s: State) {
    && s.fifo <= FIFO_SIZE && s.rings <= MAX_RINGS && (!s.active ==> s.fifo == 0)
    && (s.interp.FoundEmpty? && s.fifo > 0 ==> RingComes(s))
    && (s.interp.Waiting? && WorkToDo(s) ==> RingComes(s))
  }

  lemma StepKeepsInv(s: State, m: Move)
    requires Inv(s)
    ensures Inv(Step(s, m))
  {
    var s' := Step(s, m);
    if m.Push? || m.Interrupt? {
      assert m.id in s'.others || s' == s;
    } else if m.OtherStep? && m.id in s.others {
      assert m.id in s'.others || s'.rings > 0;
    }
  }

  function Run(s: State, moves: seq<Move>): State
    decreases |moves|
  {
    if moves == [] then s else Run(Step(s, moves[0]), moves[1..])
  }

  lemma {:induction false} RunKeepsInv(s: State, moves: seq<Move>)
    requires Inv(s)
    ensures Inv(Run(s, moves))
    decreases |moves|
  {
    if moves != [] {
      StepKeepsInv(s, moves[0]);
      RunKeepsInv(Step(s, moves[0]), moves[1..]);
    }
  }

  predicate Asleep(s: State) {
    s.interp.Waiting? && s.rings == 0
  }

  // Main result, for every schedule: the interpreter never sleeps over queued input or
  // a pending Interrupt, unless a thread that changed them has yet to ring.
  lemma NoLostWakeUp(moves: seq<Move>)
    ensures var s := Run(INITIAL, moves);
            Asleep(s) && WorkToDo(s) ==> SomeInFlight(s)
  {
    RunKeepsInv(INITIAL, moves);
  }

  predicate InRead(i: Interp) {
    i.AtRead? || i.FoundEmpty? || i.Waiting? || i.Woken?
  }

  // What a read that ends has done: one byte is taken, or the pending exception is raised.
  predicate Answered(s: State, s': State) {
    || (s'.interp.GotByte? && s'.fifo + 1 == s.fifo && s'.pending == s.pending)
    || (s'.interp.Raised? && s.pending && !s'.pending && s'.fifo == s.fifo)
  }

  // Whatever happens, a read goes on until it is answered, and sleeps on without a ring.
  lemma ReadGoesOn(s: State, m: Move)
    requires InRead(s.interp)
    ensures InRead(Step(s, m).interp) || Answered(s, Step(s, m))
    ensures Asleep(s) ==> Step(s, m).interp.Waiting?
  {
  }

  // What goes on outside the read: the next one may begin, another wait may take the ring,
  // a script may end or start, and the VM or nativeExec may handle the exception.
  lemma OutsideTheRead(s: State, active: bool)
    requires s.interp.GotByte? || s.interp.Raised?
    ensures var s1 := Step(s, Resume);
            && s1 == s.(interp := Running) && Step(s1, StartRead) == s.(interp := AtRead)
            && Step(s1, OtherWait) == s1.(rings := 0)
            && Step(s1, PollPending) == Step(s1, ForgetPending) == s1.(pending := false)
            && Step(s1, ScriptActive(active)) == s1.(active := active, fifo := 0)
  {
  }

  // The interpreter running alone for n steps.
  function Alone(s: State, n: nat): State
    decreases n
  {
    if n == 0 then s else Alone(Step(s, InterpStep), n - 1)
  }

  lemma {:induction false} AloneAnswers(s: State, n: nat)
    requires Inv(s) && !SomeInFlight(s) && WorkToDo(s)
    requires match s.interp {
               case AtRead => n == if s.fifo > 0 then 1 else 2
               case FoundEmpty => n == if s.pending then 1 else 4
               case Waiting => n == if s.fifo > 0 then 3 else 4
               case Woken => n == if s.fifo > 0 then 2 else 3
               case _ => false
             }
    ensures Answered(s, Alone(s, n))
    decreases n
  {
    if n > 1 {
      StepKeepsInv(s, InterpStep);
      AloneAnswers(Step(s, InterpStep), n - 1);
    } else {
      assert Alone(s, 1) == Alone(Step(s, InterpStep), 0);
    }
  }

  // So a read always ends: once the other threads have finished their calls, the
  // interpreter by itself returns a byte or raises within 4 steps, whether it was in a
  // read already or begins one now.
  lemma WakesUpAlone(moves: seq<Move>)
    ensures var s := Step(Step(Run(INITIAL, moves), Resume), StartRead);
            !SomeInFlight(s) && WorkToDo(s) ==> exists n: nat :: n <= 4 && Answered(s, Alone(s, n))
  {
    RunKeepsInv(INITIAL, moves);
    var s1 := Step(Run(INITIAL, moves), Resume);
    StepKeepsInv(Run(INITIAL, moves), Resume);
    StepKeepsInv(s1, StartRead);
    var s := Step(s1, StartRead);
    if !SomeInFlight(s) && WorkToDo(s) {
      var n :=
        match s.interp {
          case AtRead => if s.fifo > 0 then 1 else 2
          case FoundEmpty => if s.pending then 1 else 4
          case Waiting => if s.fifo > 0 then 3 else 4
          case Woken => if s.fifo > 0 then 2 else 3
          case _ => 0
        };
      AloneAnswers(s, n);
    }
  }

  // A stale ring costs one extra pass of the loop and is then gone.
  lemma StaleRing(s: State)
    requires s.interp.Waiting? && s.rings > 0 && !WorkToDo(s)
    ensures Alone(s, 4) == s.(rings := 0) && Asleep(Alone(s, 4))
  {
    var s1 := StepInterp(s);
    var s2 := StepInterp(s1);
    var s3 := StepInterp(s2);
    assert Alone(s, 4) == Alone(s1, 3) == Alone(s2, 2) == Alone(s3, 1) == StepInterp(s3);
  }

  // ---- every call that gives work rings ----

  // How many steps another thread has left in its call.
  function Left(i: InFlight): nat {
    match i case Pushed => 1 case SetPending => 2 case ClearedStdin => 1
  }

  predicate NoBytes(s: State, moves: seq<Move>, k: nat)
    requires k <= |moves|
  {
    Run(s, moves[..k]).fifo == 0
  }

  lemma RunFirst(s: State, moves: seq<Move>, k: nat)
    requires 0 < k <= |moves|
    ensures Run(s, moves[..k]) == Run(Step(s, moves[0]), moves[1..][..k - 1])
  {
    assert moves[..k][1..] == moves[1..][..k - 1];
  }

  lemma CountRest(moves: seq<Move>, m: Move)
    requires moves != []
    ensures multiset(moves)[m] == multiset(moves[1..])[m] + if moves[0] == m then 1 else 0
  {
    assert moves == [moves[0]] + moves[1..];
  }

  // Whatever the scheduler does, a call that changes what there is to do ends with its
  // ring, within its own steps; an Interrupt empties the FIFO before it.
  lemma {:induction false} CallRings(s: State, id: nat, moves: seq<Move>) returns (j: nat, k: nat)
    requires id in s.others && multiset(moves)[OtherStep(id)] >= Left(s.others[id])
    ensures j <= k <= |moves| && k > 0
    ensures id !in Run(s, moves[..k]).others && Run(s, moves[..k]).rings > 0
    ensures s.others[id].SetPending? ==> NoBytes(s, moves, j)
    decreases |moves|
  {
    CountRest(moves, OtherStep(id));
    var s1 := Step(s, moves[0]);
    if id in s1.others {
      j, k := CallRings(s1, id, moves[1..]);
      k := k + 1;
      RunFirst(s, moves, k);
      j := if s.others[id].SetPending? && moves[0] == OtherStep(id) then 1 else j + 1;
      RunFirst(s, moves, j);
      assert moves[1..][..0] == [];
    } else {
      j, k := 0, 1;
      RunFirst(s, moves, 1);
      assert moves[1..][..0] == [];
    }
  }

  // So every push to an active script and every Interrupt, in any state, has done its work
  // and rung after one and two steps of its own.
  lemma RingsInTime(s: State, m: Move, moves: seq<Move>) returns (j: nat, k: nat)
    requires ((m.Push? && s.active) || m.Interrupt?) && m.id !in s.others
    requires multiset(moves)[OtherStep(m.id)] >= if m.Push? then 1 else 2
    ensures j <= k <= |moves|
    ensures var s1 := Step(s, m);
            && m.id !in Run(s1, moves[..k]).others && Run(s1, moves[..k]).rings > 0
            && (m.Interrupt? ==> s1.pending && NoBytes(s1, moves, j))
            && (m.Push? && s.fifo <= FIFO_SIZE ==> s1.fifo == Min(s.fifo + m.n, FIFO_SIZE))
  {
    j, k := CallRings(Step(s, m), m.id, moves);
  }
}
