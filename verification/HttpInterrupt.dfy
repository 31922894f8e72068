// The Interrupt handshake of the http module: HttpShim.kt's volatile active and
// cancelled, http_module.cpp's begin_call and error path, and nativeInterrupt. Every
// volatile access and every access to the pending exception is one step; a schedule
// is any sequence of steps of the interpreter and any number of interrupters.
module HttpInterrupt {
  import opened Common

  datatype Interp =
    | Idle                    // no script
    | Running                 // in the VM
    | Begun(call: nat)        // begin() cleared the flag; about to handle pending
    | Checked(call: nat)      // nothing was pending; about to publish the call
    | Published(call: nat)    // active = call done; about to read cancelled
    | SelfCancel(call: nat)   // cancelled was set; about to cancel the call
    | Executing(call: nat)    // blocked in the call
    | Ended(call: nat, ok: bool)   // about to set active = null
    | Failing(call: nat)      // raise_http_error_free; about to handle pending

  // nativeInterrupt, after mp_sched_keyboard_interrupt.
  datatype Stage =
    | SetPending                  // about to set cancelled
    | SetCancelled                // about to read active
    | ReadActive(seen: Option<nat>)   // about to cancel the call it saw
    | Finished

  // What became of an Interrupt.
  datatype Fate = Outstanding | KeyboardInterrupt | Forgotten

  // sent: how many scripts had started when it set the pending exception.
  datatype Interrupter = Interrupter(stage: Stage, fate: Fate, sent: nat)

  // nextCall: how many http functions have begun. scripts: scripts started so far.
  // intr: every Interrupt sent so far, by its thread.
  datatype State = State(
    pending: bool, cancelled: bool, active: Option<nat>, cancelledCalls: set<nat>, nextCall: nat,
    interp: Interp, scripts: nat, osErrors: nat, intr: map<nat, Interrupter>)

  const INITIAL := State(false, false, None, {}, 0, Idle, 0, 0, map[])

  datatype Move =
    | StartScript
    | EndScript
    | PollPending              // the VM loop between bytecodes
    | StartCall                // begin()
    | AbandonCall              // parse_options raises
    | BadArgument              // request() or toMediaType() throws before the call is published
    | InterpStep
    | CallEnds(ok: bool)       // the call returns, by itself or because it was cancelled
    | SendInterrupt(id: nat)
    | InterrupterStep(id: nat)

  // Every outstanding Interrupt becomes f.
  function Settle(intr: map<nat, Interrupter>, f: Fate): map<nat, Interrupter> {
    map id | id in intr :: if intr[id].fate.Outstanding? then intr[id].(fate := f) else intr[id]
  }

  // mp_handle_pending raises; control returns to the VM.
  function Raise(s: State): State {
    s.(pending := false, interp := Running, intr := Settle(s.intr, KeyboardInterrupt))
  }

  function StepInterp(s: State): State {
    match s.interp
    case Begun(c) => if s.pending then Raise(s) else s.(interp := Checked(c))
    case Checked(c) => s.(active := Some(c), interp := Published(c))
    case Published(c) => if s.cancelled then s.(interp := SelfCancel(c)) else s.(interp := Executing(c))
    case SelfCancel(c) => s.(cancelledCalls := s.cancelledCalls + {c}, interp := Executing(c))
    case Ended(c, ok) => s.(active := None, interp := if ok then Running else Failing(c))
    case Failing(_) => if s.pending then Raise(s) else s.(osErrors := s.osErrors + 1, interp := Running)
    case _ => s
  }

  function StepInterrupter(s: State, id: nat): State {
    if id !in s.intr then s
    else
      var i := s.intr[id];
      match i.stage
      case SetPending => s.(cancelled := true, intr := s.intr[id := i.(stage := SetCancelled)])
      case SetCancelled => s.(intr := s.intr[id := i.(stage := ReadActive(s.active))])
      case ReadActive(seen) =>
        s.(cancelledCalls := if seen.Some? then s.cancelledCalls + {seen.value} else s.cancelledCalls,
           intr := s.intr[id := i.(stage := Finished)])
      case Finished => s
  }

  function Step(s: State, m: Move): State {
    match m
    case StartScript =>
      if s.interp.Idle? then
        s.(interp := Running, scripts := s.scripts + 1, pending := false, intr := Settle(s.intr, Forgotten))
      else s
    case EndScript => if s.interp.Running? then s.(interp := Idle) else s
    case PollPending => if s.interp.Running? && s.pending then Raise(s) else s
    case StartCall =>
      if s.interp.Running? then s.(cancelled := false, nextCall := s.nextCall + 1, interp := Begun(s.nextCall))
      else s
    case AbandonCall => if s.interp.Checked? then s.(interp := Running) else s
    case BadArgument => if s.interp.Checked? then s.(interp := Failing(s.interp.call)) else s
    case InterpStep => StepInterp(s)
    case CallEnds(ok) => if s.interp.Executing? then s.(interp := Ended(s.interp.call, ok)) else s
    case SendInterrupt(id) =>
      if id in s.intr then s
      else s.(pending := true, intr := s.intr[id := Interrupter(SetPending, Outstanding, s.scripts)])
    case InterrupterStep(id) => StepInterrupter(s, id)
  }

  // What an Interrupt relies on while it is outstanding, by how far its thread has come.
  ghost predicate Reaches(s: State, i: Interrupter) {
    i.fate.Outstanding? ==>
      && s.pending
      && (!i.stage.SetPending? && (s.interp.Checked? || s.interp.Published?) ==> s.cancelled)
      && (i.stage.ReadActive? && s.interp.Executing? ==>
            i.stage.seen == Some(s.interp.call) || s.interp.call in s.cancelledCalls)
      && (i.stage.Finished? && s.interp.Executing? ==> s.interp.call in s.cancelledCalls)
  }

  ghost predicate Inv(s: State) {
    && (s.interp.Published? || s.interp.SelfCancel? || s.interp.Executing? ==> s.active == Some(s.interp.call))
    && forall id :: id in s.intr ==>
         Reaches(s, s.intr[id]) && s.intr[id].sent <= s.scripts
         && (s.intr[id].fate.Forgotten? ==> s.intr[id].sent < s.scripts)
  }

  lemma InterpKeepsInv(s: State)
    requires Inv(s)
    ensures Inv(StepInterp(s))
  {
  }

  lemma InterrupterKeepsInv(s: State, id: nat)
    requires Inv(s)
    ensures Inv(StepInterrupter(s, id))
  {
  }

  lemma StepKeepsInv(s: State, m: Move)
    requires Inv(s)
    ensures Inv(Step(s, m))
  {
    match m
    case InterpStep => InterpKeepsInv(s);
    case InterrupterStep(id) => InterrupterKeepsInv(s, id);
    case _ =>
  }

  function Run(s: State, moves: seq<Move>): State
    decreases |moves|
  {
    if moves == [] then s else Run(Step(s, moves[0]), moves[1..])
  }

  lemma {:induction false} RunKeepsInv(s: State, moves: seq<Move>)
    requires Inv(s)
    ensures Inv(Run(s, moves))
    decreases |moves|
  {
    if moves != [] {
      StepKeepsInv(s, moves[0]);
      RunKeepsInv(Step(s, moves[0]), moves[1..]);
    }
  }

  ghost predicate SomeOutstanding(s: State) {
    exists id :: id in s.intr && s.intr[id].fate.Outstanding?
  }

  lemma StepKeepsSender(s: State, m: Move)
    requires s.pending ==> SomeOutstanding(s)
    ensures Step(s, m).pending ==> SomeOutstanding(Step(s, m))
  {
    var s' := Step(s, m);
    if s'.pending {
      if m.SendInterrupt? && m.id !in s.intr {
        assert s'.intr[m.id].fate.Outstanding?;
      } else {
        var id :| id in s.intr && s.intr[id].fate.Outstanding?;
        assert id in s'.intr && s'.intr[id].fate.Outstanding?;
      }
    }
  }

  lemma {:induction false} RunKeepsSender(s: State, moves: seq<Move>)
    requires s.pending ==> SomeOutstanding(s)
    ensures Run(s, moves).pending ==> SomeOutstanding(Run(s, moves))
    decreases |moves|
  {
    if moves != [] {
      StepKeepsSender(s, moves[0]);
      RunKeepsSender(Step(s, moves[0]), moves[1..]);
    }
  }

  // The one flag stands for all Interrupts: in every schedule it is set exactly while
  // some Interrupt is outstanding, none forgotten and none made up.
  lemma PendingIff(moves: seq<Move>)
    ensures var s := Run(INITIAL, moves);
            s.pending <==> SomeOutstanding(s)
  {
    RunKeepsInv(INITIAL, moves);
    RunKeepsSender(INITIAL, moves);
    var s := Run(INITIAL, moves);
    assert forall id :: id in s.intr && s.intr[id].fate.Outstanding? ==> Reaches(s, s.intr[id]);
  }

  // Main result, for every schedule. An Interrupt whose thread has finished was turned
  // into KeyboardInterrupt, or was sent before the start of a later script, or is still
  // pending and any call in or about to enter execute is cancelled: the flag that the
  // call reads after it is published is set, or the call itself is cancelled.
  lemma NoLostInterrupt(moves: seq<Move>, id: nat)
    ensures var s := Run(INITIAL, moves);
            id in s.intr && s.intr[id].stage.Finished? ==>
              || s.intr[id].fate.KeyboardInterrupt?
              || (s.intr[id].fate.Forgotten? && s.intr[id].sent < s.scripts)
              || (&& s.pending
                  && (s.interp.Checked? || s.interp.Published? ==> s.cancelled)
                  && (s.interp.Executing? ==> s.interp.call in s.cancelledCalls))
  {
    RunKeepsInv(INITIAL, moves);
  }

  // The interpreter alone: a blocked call returns only when it is cancelled.
  function Alone(s: State, n: nat): State
    decreases n
  {
    if n == 0 then s
    else if s.interp.Running? then Alone(Step(s, PollPending), n - 1)
    else if s.interp.Executing? then
      Alone(if s.interp.call in s.cancelledCalls then Step(s, CallEnds(false)) else s, n - 1)
    else Alone(Step(s, InterpStep), n - 1)
  }

  // So an Interrupt ends the call with KeyboardInterrupt: within 6 steps of the
  // interpreter after the interrupter has finished, wherever the script was.
  lemma InterruptEndsTheCall(s: State, id: nat)
    requires Inv(s) && id in s.intr && s.intr[id].fate.Outstanding? && s.intr[id].stage.Finished? && !s.interp.Idle?
    ensures exists n: nat :: n <= 6 && id in Alone(s, n).intr && Alone(s, n).intr[id].fate.KeyboardInterrupt?
  {
    assert Reaches(s, s.intr[id]);
    var steps :=
      match s.interp
      case Running => 1 case Begun(_) => 1 case Checked(_) => 6 case Published(_) => 5
      case SelfCancel(_) => 4 case Executing(_) => 3
      case Ended(_, _) => 2 case Failing(_) => 1 case Idle => 0;
    AloneRaises(s, id, steps);
  }

  lemma {:induction false} AloneRaises(s: State, id: nat, n: nat)
    requires Inv(s) && id in s.intr && s.intr[id].fate.Outstanding? && s.intr[id].stage.Finished?
    requires match s.interp {
               case Running => n == 1 case Begun(_) => n == 1 case Checked(_) => n == 6 case Published(_) => n == 5
               case SelfCancel(_) => n == 4 case Executing(_) => n == 3
               case Ended(_, _) => n == 2 case Failing(_) => n == 1 case Idle => false
             }
    ensures id in Alone(s, n).intr && Alone(s, n).intr[id].fate.KeyboardInterrupt?
    decreases n
  {
    assert Reaches(s, s.intr[id]);
    if n > 1 {
      if s.interp.Executing? {
        var s1 := Step(s, CallEnds(false));
        StepKeepsInv(s, CallEnds(false));
        AloneRaises(s1, id, n - 1);
      } else {
        InterpKeepsInv(s);
        AloneRaises(StepInterp(s), id, n - 1);
      }
    }
  }

  // ---- when an Interrupt that is over cancels a later call ----

  // Every call that anyone knows has begun.
  ghost predicate Older(s: State) {
    && (s.active.Some? ==> s.active.value < s.nextCall)
    && (forall c :: c in s.cancelledCalls ==> c < s.nextCall)
    && (InCall(s.interp) ==> s.interp.call < s.nextCall)
    && forall id :: id in s.intr && s.intr[id].stage.ReadActive? && s.intr[id].stage.seen.Some? ==>
         s.intr[id].stage.seen.value < s.nextCall
  }

  predicate InCall(i: Interp) {
    !i.Idle? && !i.Running?
  }

  lemma StepKeepsOlder(s: State, m: Move)
    requires Older(s)
    ensures Older(Step(s, m)) && Step(s, m).nextCall >= s.nextCall
  {
    match m
    case InterpStep => InterpKeepsOlder(s);
    case InterrupterStep(id) => InterrupterKeepsOlder(s, id);
    case _ =>
  }

  lemma InterpKeepsOlder(s: State)
    requires Older(s)
    ensures Older(StepInterp(s)) && StepInterp(s).nextCall == s.nextCall
  {
  }

  lemma InterrupterKeepsOlder(s: State, id: nat)
    requires Older(s)
    ensures Older(StepInterrupter(s, id)) && StepInterrupter(s, id).nextCall == s.nextCall
  {
  }

  lemma {:induction false} RunKeepsOlder(s: State, moves: seq<Move>)
    requires Older(s)
    ensures Older(Run(s, moves))
    decreases |moves|
  {
    if moves != [] {
      StepKeepsOlder(s, moves[0]);
      RunKeepsOlder(Step(s, moves[0]), moves[1..]);
    }
  }

  predicate PastRead(i: Interrupter) {
    i.stage.ReadActive? || i.stage.Finished?
  }

  // While call c is under way: no settled Interrupt can reach it any more, and what
  // cancels it leaves the exception pending.
  ghost predicate OnlyPendingCancels(s: State, c: nat) {
    InCall(s.interp) && s.interp.call == c && !(s.interp.Begun? && s.pending) ==>
      && (forall id :: id in s.intr && !s.intr[id].fate.Outstanding? ==>
            PastRead(s.intr[id]) && s.intr[id].stage != ReadActive(Some(c)))
      && (s.cancelled || s.interp.SelfCancel? || c in s.cancelledCalls ==> s.pending)
  }

  lemma StepKeepsOnlyPendingCancels(s: State, m: Move, c: nat)
    requires Inv(s) && OnlyPendingCancels(s, c) && c < s.nextCall
    ensures OnlyPendingCancels(Step(s, m), c)
  {
    if m.InterrupterStep? && m.id in s.intr {
      assert Reaches(s, s.intr[m.id]);
    }
  }

  lemma {:induction false} RunKeepsOnlyPendingCancels(s: State, moves: seq<Move>, c: nat)
    requires Inv(s) && OnlyPendingCancels(s, c) && c < s.nextCall
    ensures OnlyPendingCancels(Run(s, moves), c)
    decreases |moves|
  {
    if moves != [] {
      StepKeepsInv(s, moves[0]);
      StepKeepsOnlyPendingCancels(s, moves[0], c);
      RunKeepsOnlyPendingCancels(Step(s, moves[0]), moves[1..], c);
    }
  }

  // If call c was cancelled and its failure is about to be raised, the script gets
  // KeyboardInterrupt.
  ghost predicate CancelRaises(s: State, c: nat) {
    s.interp == Failing(c) && c in s.cancelledCalls ==>
      StepInterp(s).osErrors == s.osErrors && StepInterp(s).interp == Running
  }

  lemma NothingElseCancels(s: State, rest: seq<Move>)
    requires Inv(s) && Older(s) && s.interp.Running?
    requires s.pending || forall id :: id in s.intr ==> PastRead(s.intr[id])
    ensures CancelRaises(Run(Step(s, StartCall), rest), s.nextCall)
  {
    var s1 := Step(s, StartCall);
    StepKeepsInv(s, StartCall);
    RunKeepsOnlyPendingCancels(s1, rest, s.nextCall);
  }

  lemma RunStep(s: State, m: Move, rest: seq<Move>)
    ensures Run(s, [m] + rest) == Run(Step(s, m), rest)
  {
    assert ([m] + rest)[1..] == rest;
  }

  lemma FourSteps(s: State, a: Move, b: Move, c: Move, d: Move, rest: seq<Move>) returns (s': State)
    ensures s' == Step(Step(Step(Step(s, a), b), c), d)
    ensures Run(s, [a, b, c, d] + rest) == Run(s', rest)
  {
    var s1 := Step(s, a);
    RunStep(s, a, [b, c, d] + rest);
    var s2 := Step(s1, b);
    RunStep(s1, b, [c, d] + rest);
    var s3 := Step(s2, c);
    RunStep(s2, c, [d] + rest);
    RunStep(s3, d, rest);
    s' := Step(s3, d);
    assert [a, b, c, d] + rest == [a] + ([b, c, d] + rest);
    assert [b, c, d] + rest == [b] + ([c, d] + rest);
    assert [c, d] + rest == [c] + ([d] + rest);
  }

  lemma ThreeSteps(s: State, a: Move, b: Move, c: Move) returns (s': State)
    ensures s' == Step(Step(Step(s, a), b), c) == Run(s, [a, b, c])
  {
    RunStep(s, a, [b, c]);
    RunStep(Step(s, a), b, [c]);
    RunStep(Step(Step(s, a), b), c, []);
    assert [a, b, c] == [a] + [b, c] && [b, c] == [b] + [c] && [c] == [c] + [];
    s' := Step(Step(Step(s, a), b), c);
  }

  // ---- every Interrupt and every call gets on ----

  function StepsLeft(stage: Stage): nat {
    match stage case SetPending => 3 case SetCancelled => 2 case ReadActive(_) => 1 case Finished => 0
  }

  lemma CountRest(moves: seq<Move>, m: Move)
    requires moves != []
    ensures multiset(moves)[m] == multiset(moves[1..])[m] + if moves[0] == m then 1 else 0
  {
    assert moves == [moves[0]] + moves[1..];
  }

  lemma {:induction false} GoesOn(s: State, id: nat, moves: seq<Move>)
    requires id in s.intr && multiset(moves)[InterrupterStep(id)] >= StepsLeft(s.intr[id].stage)
    ensures id in Run(s, moves).intr && Run(s, moves).intr[id].stage.Finished?
    decreases |moves|
  {
    if moves != [] {
      CountRest(moves, InterrupterStep(id));
      GoesOn(Step(s, moves[0]), id, moves[1..]);
    }
  }

  // Whatever the scheduler does, an Interrupt that is sent in any state sets the pending
  // exception at once and has finished after three more steps of its thread, so that
  // NoLostInterrupt speaks of it.
  lemma InterruptFinishes(s: State, id: nat, moves: seq<Move>)
    requires id !in s.intr && multiset(moves)[InterrupterStep(id)] >= 3
    ensures var s1 := Step(s, SendInterrupt(id));
            && s1.pending && id in s1.intr && s1.intr[id].fate.Outstanding?
            && id in Run(s1, moves).intr && Run(s1, moves).intr[id].stage.Finished?
  {
    GoesOn(Step(s, SendInterrupt(id)), id, moves);
  }

  // A call that no Interrupt disturbs runs and ends as it does by itself, whatever flags
  // the calls before it have left behind.
  lemma UndisturbedCall(s: State, ok: bool)
    requires s.interp.Running? && !s.pending
    ensures var call := [StartCall, InterpStep, InterpStep, InterpStep];
            && Run(s, call).interp == Executing(s.nextCall) && Run(s, call).active == Some(s.nextCall)
            && Run(s, call).cancelledCalls == s.cancelledCalls
            && var after := Run(Run(s, call), [CallEnds(ok), InterpStep, InterpStep]);
               && after.interp == Running && after.active == None && after.cancelledCalls == s.cancelledCalls
               && after.osErrors == s.osErrors + (if ok then 0 else 1) && after.nextCall == s.nextCall + 1
  {
    var s4 := FourSteps(s, StartCall, InterpStep, InterpStep, InterpStep, []);
    assert [StartCall, InterpStep, InterpStep, InterpStep] + [] == [StartCall, InterpStep, InterpStep, InterpStep];
    var s7 := ThreeSteps(s4, CallEnds(ok), InterpStep, InterpStep);
  }

  // A call is published as long as it can be cancelled through active, and no longer.
  ghost predicate PublishedIff(s: State) {
    s.active == if s.interp.Published? || s.interp.SelfCancel? || s.interp.Executing? || s.interp.Ended?
                then Some(s.interp.call) else None
  }

  // In every schedule only the call under way is published; and it goes on until it ends,
  // raises the pending exception, or is given up before it was published.
  lemma {:induction false} CallGoesOn(s: State, moves: seq<Move>, m: Move)
    requires PublishedIff(s)
    ensures var s' := Run(s, moves);
            && PublishedIff(s')
            && (InCall(s'.interp) && !InCall(Step(s', m).interp) ==>
                  && Step(s', m).interp.Running?
                  && match s'.interp {
                       case Ended(_, ok) => ok
                       case Checked(_) => m.AbandonCall?
                       case Begun(_) => s'.pending && !Step(s', m).pending
                       case Failing(_) =>
                         if s'.pending then !Step(s', m).pending else Step(s', m).osErrors == s'.osErrors + 1
                       case _ => false
                     })
    decreases |moves|
  {
    if moves != [] {
      CallGoesOn(Step(s, moves[0]), moves[1..], m);
    }
  }

  // A call that is refused for its arguments, after begin(), ends without being published.
  lemma RefusedCall(s: State, m: Move)
    requires s.interp.Running? && !s.pending && (m.AbandonCall? || m.BadArgument?)
    ensures var s3 := Run(s, [StartCall, InterpStep, m]);
            var s4 := if m.BadArgument? then Step(s3, InterpStep) else s3;
            && s4.interp == Running && s4.active == s.active
            && s4.osErrors == s.osErrors + if m.BadArgument? then 1 else 0
  {
    var s3 := ThreeSteps(s, StartCall, InterpStep, m);
  }

  // No Interrupt reaches from one script into the next: what is still outstanding is
  // forgotten when that one starts.
  lemma NextScript(s: State)
    requires s.interp.Running?
    ensures var s' := Step(Step(s, EndScript), StartScript);
            && s'.interp == Running && s'.scripts == s.scripts + 1 && !s'.pending && !SomeOutstanding(s')
            && forall id :: id in s.intr && !s.intr[id].fate.Outstanding? ==> id in s'.intr && s'.intr[id] == s.intr[id]
  {
  }

  // The thread of an Interrupt that the script has handled goes on: it sets the flag, or
  // reads active, once the next call is published.
  lemma LateInterrupter(s: State, id: nat) returns (rest: seq<Move>)
    requires s.interp.Running? && !s.pending && id in s.intr && !PastRead(s.intr[id])
    ensures !CancelRaises(Run(Step(s, StartCall), rest), s.nextCall)
  {
    var s1 := Step(s, StartCall);
    if s.intr[id].stage.SetPending? {
      var last := [InterpStep, CallEnds(false), InterpStep];
      rest := [InterpStep, InterpStep, InterrupterStep(id), InterpStep] + last;
      var s5 := FourSteps(s1, InterpStep, InterpStep, InterrupterStep(id), InterpStep, last);
      assert s5.interp == SelfCancel(s.nextCall) && !s5.pending;
      var s8 := ThreeSteps(s5, InterpStep, CallEnds(false), InterpStep);
    } else {
      var last := [InterrupterStep(id), CallEnds(false), InterpStep];
      rest := [InterpStep, InterpStep, InterpStep, InterrupterStep(id)] + last;
      var s5 := FourSteps(s1, InterpStep, InterpStep, InterpStep, InterrupterStep(id), last);
      assert s5.interp == Executing(s.nextCall) && !s5.pending;
      assert id in s5.intr && s5.intr[id].stage == ReadActive(Some(s.nextCall));
      var s8 := ThreeSteps(s5, InterrupterStep(id), CallEnds(false), InterpStep);
    }
  }

  // Main result, for every reachable state in which a script may begin a call. Whatever
  // happens then, a cancelled call ends in KeyboardInterrupt: exactly when some Interrupt
  // is outstanding already (so the call never starts), or every earlier Interrupt's thread
  // is past its read of active.
  lemma CancelledCallRaisesIff(moves: seq<Move>)
    requires Run(INITIAL, moves).interp.Running?
    ensures var s := Run(INITIAL, moves);
            (forall rest :: CancelRaises(Run(Step(s, StartCall), rest), s.nextCall))
            <==> SomeOutstanding(s) || forall id :: id in s.intr ==> PastRead(s.intr[id])
  {
    var s := Run(INITIAL, moves);
    PendingIff(moves);
    RunKeepsInv(INITIAL, moves);
    RunKeepsOlder(INITIAL, moves);
    if s.pending || forall id :: id in s.intr ==> PastRead(s.intr[id]) {
      forall rest ensures CancelRaises(Run(Step(s, StartCall), rest), s.nextCall) {
        NothingElseCancels(s, rest);
      }
    } else {
      var id :| id in s.intr && !PastRead(s.intr[id]);
      var rest := LateInterrupter(s, id);
      assert !CancelRaises(Run(Step(s, StartCall), rest), s.nextCall);
    }
  }

  // Such a state exists: the VM raises and the script handles the KeyboardInterrupt before
  // the interrupter's thread sets the flag.
  const HANDLED := [StartScript, SendInterrupt(0), PollPending]

  lemma HandledBeforeCancel()
    ensures var s := Run(INITIAL, HANDLED);
            s.interp.Running? && !s.pending && 0 in s.intr && s.intr[0] == Interrupter(SetPending, KeyboardInterrupt, 1)
  {
    var s := ThreeSteps(INITIAL, StartScript, SendInterrupt(0), PollPending);
    assert s.intr == map[0 := Interrupter(SetPending, KeyboardInterrupt, 1)];
  }

  // So the call that the script begins next may be cancelled and end in another error.
  lemma LateCancel() returns (rest: seq<Move>)
    ensures var s := Run(INITIAL, HANDLED);
            0 in s.intr && s.intr[0].fate.KeyboardInterrupt?
            && !CancelRaises(Run(Step(s, StartCall), rest), s.nextCall)
  {
    HandledBeforeCancel();
    rest := LateInterrupter(Run(INITIAL, HANDLED), 0);
  }
}
