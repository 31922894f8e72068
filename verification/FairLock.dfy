// mutex.c: a test-and-set lock that remembers its last owner. The load of tid, the
// test-and-set, the store of tid and the clear are one step each; a schedule is any
// sequence of steps of any number of threads, each named by its tid.
module FairLock {

  // mutex_try_lock_fair, mutex_try_lock, or mutex_lock, which repeats the test-and-set.
  datatype How = Fair | Plain | Spin

  datatype Pc =
    | Outside
    | Trying(how: How)     // about to test-and-set
    | Won                  // the flag was clear; about to store tid
    | Holding
    | Releasing            // mutex_unlock saw its own tid; about to clear the flag

  datatype Acquisition = Acquisition(tid: nat, how: How)

  // acquisitions: who won the test-and-set, in order.
  datatype State = State(tid: nat, flag: bool, pcs: map<nat, Pc>, acquisitions: seq<Acquisition>)

  // mutex_init0
  const INITIAL := State(0, false, map[], [])

  datatype Move =
    | TryLockFair(t: nat)   // its first step: the load of tid
    | TryLock(t: nat)
    | Lock(t: nat)
    | Unlock(t: nat)        // its first step: the load of tid
    | Step(t: nat)          // the next step of a call under way

  function PcOf(s: State, t: nat): Pc {
    if t in s.pcs then s.pcs[t] else Outside
  }

  function At(s: State, t: nat, pc: Pc): State {
    s.(pcs := s.pcs[t := pc])
  }

  function StepThread(s: State, t: nat): State {
    match PcOf(s, t)
    case Trying(how) =>
      if s.flag then (if how.Spin? then s else At(s, t, Outside))
      else At(s, t, Won).(flag := true, acquisitions := s.acquisitions + [Acquisition(t, how)])
    case Won => At(s, t, Holding).(tid := t)
    case Releasing => At(s, t, Outside).(flag := false)
    case _ => s
  }

  function Next(s: State, m: Move): State {
    match m
    case TryLockFair(t) => if PcOf(s, t).Outside? && s.tid != t then At(s, t, Trying(Fair)) else s
    case TryLock(t) => if PcOf(s, t).Outside? then At(s, t, Trying(Plain)) else s
    case Lock(t) => if PcOf(s, t).Outside? then At(s, t, Trying(Spin)) else s
    case Unlock(t) =>
      if (PcOf(s, t).Outside? || PcOf(s, t).Holding?) && s.tid == t then At(s, t, Releasing) else s
    case Step(t) => StepThread(s, t)
  }

  // The thread has the lock, from the test-and-set it won to the clear.
  predicate Inside(s: State, t: nat) {
    PcOf(s, t).Won? || PcOf(s, t).Holding? || PcOf(s, t).Releasing?
  }

  // A caller's discipline: unlock only what it holds.
  predicate UnlocksOwn(s: State, m: Move) {
    m.Unlock? ==> PcOf(s, m.t).Holding?
  }

  ghost predicate Schedule(s: State, moves: seq<Move>)
    decreases |moves|
  {
    moves == [] || (UnlocksOwn(s, moves[0]) && Schedule(Next(s, moves[0]), moves[1..]))
  }

  ghost function Run(s: State, moves: seq<Move>): State
    decreases |moves|
  {
    if moves == [] then s else Run(Next(s, moves[0]), moves[1..])
  }

  ghost predicate LastWinner(s: State, t: nat) {
    s.acquisitions != [] && s.acquisitions[|s.acquisitions| - 1].tid == t
  }

  // The last thread to win the lock is the only one that may be inside.
  ghost predicate Exclusive(s: State) {
    && (forall t :: Inside(s, t) ==> s.flag && LastWinner(s, t))
    && (forall t :: PcOf(s, t).Holding? || PcOf(s, t).Releasing? ==> s.tid == t)
    && (s.flag ==> s.acquisitions != [] && Inside(s, s.acquisitions[|s.acquisitions| - 1].tid))
    && (!s.flag ==> if s.acquisitions == [] then s.tid == 0 else LastWinner(s, s.tid))
  }

  lemma NextKeepsExclusive(s: State, m: Move)
    requires Exclusive(s) && UnlocksOwn(s, m)
    ensures Exclusive(Next(s, m))
  {
    var s' := Next(s, m);
    assert forall t :: t != m.t ==> PcOf(s', t) == PcOf(s, t);
    assert forall t :: t != m.t ==> Inside(s', t) == Inside(s, t);
    assert forall t :: PcOf(s, t).Holding? || PcOf(s, t).Releasing? ==> Inside(s, t);
    assert Inside(s, m.t) ==> LastWinner(s, m.t);
  }

  // A thread past the fair check is not the last one that won.
  ghost predicate Alternating(s: State) {
    && (forall t :: PcOf(s, t) == Trying(Fair) ==> !LastWinner(s, t))
    && (forall i :: 0 <= i < |s.acquisitions| - 1 && s.acquisitions[i + 1].how.Fair? ==>
          s.acquisitions[i].tid != s.acquisitions[i + 1].tid)
  }

  lemma NextKeepsAlternating(s: State, m: Move)
    requires Exclusive(s) && Alternating(s)
    ensures Alternating(Next(s, m))
  {
    var s' := Next(s, m);
    assert forall t :: t != m.t ==> PcOf(s', t) == PcOf(s, t);
  }

  lemma {:induction false} RunKeeps(s: State, moves: seq<Move>)
    requires Exclusive(s) && Alternating(s) && Schedule(s, moves)
    ensures Exclusive(Run(s, moves)) && Alternating(Run(s, moves))
    decreases |moves|
  {
    if moves != [] {
      NextKeepsExclusive(s, moves[0]);
      NextKeepsAlternating(s, moves[0]);
      RunKeeps(Next(s, moves[0]), moves[1..]);
    }
  }

  // Main results, for every schedule in which threads unlock only what they hold, however
  // each of them locks: at most one thread is inside the lock;
  lemma AtMostOneHolder(moves: seq<Move>, t: nat, u: nat)
    requires Schedule(INITIAL, moves)
    ensures var s := Run(INITIAL, moves);
            Inside(s, t) && Inside(s, u) ==> t == u
  {
    RunKeeps(INITIAL, moves);
  }

  // and mutex_try_lock_fair never gives the lock to the thread that had it last, so two
  // acquisitions in a row by one thread happen only through one of the other two.
  lemma NeverTwiceInARow(moves: seq<Move>, i: nat)
    requires Schedule(INITIAL, moves)
    ensures var won := Run(INITIAL, moves).acquisitions;
            i + 1 < |won| && won[i].tid == won[i + 1].tid ==> !won[i + 1].how.Fair?
  {
    RunKeeps(INITIAL, moves);
  }

  // mutex_lock waits: whatever happens meanwhile, the thread goes on trying until it wins.
  lemma {:induction false} LockGoesOn(s: State, t: nat, moves: seq<Move>)
    requires PcOf(s, t) == Trying(Spin)
    ensures var s' := Run(s, moves);
            && s.acquisitions <= s'.acquisitions
            && (PcOf(s', t) == Trying(Spin) || Acquisition(t, Spin) in s'.acquisitions[|s.acquisitions|..])
    decreases |moves|
  {
    if moves != [] {
      var s1 := Next(s, moves[0]);
      assert moves[0].t != t ==> PcOf(s1, t) == PcOf(s, t);
      if PcOf(s1, t) == Trying(Spin) {
        LockGoesOn(s1, t, moves[1..]);
      } else {
        assert s1.acquisitions == s.acquisitions + [Acquisition(t, Spin)];
        AcquisitionsGrow(s1, moves[1..]);
        assert Run(s, moves).acquisitions[|s.acquisitions|] == Acquisition(t, Spin);
      }
    }
  }

  lemma {:induction false} AcquisitionsGrow(s: State, moves: seq<Move>)
    ensures s.acquisitions <= Run(s, moves).acquisitions
    decreases |moves|
  {
    if moves != [] {
      AcquisitionsGrow(Next(s, moves[0]), moves[1..]);
    }
  }

  // It returns only with the lock, and at its first test-and-set of a clear flag.
  lemma LockReturnsWithTheLock(s: State, t: nat, moves: seq<Move>)
    requires PcOf(s, t).Outside?
    ensures var s' := Run(Next(s, Lock(t)), moves);
            && s.acquisitions <= s'.acquisitions
            && (PcOf(s', t) == Trying(Spin) || Acquisition(t, Spin) in s'.acquisitions[|s.acquisitions|..])
            && (PcOf(s', t) == Trying(Spin) && !s'.flag ==> PcOf(Next(s', Step(t)), t).Won?)
  {
    LockGoesOn(Next(s, Lock(t)), t, moves);
  }

  // Nobody but the thread itself moves it on.
  lemma {:induction false} OthersLeavePc(s: State, t: nat, moves: seq<Move>)
    requires forall i :: 0 <= i < |moves| ==> moves[i].t != t
    ensures PcOf(Run(s, moves), t) == PcOf(s, t)
    decreases |moves|
  {
    if moves != [] {
      assert moves[0].t != t;
      OthersLeavePc(Next(s, moves[0]), t, moves[1..]);
    }
  }

  // In every state that a disciplined schedule reaches, whatever the others do between
  // the steps: a try_lock ends at its test-and-set, with the lock exactly when the flag is clear;
  lemma TryLockEnds(s: State, t: nat, how: How, others: seq<Move>)
    requires PcOf(s, t) == Trying(how) && !how.Spin?
    requires forall i :: 0 <= i < |others| ==> others[i].t != t
    ensures var s1 := Run(s, others);
            PcOf(Next(s1, Step(t)), t) == (if s1.flag then Outside else Won) && Next(s1, Step(t)).flag
  {
    OthersLeavePc(s, t, others);
  }

  // and the winner, of whatever kind, holds the lock at its next step, with its tid stored;
  lemma WinnerHolds(s: State, t: nat, others: seq<Move>)
    requires PcOf(s, t).Won? && forall i :: 0 <= i < |others| ==> others[i].t != t
    ensures var s' := Next(Run(s, others), Step(t));
            PcOf(s', t).Holding? && s'.tid == t
  {
    OthersLeavePc(s, t, others);
  }

  // the fair one gets that far exactly when another thread had the lock last, or none and
  // its tid is not 0;
  lemma FairTryLockIff(moves: seq<Move>, t: nat)
    requires Schedule(INITIAL, moves)
    requires var s := Run(INITIAL, moves);
             !s.flag && PcOf(s, t).Outside?
    ensures var s := Run(INITIAL, moves);
            PcOf(Next(s, TryLockFair(t)), t) == Trying(Fair)
            <==> if s.acquisitions == [] then t != 0 else !LastWinner(s, t)
  {
    RunKeeps(INITIAL, moves);
  }

  // and an unlock by the holder frees the lock at its second step.
  lemma UnlockFrees(moves: seq<Move>, t: nat, others: seq<Move>)
    requires Schedule(INITIAL, moves) && PcOf(Run(INITIAL, moves), t).Holding?
    requires Schedule(Next(Run(INITIAL, moves), Unlock(t)), others)
    requires forall i :: 0 <= i < |others| ==> others[i].t != t
    ensures var s := Run(Next(Run(INITIAL, moves), Unlock(t)), others);
            s.flag && !Next(s, Step(t)).flag && PcOf(Next(s, Step(t)), t).Outside?
  {
    RunKeeps(INITIAL, moves);
    var s := Run(INITIAL, moves);
    NextKeepsExclusive(s, Unlock(t));
    NextKeepsAlternating(s, Unlock(t));
    var s1 := Next(s, Unlock(t));
    RunKeeps(s1, others);
    OthersLeavePc(s1, t, others);
    assert Inside(Run(s1, others), t);
  }

  // ---- both disciplines are needed, in every state ----

  lemma RunOne(s: State, m: Move, rest: seq<Move>)
    ensures Run(s, [m] + rest) == Run(Next(s, m), rest)
    ensures Schedule(s, [m] + rest) <==> UnlocksOwn(s, m) && Schedule(Next(s, m), rest)
  {
    assert ([m] + rest)[1..] == rest;
  }

  lemma ThreeMoves(s: State, a: Move, b: Move, c: Move)
    requires !a.Unlock? && !b.Unlock? && !c.Unlock?
    ensures Run(s, [a, b, c]) == Next(Next(Next(s, a), b), c) && Schedule(s, [a, b, c])
  {
    RunOne(s, a, [b, c]);
    RunOne(Next(s, a), b, [c]);
    RunOne(Next(Next(s, a), b), c, []);
    assert [a, b, c] == [a] + [b, c] && [b, c] == [b] + [c] && [c] == [c] + [];
  }

  lemma {:induction false} RunTwoParts(s: State, a: seq<Move>, b: seq<Move>)
    ensures Run(s, a + b) == Run(Run(s, a), b)
    ensures Schedule(s, a + b) <==> Schedule(s, a) && Schedule(Run(s, a), b)
    decreases |a|
  {
    if a == [] {
      assert a + b == b;
    } else {
      RunTwoParts(Next(s, a[0]), a[1..], b);
      assert (a + b)[1..] == a[1..] + b;
    }
  }

  // Two threads can get inside, with no further unlock that breaks the discipline.
  ghost predicate TwoCanGetInside(s: State) {
    exists moves, u, v :: u != v && Schedule(s, moves) && Inside(Run(s, moves), u) && Inside(Run(s, moves), v)
  }

  lemma Bound(tids: set<nat>) returns (n: nat)
    ensures forall t :: t in tids ==> t < n
    decreases |tids|
  {
    if tids == {} {
      n := 0;
    } else {
      var t :| t in tids;
      var rest := Bound(tids - {t});
      n := if t < rest then rest else t + 1;
      assert forall x :: x in tids ==> x == t || x in tids - {t};
    }
  }

  // Some thread that has never come near the lock.
  lemma Stranger(pcs: map<nat, Pc>, a: nat, b: nat) returns (u: nat)
    ensures u !in pcs && u != a && u != b
  {
    u := Bound(pcs.Keys + {a, b});
    assert a in pcs.Keys + {a, b} && b in pcs.Keys + {a, b};
  }

  // The stray unlock has passed its tid check: another thread may get in before it clears
  // the flag, and one more after.
  lemma StrayUnlockLetsTwoIn(s: State, t: nat)
    requires Exclusive(s) && PcOf(s, t).Outside? && s.tid == t
    ensures TwoCanGetInside(Next(s, Unlock(t)))
  {
    var s1 := Next(s, Unlock(t));
    var u := Stranger(s1.pcs, t, t);
    var v := Stranger(s1.pcs, t, u);
    if s.flag {
      var w := s.acquisitions[|s.acquisitions| - 1].tid;
      assert Inside(s, w) && PcOf(s, w).Won? && PcOf(s1, w).Won?;
      SecondEntry(s1, t, v, w);
    } else {
      var first := [TryLockFair(u), Step(u), Step(t)];
      var second := [TryLockFair(v), Step(v), Step(v)];
      ThreeMoves(s1, TryLockFair(u), Step(u), Step(t));
      var s2 := Run(s1, first);
      assert PcOf(s2, u).Won? && !s2.flag && s2.tid == t;
      ThreeMoves(s2, TryLockFair(v), Step(v), Step(v));
      RunTwoParts(s1, first, second);
      var s3 := Run(s1, first + second);
      assert Inside(s3, u) && Inside(s3, v);
    }
  }

  lemma SecondEntry(s: State, t: nat, v: nat, w: nat)
    requires PcOf(s, t).Releasing? && PcOf(s, w).Won? && s.tid == t && v !in s.pcs && v != t && v != w
    ensures TwoCanGetInside(s)
  {
    var moves := [Step(t), TryLockFair(v), Step(v)];
    ThreeMoves(s, Step(t), TryLockFair(v), Step(v));
    var s' := Run(s, moves);
    assert Inside(s', v) && Inside(s', w);
  }

  // For every state that a disciplined schedule reaches: one unlock by t lets two threads
  // in, sooner or later, exactly when t is outside and the last to have stored its tid.
  lemma StrayUnlockIff(moves: seq<Move>, t: nat)
    requires Schedule(INITIAL, moves)
    ensures var s := Run(INITIAL, moves);
            TwoCanGetInside(Next(s, Unlock(t))) <==> PcOf(s, t).Outside? && s.tid == t
  {
    var s := Run(INITIAL, moves);
    RunKeeps(INITIAL, moves);
    if PcOf(s, t).Outside? && s.tid == t {
      StrayUnlockLetsTwoIn(s, t);
    } else {
      var s1 := Next(s, Unlock(t));
      assert UnlocksOwn(s, Unlock(t)) || s1 == s;
      if UnlocksOwn(s, Unlock(t)) {
        NextKeepsExclusive(s, Unlock(t));
      }
      NextKeepsAlternating(s, Unlock(t));
      forall rest, u, v | Schedule(s1, rest) && Inside(Run(s1, rest), u) && Inside(Run(s1, rest), v)
        ensures u == v
      {
        RunKeeps(s1, rest);
      }
    }
  }

  // Whenever the lock is free and t, outside, had it last, mutex_try_lock gives it to t
  // again, where mutex_try_lock_fair leaves it as it is.
  lemma PlainTryLockRepeats(moves: seq<Move>, t: nat)
    requires Schedule(INITIAL, moves)
    requires var s := Run(INITIAL, moves);
             !s.flag && LastWinner(s, t) && PcOf(s, t).Outside?
    ensures var s := Run(INITIAL, moves);
            && Next(s, TryLockFair(t)) == s
            && Next(Next(s, TryLock(t)), Step(t)).acquisitions == s.acquisitions + [Acquisition(t, Plain)]
  {
    RunKeeps(INITIAL, moves);
  }
}
