// What framebuffer.c's pool keeps over whole runs of flush, acquire and release.
module FrameBufferRuns {
  import opened FrameBufferPool

  // stale: what a swap of an empty used queue would read (see ReleasePool).
  datatype Op = Flush | Acquire(flags: Flags) | Release(flags: Flags, stale: nat)

  // Free and used together hold each buffer of the pool exactly once.
  ghost predicate Conserved(p: Pool) {
    multiset(p.free) + multiset(p.used) == multiset(Indices(p.count))
  }

  ghost function Step(p: Pool, op: Op): Pool {
    match op
    case Flush => Flushed(p.count)
    case Acquire(flags) => AcquirePool(p, flags).0
    case Release(flags, stale) => ReleasePool(p, flags, stale).0
  }

  lemma CountWithLast(s: seq<nat>, x: nat, b: nat)
    ensures multiset(s + [x])[b] == multiset(s)[b] + if x == b then 1 else 0
  {
  }

  lemma {:induction false} CountOfIndex(n: nat, b: nat)
    ensures multiset(Indices(n))[b] == if b < n then 1 else 0
  {
    if n > 0 {
      CountOfIndex(n - 1, b);
      CountWithLast(Indices(n - 1), n - 1, b);
    }
  }

  lemma ConservedSizes(p: Pool)
    requires Conserved(p)
    ensures |p.free| + |p.used| == p.count
  {
    assert |multiset(p.free) + multiset(p.used)| == |p.free| + |p.used|;
    assert |multiset(Indices(p.count))| == p.count;
  }

  // Every queued buffer is one of the pool, queued nowhere else.
  lemma ConservedDistinct(p: Pool, b: nat)
    requires Conserved(p)
    ensures multiset(p.free)[b] + multiset(p.used)[b] == if b < p.count then 1 else 0
  {
    CountOfIndex(p.count, b);
    assert (multiset(p.free) + multiset(p.used))[b] == multiset(p.free)[b] + multiset(p.used)[b];
  }

  lemma Distinct(s: seq<nat>, i: nat, j: nat)
    requires i < j < |s| && s[i] == s[j]
    ensures multiset(s)[s[i]] >= 2
  {
    assert s == s[..j] + [s[j]] + s[j + 1..];
    assert s[i] in s[..j];
  }

  // When an operation keeps every buffer: acquire with PEEK, release without it (or
  // held back by CHECK_LAST), or nothing to take.
  predicate KeepsBuffers(p: Pool, op: Op) {
    match op
    case Flush => true
    case Acquire(flags) => flags.peek || Source(p, flags) == []
    case Release(flags, _) => HoldsLast(p, flags) || SwapsLast(p, flags) || !flags.peek || Source(p, flags) == []
  }

  lemma TakeFirst(q: seq<nat>)
    requires q != []
    ensures multiset(q) == multiset{q[0]} + multiset(q[1..])
  {
    assert q == [q[0]] + q[1..];
  }

  lemma SwapMultisets(x: nat, y: nat, z: nat)
    ensures multiset([y]) + multiset([x, z]) == multiset([z]) + multiset([x, y])
  {
    assert multiset([x, z]) == multiset{x, z} && multiset([x, y]) == multiset{x, y};
  }

  lemma SwapConserves(p: Pool, flags: Flags, stale: nat)
    requires Conserved(p) && SwapsLast(p, flags)
    ensures |p.used| == 2 && Conserved(ReleasePool(p, flags, stale).0)
  {
    ConservedSizes(p);
    var x, y, z := p.used[0], p.used[1], p.free[0];
    assert p.used == [x, y] && p.free == [z];
    var p' := ReleasePool(p, flags, stale).0;
    assert p'.used == [x, z];
    assert p'.free == [y];
    assert multiset(p'.free) + multiset(p'.used) == multiset(p.free) + multiset(p.used) by {
      SwapMultisets(x, y, z);
    }
  }

  lemma MoveConserves(p: Pool, flags: Flags, stale: nat)
    requires Conserved(p) && Source(p, flags) != [] && !flags.peek
    requires !HoldsLast(p, flags) && !SwapsLast(p, flags)
    ensures Conserved(ReleasePool(p, flags, stale).0)
    ensures |if flags.used then p.free else p.used| < p.count
  {
    ConservedSizes(p);
    TakeFirst(Source(p, flags));
  }

  // The exact condition, for every pool in order: conservation survives an operation
  // just when KeepsBuffers holds of it.
  lemma ConservedIff(p: Pool, op: Op)
    requires Conserved(p)
    // A swap finds a used buffer: nothing stale is read.
    ensures op.Release? && SwapsLast(p, op.flags) ==> p.used != []
    ensures Conserved(Step(p, op)) <==> KeepsBuffers(p, op)
    // The push inside a release that takes a buffer has room.
    ensures op.Release? && !op.flags.peek && Source(p, op.flags) != [] ==>
              |if op.flags.used then p.free else p.used| < p.count
  {
    ConservedSizes(p);
    match op {
      case Flush =>
      case Acquire(flags) =>
        if !KeepsBuffers(p, op) {
          if Conserved(Step(p, op)) {
            ConservedSizes(Step(p, op));
          }
        }
      case Release(flags, stale) =>
        if SwapsLast(p, flags) {
          SwapConserves(p, flags, stale);
        } else if !HoldsLast(p, flags) && Source(p, flags) != [] {
          if !flags.peek {
            MoveConserves(p, flags, stale);
          } else if Conserved(Step(p, op)) {
            ConservedSizes(Step(p, op));
          }
        }
    }
  }

  // Callers that peek when they acquire and never when they release.
  predicate Disciplined(op: Op) {
    match op
    case Flush => true
    case Acquire(flags) => flags.peek
    case Release(flags, _) => !flags.peek
  }

  lemma FlushedConserved(count: nat)
    ensures Conserved(Flushed(count))
  {
    assert multiset(Indices(count)) + multiset([]) == multiset(Indices(count));
  }

  // Buffers are conserved over every disciplined run.
  ghost function Run(p: Pool, ops: seq<Op>): (p': Pool)
    requires Conserved(p)
    requires forall i :: 0 <= i < |ops| ==> Disciplined(ops[i])
    ensures Conserved(p') && p'.count == p.count
    decreases |ops|
  {
    if ops == [] then p
    else
      ConservedIff(p, ops[0]);
      assert Disciplined(ops[0]) && KeepsBuffers(p, ops[0]);
      Run(Step(p, ops[0]), ops[1..])
  }

  lemma BuffersConserved(count: nat, ops: seq<Op>, b: nat)
    requires forall i :: 0 <= i < |ops| ==> Disciplined(ops[i])
    ensures Conserved(Flushed(count))
    ensures var p := Run(Flushed(count), ops);
            multiset(p.free)[b] + multiset(p.used)[b] == (if b < count then 1 else 0)
            && |p.free| + |p.used| == count
  {
    FlushedConserved(count);
    var p := Run(Flushed(count), ops);
    ConservedDistinct(p, b);
    ConservedSizes(p);
  }

  // ---- frames: what the buffers hold ----

  const PRODUCER := Flags(false, false, true)   // FB_FLAG_FREE | FB_FLAG_CHECK_LAST
  const CONSUMER := Flags(true, false, false)   // FB_FLAG_USED

  // One turn of a thread. The producer peeks a free buffer, writes the next frame into
  // it and releases it; the consumer peeks (any number of times) and releases.
  datatype Turn = Produce | Consume | Peek(used: bool) | Drop

  // content: the frame number in each buffer; produced: the last frame written.
  datatype Frames = Frames(pool: Pool, content: map<nat, nat>, produced: nat)

  ghost predicate Sized(p: Pool) {
    |p.free| + |p.used| == p.count
  }

  ghost function TurnStep(s: Frames, t: Turn): Frames
    requires Sized(s.pool)
  {
    match t
    case Produce =>
      if s.pool.free == [] then s   // acquire returned NULL
      else Frames(ReleasePool(s.pool, PRODUCER, 0).0, s.content[s.pool.free[0] := s.produced + 1], s.produced + 1)
    case Consume => s.(pool := ReleasePool(s.pool, CONSUMER, 0).0)
    case Peek(used) => s.(pool := AcquirePool(s.pool, Flags(used, true, false)).0)
    case Drop => s.(pool := Flushed(s.pool.count))
  }

  // The used queue is in production order, and with three buffers its last frame is
  // the newest one produced.
  ghost predicate InOrder(s: Frames) {
    var used := s.pool.used;
    && (forall i :: 0 <= i < |used| ==> used[i] in s.content && s.content[used[i]] <= s.produced)
    && (forall i, j :: 0 <= i < j < |used| ==> s.content[used[i]] < s.content[used[j]])
    && (s.pool.count == 3 && used != [] ==> s.content[used[|used| - 1]] == s.produced)
  }

  ghost predicate Good(s: Frames) {
    Conserved(s.pool) && Sized(s.pool) && InOrder(s)
  }

  lemma FreeNotUsed(p: Pool)
    requires Conserved(p) && p.free != []
    ensures p.free[0] !in p.used
  {
    var b := p.free[0];
    ConservedDistinct(p, b);
    assert b in multiset(p.free);
    assert b !in multiset(p.used);
  }

  // What a turn of the producer does to the used queue: with three buffers and one
  // free, the new frame takes the place of the newest, which is never the head.
  lemma ProduceUsed(s: Frames)
    requires Sized(s.pool) && s.pool.free != []
    ensures var b, used := s.pool.free[0], s.pool.used;
            TurnStep(s, Produce).pool.used ==
            (if |s.pool.free| > 1 || s.pool.count !in {2, 3} then used + [b]
             else if s.pool.count == 2 then used
             else used[..1] + [b])
    ensures |s.pool.free| == 1 && s.pool.count == 3 ==> |s.pool.used| == 2
  {
  }

  lemma ProduceKeepsOrder(s: Frames)
    requires Sized(s.pool) && InOrder(s) && s.pool.free != [] && s.pool.free[0] !in s.pool.used
    ensures var s' := TurnStep(s, Produce);
            InOrder(s')
            && (s.pool.used != [] ==>
                  s'.pool.used != [] && s'.pool.used[0] == s.pool.used[0]
                  && s'.content[s.pool.used[0]] == s.content[s.pool.used[0]])
  {
    ProduceUsed(s);
    var b := s.pool.free[0];
    var content := s.content[b := s.produced + 1];
    assert forall i :: 0 <= i < |s.pool.used| ==> content[s.pool.used[i]] == s.content[s.pool.used[i]];
  }

  lemma TurnConserves(s: Frames, t: Turn)
    requires Conserved(s.pool) && Sized(s.pool)
    ensures var p := TurnStep(s, t).pool;
            Conserved(p) && Sized(p) && p.count == s.pool.count
  {
    match t {
      case Produce => ConservedIff(s.pool, Release(PRODUCER, 0));
      case Consume => ConservedIff(s.pool, Release(CONSUMER, 0));
      case Peek(used) =>
      case Drop => FlushedConserved(s.pool.count);
    }
    ConservedSizes(TurnStep(s, t).pool);
  }

  lemma TurnKeepsOrder(s: Frames, t: Turn)
    requires Sized(s.pool) && InOrder(s)
    requires s.pool.free != [] ==> s.pool.free[0] !in s.pool.used
    ensures InOrder(TurnStep(s, t))
  {
    if t.Produce? && s.pool.free != [] {
      ProduceKeepsOrder(s);
    }
  }

  lemma TurnKeepsGood(s: Frames, t: Turn)
    requires Good(s)
    ensures Good(TurnStep(s, t)) && TurnStep(s, t).pool.count == s.pool.count
  {
    if s.pool.free != [] {
      FreeNotUsed(s.pool);
    }
    TurnConserves(s, t);
    TurnKeepsOrder(s, t);
  }

  ghost function Play(s: Frames, turns: seq<Turn>): (s': Frames)
    requires Good(s)
    ensures Good(s') && s'.pool.count == s.pool.count
    decreases |turns|
  {
    if turns == [] then s
    else
      TurnKeepsGood(s, turns[0]);
      Play(TurnStep(s, turns[0]), turns[1..])
  }

  function Start(count: nat): (s: Frames) {
    Frames(Flushed(count), map[], 0)
  }

  lemma StartGood(count: nat)
    ensures Good(Start(count))
  {
    FlushedConserved(count);
  }

  // The head a consumer peeks stays in place, with the same frame in it, whatever the
  // producer does until the consumer releases it.
  lemma {:induction false} PeekedFrameStays(s: Frames, turns: seq<Turn>)
    requires Good(s) && s.pool.used != []
    requires forall i :: 0 <= i < |turns| ==> turns[i].Produce? || turns[i].Peek?
    ensures var b := s.pool.used[0];
            var s' := Play(s, turns);
            s'.pool.used != [] && s'.pool.used[0] == b
            && b in s'.content && s'.content[b] == s.content[b]
    decreases |turns|
  {
    if turns != [] {
      if turns[0].Produce? && s.pool.free != [] {
        FreeNotUsed(s.pool);
        ProduceKeepsOrder(s);
      }
      TurnKeepsGood(s, turns[0]);
      PeekedFrameStays(TurnStep(s, turns[0]), turns[1..]);
    }
  }

  // ---- the consumer between the producer's check and its swap ----

  // framebuffer_release checks that one buffer is free and swaps later; the consumer may
  // run in between.
  ghost predicate Between(before: Frames, turns: seq<Turn>) {
    && Good(before) && SwapsLast(before.pool, PRODUCER)
    && forall i :: 0 <= i < |turns| ==> turns[i].Consume? || turns[i].Peek?
  }

  // The pool when the swap comes.
  ghost function AtSwap(before: Frames, turns: seq<Turn>): (p: Pool)
    requires Between(before, turns)
    ensures Conserved(p) && Sized(p) && p.count == 3
    ensures p.free != [] && p.free[0] == before.pool.free[0] && p.free[0] !in p.used
  {
    WrittenBufferStays(before, turns);
    Play(before, turns).pool
  }

  // The frame that the consumer peeked last survives the swap exactly when two buffers
  // are still used. With one left, the swap takes that one from under the consumer.
  lemma SwapAfterCheckIff(before: Frames, turns: seq<Turn>, stale: nat)
    requires Between(before, turns) && AtSwap(before, turns).used != []
    ensures var after := AtSwap(before, turns);
            var swapped := Swapped(after, stale);
            && Conserved(swapped)
            && swapped.used != [] && swapped.used[|swapped.used| - 1] == before.pool.free[0]
            && (swapped.used[0] == after.used[0] <==> |after.used| == 2)
            && (|after.used| == 1 ==> after.used[0] in swapped.free && after.used[0] !in swapped.used)
  {
    SwapInOrder(AtSwap(before, turns), stale);
  }

  lemma SwapInOrder(p: Pool, stale: nat)
    requires Conserved(p) && p.free != [] && p.used != []
    requires |p.used| <= 2 && p.free[0] !in p.used
    ensures var swapped := Swapped(p, stale);
            && Conserved(swapped)
            && swapped.used != [] && swapped.used[|swapped.used| - 1] == p.free[0]
            && (swapped.used[0] == p.used[0] <==> |p.used| == 2)
            && (|p.used| == 1 ==> p.used[0] in swapped.free && p.used[0] !in swapped.used)
  {
    var n := |p.used| - 1;
    SwapEnds(p.used, p.free, n);
    assert Swapped(p, stale).free[0] == p.used[n];
  }

  lemma SwapEnds(used: seq<nat>, free: seq<nat>, n: nat)
    requires n + 1 == |used| && free != []
    ensures multiset(free[0 := used[n]]) + multiset(used[..n] + [free[0]]) == multiset(free) + multiset(used)
  {
    assert used == used[..n] + [used[n]];
    assert free == [free[0]] + free[1..];
    assert free[0 := used[n]] == [used[n]] + free[1..];
  }

  // With none left, the swap puts whatever the used queue's slot still holds in the place
  // of the frame just written.
  lemma SwapOfNothing(before: Frames, turns: seq<Turn>, stale: nat)
    requires Between(before, turns) && AtSwap(before, turns).used == []
    ensures var after := AtSwap(before, turns);
            && Swapped(after, stale) == after.(free := after.free[0 := stale])
            && (Conserved(Swapped(after, stale)) <==> stale == before.pool.free[0])
  {
    var after := AtSwap(before, turns);
    ReplacedHead(after.free, stale);
    assert multiset(after.free) + multiset(after.used) == multiset(after.free);
  }

  lemma ReplacedHead(free: seq<nat>, stale: nat)
    requires free != []
    ensures multiset(free[0 := stale]) == multiset(free) <==> stale == free[0]
  {
    assert free == [free[0]] + free[1..] && free[0 := stale] == [stale] + free[1..];
    CountWithFirst(free[1..], stale, stale);
    CountWithFirst(free[1..], free[0], stale);
  }

  lemma CountWithFirst(s: seq<nat>, x: nat, b: nat)
    ensures multiset([x] + s)[b] == multiset(s)[b] + if x == b then 1 else 0
  {
  }

  // One release in between is enough.
  lemma ReleaseBeforeSwap(before: Frames)
    requires Good(before) && SwapsLast(before.pool, PRODUCER)
    ensures Between(before, [Consume]) && |AtSwap(before, [Consume]).used| == 1
  {
    ConservedSizes(before.pool);
    assert Play(before, [Consume]) == Play(TurnStep(before, Consume), []);
  }

  // The buffer that the producer has peeked and writes stays the first free one, and is
  // never handed to the consumer, whatever the consumer peeks and releases meanwhile.
  lemma {:induction false} WrittenBufferStays(s: Frames, turns: seq<Turn>)
    requires Good(s) && s.pool.free != []
    requires forall i :: 0 <= i < |turns| ==> turns[i].Consume? || turns[i].Peek?
    ensures var s' := Play(s, turns);
            s'.pool.free != [] && s'.pool.free[0] == s.pool.free[0] && s.pool.free[0] !in s'.pool.used
    decreases |turns|
  {
    if turns == [] {
      FreeNotUsed(s.pool);
    } else {
      TurnKeepsGood(s, turns[0]);
      WrittenBufferStays(TurnStep(s, turns[0]), turns[1..]);
    }
  }

  // A flush meanwhile puts buffer 0 first, so what the producer then releases is the
  // buffer it wrote exactly when that was buffer 0.
  lemma FlushDuringWrite(s: Frames)
    requires Good(s) && s.pool.free != []
    ensures var s' := TurnStep(s, Drop);
            s'.pool.free != [] && (s'.pool.free[0] == s.pool.free[0] <==> s.pool.free[0] == 0)
  {
  }

  lemma TurnLeavesFree(s: Frames, t: Turn)
    requires Sized(s.pool) && s.pool.count in {2, 3} && s.pool.free != []
    ensures TurnStep(s, t).pool.free != []
  {
    match t
    case Produce => ProduceLeavesFree(s.pool);
    case _ =>
  }

  lemma ProduceLeavesFree(p: Pool)
    requires Sized(p) && p.count in {2, 3} && p.free != []
    ensures ReleasePool(p, PRODUCER, 0).0.free != []
  {
  }

  lemma {:induction false} FreeStays(s: Frames, turns: seq<Turn>)
    requires Good(s) && s.pool.count in {2, 3} && s.pool.free != []
    ensures Play(s, turns).pool.free != []
    decreases |turns|
  {
    if turns != [] {
      TurnKeepsGood(s, turns[0]);
      TurnLeavesFree(s, turns[0]);
      FreeStays(TurnStep(s, turns[0]), turns[1..]);
    }
  }

  ghost function Produces(n: nat): (turns: seq<Turn>)
    ensures |turns| == n && forall i :: 0 <= i < n ==> turns[i] == Produce
  {
    seq(n, _ => Produce)
  }

  // With any other number of buffers, a run of count frames leaves none free.
  lemma {:induction false} FreeRunsOut(s: Frames)
    requires Good(s) && s.pool.count !in {2, 3}
    ensures Play(s, Produces(|s.pool.free|)).pool.free == []
    decreases |s.pool.free|
  {
    if s.pool.free != [] {
      ConservedSizes(s.pool);
      TurnKeepsGood(s, Produce);
      var s1 := TurnStep(s, Produce);
      FreeRunsOut(s1);
      assert Produces(|s.pool.free|)[1..] == Produces(|s1.pool.free|);
    }
  }

  // Main result. After a flush and any turns: the used queue is in production order
  // (InOrder, whose last line is the triple-buffer promise); and a free buffer always
  // exists exactly when the pool double- or triple-buffers.
  lemma FreeBufferAlwaysExistsIff(count: nat)
    ensures Good(Start(count))
    ensures (forall turns :: Play(Start(count), turns).pool.free != []) <==> count in {2, 3}
  {
    StartGood(count);
    if count in {2, 3} {
      forall turns ensures Play(Start(count), turns).pool.free != [] {
        FreeStays(Start(count), turns);
      }
    } else {
      FreeRunsOut(Start(count));
    }
  }
}
