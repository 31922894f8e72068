// queue.c used by one producer and one consumer thread at once. Every atomic
// load, atomic store and slot access is one step, and a schedule is any
// sequence of steps, in sequentially consistent memory.
module QueueInterleaving {
  import Ring

  // Program counters with the locals that are live there.
  datatype Producer<T> =
    | PIdle
    | PHaveTail(x: T, oldTail: nat)   // after the load of tail
    | PHaveRoom(x: T, oldTail: nat)   // after the load of head: not full
    | PWritten(x: T, oldTail: nat)    // after the slot write

  datatype Consumer<T> =
    | CIdle
    | CHaveHead(peek: bool, h: nat)                     // queue_is_empty: head loaded
    | CNotEmpty(peek: bool)                             // queue_is_empty: tail loaded, differs
    | CHaveOldHead(peek: bool, oldHead: nat)            // queue_pop: head loaded again
    | CHaveItem(oldHead: nat, item: T)                  // pop only: slot read

  datatype State<T> = State(head: nat, tail: nat, items: seq<T>, p: Producer<T>, c: Consumer<T>)

  // What the scheduler lets happen. A start is ignored while that thread is inside a call.
  datatype Move<T> =
    | StartPush(x: T)
    | ProducerStep
    | StartPop(peek: bool)
    | ConsumerStep

  // What a call reports to its caller, at the step that decides it.
  datatype Event<T> =
    | Silent
    | Pushed(x: T)
    | RefusedFull(x: T)
    | Popped(x: T)
    | Peeked(x: T)
    | FoundEmpty

  ghost predicate InRange<T>(s: State<T>) {
    && s.head < |s.items| && s.tail < |s.items|
    && (s.p.PIdle? || s.p.oldTail < |s.items|)
    && (s.c.CHaveOldHead? || s.c.CHaveItem? ==> s.c.oldHead < |s.items|)
  }

  ghost function StepProducer<T>(s: State<T>): (State<T>, Event<T>)
    requires InRange(s)
  {
    match s.p
    case PIdle => (s, Silent)
    case PHaveTail(x, oldTail) =>
      if (oldTail + 1) % |s.items| == s.head then (s.(p := PIdle), RefusedFull(x))
      else (s.(p := PHaveRoom(x, oldTail)), Silent)
    case PHaveRoom(x, oldTail) => (s.(items := s.items[oldTail := x], p := PWritten(x, oldTail)), Silent)
    case PWritten(x, oldTail) => (s.(tail := (oldTail + 1) % |s.items|, p := PIdle), Pushed(x))
  }

  ghost function StepConsumer<T>(s: State<T>): (State<T>, Event<T>)
    requires InRange(s)
  {
    match s.c
    case CIdle => (s, Silent)
    case CHaveHead(peek, h) =>
      if h == s.tail then (s.(c := CIdle), FoundEmpty) else (s.(c := CNotEmpty(peek)), Silent)
    case CNotEmpty(peek) => (s.(c := CHaveOldHead(peek, s.head)), Silent)
    case CHaveOldHead(peek, oldHead) =>
      var item := s.items[oldHead];
      if peek then (s.(c := CIdle), Peeked(item)) else (s.(c := CHaveItem(oldHead, item)), Silent)
    case CHaveItem(oldHead, item) => (s.(head := (oldHead + 1) % |s.items|, c := CIdle), Popped(item))
  }

  ghost function Step<T>(s: State<T>, m: Move<T>): (State<T>, Event<T>)
    requires InRange(s)
  {
    match m
    case StartPush(x) => (if s.p.PIdle? then s.(p := PHaveTail(x, s.tail)) else s, Silent)
    case StartPop(peek) => (if s.c.CIdle? then s.(c := CHaveHead(peek, s.head)) else s, Silent)
    case ProducerStep => StepProducer(s)
    case ConsumerStep => StepConsumer(s)
  }

  // queue_init for a given capacity; the slots hold whatever was in memory.
  ghost predicate Init<T>(s: State<T>, capacity: nat) {
    |s.items| == capacity + 1 && s.head == 0 && s.tail == 0 && s.p == PIdle && s.c == CIdle
  }

  // The invariant: what each thread's locals still say about the shared state.
  ghost predicate Inv<T>(s: State<T>) {
    && InRange(s)
    && (!s.p.PIdle? ==> s.p.oldTail == s.tail)
    && (s.p.PHaveRoom? || s.p.PWritten? ==> Ring.Next(s.tail, |s.items|) != s.head)
    && (s.p.PWritten? ==> s.items[s.tail] == s.p.x)
    && (s.c.CHaveHead? ==> s.c.h == s.head)
    && (s.c.CHaveOldHead? || s.c.CHaveItem? ==> s.c.oldHead == s.head)
    && (s.c.CNotEmpty? || s.c.CHaveOldHead? || s.c.CHaveItem? ==> s.head != s.tail)
    && (s.c.CHaveItem? ==> s.c.item == s.items[s.head])
  }

  ghost function Contents<T>(s: State<T>): seq<T>
    requires InRange(s)
  {
    Ring.Window(s.items, s.head, s.tail)
  }

  // The simple form: a bounded FIFO where each call happens at once.
  ghost predicate Atomic<T>(capacity: nat, q: seq<T>, q': seq<T>, e: Event<T>) {
    match e
    case Silent => q' == q
    case Pushed(x) => |q| < capacity && q' == q + [x]
    case RefusedFull(_) => |q| == capacity && q' == q
    case Popped(x) => q != [] && x == q[0] && q' == q[1..]
    case Peeked(x) => q != [] && x == q[0] && q' == q
    case FoundEmpty => q == [] && q' == q
  }

  // Not one of the slots from head up to tail.
  ghost predicate OutsideWindow(slot: nat, head: nat, tail: nat) {
    if head <= tail then slot < head || tail <= slot else tail <= slot < head
  }

  lemma ProducerRefines<T>(s: State<T>)
    requires Inv(s)
    ensures var (s', e) := StepProducer(s);
            Inv(s') && |s'.items| == |s.items|
            && Atomic(|s.items| - 1, Contents(s), Contents(s'), e)
    ensures s.p.PHaveRoom? ==>
              OutsideWindow(s.p.oldTail, s.head, s.tail)
              && (s.c.CHaveOldHead? || s.c.CHaveItem? ==> s.p.oldTail != s.c.oldHead)
  {
    Ring.FullIff(s.items, s.head, s.tail);
    if !s.p.PIdle? {
      Ring.PushWindow(s.items, s.head, s.tail, s.p.x);
      assert s.p.PWritten? ==> s.items[s.tail := s.p.x] == s.items;
    }
  }

  lemma ConsumerRefines<T>(s: State<T>)
    requires Inv(s)
    ensures var (s', e) := StepConsumer(s);
            Inv(s') && |s'.items| == |s.items|
            && Atomic(|s.items| - 1, Contents(s), Contents(s'), e)
  {
    if s.head != s.tail {
      Ring.PopWindow(s.items, s.head, s.tail);
      Ring.NextIs(s.head, |s.items|);
      Ring.NextIs(s.tail, |s.items|);
    }
  }

  predicate ToProducer<T>(e: Event<T>) {
    e.Pushed? || e.RefusedFull?
  }

  predicate ToConsumer<T>(e: Event<T>) {
    e.Popped? || e.Peeked? || e.FoundEmpty?
  }

  // Every step of either thread keeps the invariant and is one step of the atomic
  // FIFO; the slot the producer writes is never one the consumer may read; and a
  // thread gets a report exactly when its call ends.
  lemma StepRefines<T>(s: State<T>, m: Move<T>)
    requires Inv(s)
    ensures var (s', e) := Step(s, m);
            Inv(s') && |s'.items| == |s.items|
            && Atomic(|s.items| - 1, Contents(s), Contents(s'), e)
    ensures m.ProducerStep? && s.p.PHaveRoom? ==>
              OutsideWindow(s.p.oldTail, s.head, s.tail)
              && (s.c.CHaveOldHead? || s.c.CHaveItem? ==> s.p.oldTail != s.c.oldHead)
    ensures var (s', e) := Step(s, m);
            && (ToProducer(e) <==> !s.p.PIdle? && s'.p.PIdle?)
            && (ToConsumer(e) <==> !s.c.CIdle? && s'.c.CIdle?)
  {
    match m
    case StartPush(_) =>
    case StartPop(_) =>
    case ProducerStep => ProducerRefines(s);
    case ConsumerStep => ConsumerRefines(s);
  }

  // A schedule run from s: the final state and the reports along the way.
  ghost function Run<T>(s: State<T>, moves: seq<Move<T>>): (r: (State<T>, seq<Event<T>>))
    requires Inv(s)
    ensures Inv(r.0) && |r.0.items| == |s.items|
    decreases |moves|
  {
    if moves == [] then (s, [])
    else
      StepRefines(s, moves[0]);
      var (s1, e) := Step(s, moves[0]);
      var (s2, rest) := Run(s1, moves[1..]);
      (s2, [e] + rest)
  }

  ghost function ItemsPushed<T>(es: seq<Event<T>>): seq<T> {
    if es == [] then []
    else (if es[0].Pushed? then [es[0].x] else []) + ItemsPushed(es[1..])
  }

  ghost function ItemsPopped<T>(es: seq<Event<T>>): seq<T> {
    if es == [] then []
    else (if es[0].Popped? then [es[0].x] else []) + ItemsPopped(es[1..])
  }

  // One more report in front keeps the account balanced.
  lemma {:induction false} AccountStep<T>(capacity: nat, q: seq<T>, q1: seq<T>, e: Event<T>, rest: seq<Event<T>>,
                                          q2: seq<T>)
    requires Atomic(capacity, q, q1, e)
    requires ItemsPopped(rest) + q2 == q1 + ItemsPushed(rest)
    ensures ItemsPopped([e] + rest) + q2 == q + ItemsPushed([e] + rest)
  {
    assert ([e] + rest)[1..] == rest;
    var popped, pushed := ItemsPopped(rest), ItemsPushed(rest);
    if e.Pushed? {
      assert (q + [e.x]) + pushed == q + ([e.x] + pushed);
    } else if e.Popped? {
      assert ([e.x] + popped) + q2 == [e.x] + (popped + q2) == [e.x] + (q1 + pushed) == ([e.x] + q1) + pushed;
      assert [e.x] + q1 == q;
    } else {
      assert [] + popped == popped && [] + pushed == pushed;
    }
  }

  lemma {:induction false} RunConserves<T>(s: State<T>, moves: seq<Move<T>>)
    requires Inv(s)
    ensures var (s', es) := Run(s, moves);
            ItemsPopped(es) + Contents(s') == Contents(s) + ItemsPushed(es)
    decreases |moves|
  {
    if moves == [] {
      assert Contents(s) + [] == [] + Contents(s);
    } else {
      StepRefines(s, moves[0]);
      var (s1, e) := Step(s, moves[0]);
      var (s2, rest) := Run(s1, moves[1..]);
      RunConserves(s1, moves[1..]);
      AccountStep(|s.items| - 1, Contents(s), Contents(s1), e, rest, Contents(s2));
    }
  }

  // Main result, for every capacity and every schedule from an initialised queue:
  // items popped, then the items still queued, are the items pushed, in order;
  // never more than capacity are queued; and every report agrees with the FIFO
  // that holds at that step (see Linearizable).
  lemma FifoInEveryInterleaving<T>(s: State<T>, capacity: nat, moves: seq<Move<T>>)
    requires Init(s, capacity)
    ensures Inv(s)
    ensures var (s', es) := Run(s, moves);
            ItemsPopped(es) + Contents(s') == ItemsPushed(es)
            && |Contents(s')| <= capacity
  {
    RunConserves(s, moves);
    var (s', es) := Run(s, moves);
    assert Contents(s) + ItemsPushed(es) == ItemsPushed(es);
  }

  // The reports of a whole run are those of one atomic FIFO.
  ghost predicate AtomicRun<T(!new)>(capacity: nat, q: seq<T>, es: seq<Event<T>>, q': seq<T>)
    decreases |es|
  {
    if es == [] then q' == q
    else exists q1 :: Atomic(capacity, q, q1, es[0]) && AtomicRun(capacity, q1, es[1..], q')
  }

  lemma {:induction false} Linearizable<T(!new)>(s: State<T>, moves: seq<Move<T>>)
    requires Inv(s)
    ensures var (s', es) := Run(s, moves);
            AtomicRun(|s.items| - 1, Contents(s), es, Contents(s'))
    decreases |moves|
  {
    if moves != [] {
      StepRefines(s, moves[0]);
      var (s1, e) := Step(s, moves[0]);
      var (s2, rest) := Run(s1, moves[1..]);
      Linearizable(s1, moves[1..]);
      var es := [e] + rest;
      assert es[0] == e && es[1..] == rest;
      assert Atomic(|s.items| - 1, Contents(s), Contents(s1), es[0]);
    }
  }

  // ---- the answer belongs to the call ----

  // Of the reports, the first of these, or Silent.
  ghost function First<T>(es: seq<Event<T>>, which: Event<T> -> bool): Event<T> {
    if es == [] then Silent else if which(es[0]) then es[0] else First(es[1..], which)
  }

  lemma FirstOfRun<T>(s: State<T>, moves: seq<Move<T>>, which: Event<T> -> bool)
    requires Inv(s) && moves != []
    ensures var (s1, e) := Step(s, moves[0]);
            && Inv(s1)
            && First(Run(s, moves).1, which) == if which(e) then e else First(Run(s1, moves[1..]).1, which)
  {
    StepRefines(s, moves[0]);
    var (s1, e) := Step(s, moves[0]);
    var rest := Run(s1, moves[1..]).1;
    assert ([e] + rest)[1..] == rest;
  }

  lemma CountRest<T>(moves: seq<Move<T>>, m: Move<T>)
    requires moves != []
    ensures multiset(moves)[m] == multiset(moves[1..])[m] + if moves[0] == m then 1 else 0
  {
    assert moves == [moves[0]] + moves[1..];
  }

  // How many more of its own steps a call under way takes at most.
  function ProducerLeft<T>(p: Producer<T>): nat {
    match p case PIdle => 0 case PHaveTail(_, _) => 3 case PHaveRoom(_, _) => 2 case PWritten(_, _) => 1
  }

  function ConsumerLeft<T>(c: Consumer<T>): nat {
    match c
    case CIdle => 0
    case CHaveHead(_, _) => 4
    case CNotEmpty(_) => 3
    case CHaveOldHead(_, _) => 2
    case CHaveItem(_, _) => 1
  }

  lemma {:induction false} PushUnderWay<T>(s: State<T>, moves: seq<Move<T>>)
    requires Inv(s) && !s.p.PIdle? && multiset(moves)[ProducerStep] >= ProducerLeft(s.p)
    ensures First(Run(s, moves).1, ToProducer) in {Pushed(s.p.x), RefusedFull(s.p.x)}
    decreases |moves|
  {
    FirstOfRun(s, moves, ToProducer);
    CountRest(moves, ProducerStep);
    var (s1, e) := Step(s, moves[0]);
    if !ToProducer(e) {
      PushUnderWay(s1, moves[1..]);
    }
  }

  lemma {:induction false} PopUnderWay<T>(s: State<T>, peek: bool, moves: seq<Move<T>>)
    requires Inv(s) && !s.c.CIdle? && multiset(moves)[ConsumerStep] >= ConsumerLeft(s.c)
    requires if s.c.CHaveItem? then !peek else s.c.peek == peek
    ensures var e := First(Run(s, moves).1, ToConsumer);
            e.FoundEmpty? || if peek then e.Peeked? else e.Popped?
    decreases |moves|
  {
    FirstOfRun(s, moves, ToConsumer);
    CountRest(moves, ConsumerStep);
    var (s1, e) := Step(s, moves[0]);
    if !ToConsumer(e) {
      PopUnderWay(s1, peek, moves[1..]);
    }
  }

  // In every state and whatever the scheduler does, a push by an idle producer is answered
  // within three of its own steps, and the answer is about the item it was called with;
  lemma PushIsAnswered<T>(s: State<T>, x: T, moves: seq<Move<T>>)
    requires Inv(s) && s.p.PIdle? && multiset(moves)[ProducerStep] >= 3
    ensures var es := Run(s, [StartPush(x)] + moves).1;
            First(es, ToProducer) == Pushed(x) || First(es, ToProducer) == RefusedFull(x)
  {
    var all := [StartPush(x)] + moves;
    assert all[1..] == moves;
    FirstOfRun(s, all, ToProducer);
    PushUnderWay(Step(s, all[0]).0, moves);
  }

  // and a pop or peek by an idle consumer within four: a pop takes, a peek does not.
  lemma PopIsAnswered<T>(s: State<T>, peek: bool, moves: seq<Move<T>>)
    requires Inv(s) && s.c.CIdle? && multiset(moves)[ConsumerStep] >= 4
    ensures var e := First(Run(s, [StartPop(peek)] + moves).1, ToConsumer);
            e.FoundEmpty? || if peek then e.Peeked? else e.Popped?
  {
    var all := [StartPop(peek)] + moves;
    assert all[1..] == moves;
    FirstOfRun(s, all, ToConsumer);
    PopUnderWay(Step(s, all[0]).0, peek, moves);
  }
}
