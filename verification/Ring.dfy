// The circular window of a ring with one spare slot: queue.c keeps the queued
// items in the slots from head up to, and not including, tail.
module Ring {

  // The next slot, wrapping: (i + 1) % (capacity + 1).
  function Next(i: nat, slots: nat): (r: nat)
    requires i < slots
    ensures r < slots
  {
    (i + 1) % slots
  }

  function Window<T>(items: seq<T>, head: nat, tail: nat): (w: seq<T>)
    requires head < |items| && tail < |items|
    ensures |w| < |items|
  {
    if head <= tail then items[head..tail] else items[head..] + items[..tail]
  }

  lemma NextIs(i: nat, slots: nat)
    requires i < slots
    ensures Next(i, slots) == if i + 1 == slots then 0 else i + 1
  {
  }

  // Full: the next tail slot is the head. Then, and only then, all slots but
  // the spare one are in the window.
  lemma FullIff<T>(items: seq<T>, head: nat, tail: nat)
    requires head < |items| && tail < |items|
    ensures Next(tail, |items|) == head <==> |Window(items, head, tail)| == |items| - 1
  {
    NextIs(tail, |items|);
  }

  // Writing the tail slot and advancing tail appends to the window; the write
  // alone changes nothing in it.
  lemma PushWindow<T>(items: seq<T>, head: nat, tail: nat, x: T)
    requires head < |items| && tail < |items|
    ensures Window(items[tail := x], head, tail) == Window(items, head, tail)
    ensures Next(tail, |items|) != head ==>
              Window(items[tail := x], head, Next(tail, |items|)) == Window(items, head, tail) + [x]
  {
    NextIs(tail, |items|);
    var w := Window(items, head, tail);
    assert Window(items[tail := x], head, tail) == w;
  }

  lemma PopWindow<T>(items: seq<T>, head: nat, tail: nat)
    requires head < |items| && tail < |items| && head != tail
    ensures Window(items, head, tail) != [] && Window(items, head, tail)[0] == items[head]
    ensures Window(items, Next(head, |items|), tail) == Window(items, head, tail)[1..]
  {
    NextIs(head, |items|);
  }

  // The slot before tail holds the newest item; overwriting it replaces that item.
  lemma LastWindow<T>(items: seq<T>, head: nat, tail: nat, x: T)
    requires head < |items| && tail < |items| && head != tail
    ensures var last := if tail == 0 then |items| - 1 else tail - 1;
            var w := Window(items, head, tail);
            w != [] && w[|w| - 1] == items[last]
            && Window(items[last := x], head, tail) == w[..|w| - 1] + [x]
  {
    var last := if tail == 0 then |items| - 1 else tail - 1;
    var w := Window(items, head, tail);
    assert Window(items[last := x], head, tail) == w[..|w| - 1] + [x];
  }

  lemma HeadWindow<T>(items: seq<T>, head: nat, tail: nat, x: T)
    requires head < |items| && tail < |items| && head != tail
    ensures var w := Window(items, head, tail);
            w != [] && w[0] == items[head]
            && Window(items[head := x], head, tail) == w[0 := x]
  {
    assert Window(items[head := x], head, tail) == Window(items, head, tail)[0 := x];
  }
}
