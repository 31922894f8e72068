// queue.c: a bounded queue over a ring with one spare slot, as called by one
// thread at a time. QueueInterleaving.dfy has the two-thread version.
module Queue {
  import opened Common
  import Ring

  class Queue<T(0)> {
    const capacity: nat
    const items: array<T>
    var head: nat
    var tail: nat

    ghost var content: seq<T>   // the queued items, oldest first

    ghost predicate Valid()
      reads this, items
    {
      && items.Length == capacity + 1 && head <= capacity && tail <= capacity
      && content == Ring.Window(items[..], head, tail)
    }

    // queue_init; a NULL queue (never initialised) behaves like capacity 0.
    constructor (capacity: nat)
      ensures Valid() && fresh(items)
      ensures this.capacity == capacity && content == []
    {
      this.capacity := capacity;
      items := new T[capacity + 1];
      head, tail := 0, 0;
      content := [];
    }

    method Flush()
      requires Valid()
      modifies this`head, this`tail, this`content
      ensures Valid() && content == []
    {
      head := 0;
      tail := 0;
      content := [];
    }

    // None stands for the NULL item, which is refused.
    method Push(item: Option<T>) returns (ok: bool)
      requires Valid()
      modifies this`tail, this`content, items
      ensures Valid()
      ensures ok == (item.Some? && |old(content)| < capacity)
      ensures content == if ok then old(content) + [item.value] else old(content)
    {
      if item.None? {
        return false;
      }
      var newTail := (tail + 1) % (capacity + 1);
      Ring.FullIff(items[..], head, tail);
      if newTail == head {
        return false;
      }
      Ring.PushWindow(items[..], head, tail, item.value);
      ghost var before := items[..];
      items[tail] := item.value;
      assert items[..] == before[tail := item.value];
      tail := newTail;
      content := content + [item.value];
      return true;
    }

    method Pop(peek: bool) returns (item: Option<T>)
      requires Valid()
      modifies this`head, this`content
      ensures Valid()
      ensures old(content) == [] ==> item == None && content == []
      ensures old(content) != [] ==>
                item == Some(old(content)[0])
                && content == if peek then old(content) else old(content)[1..]
    {
      var empty := IsEmpty();
      if empty {
        return None;
      }
      Ring.PopWindow(items[..], head, tail);
      item := Some(items[head]);
      if !peek {
        head := (head + 1) % (capacity + 1);
        content := content[1..];
      }
    }

    // The two stores of queue_swap. An empty queue stays empty: the slot is outside it.
    method ReplaceLast(last: nat, x: T)
      requires Valid() && last == LastSlot()
      modifies this`content, items
      ensures Valid()
      ensures content == if old(content) == [] then [] else old(content)[..|old(content)| - 1] + [x]
    {
      ghost var before := items[..];
      items[last] := x;
      assert items[..] == before[last := x];
      if head != tail {
        Ring.LastWindow(before, head, tail, x);
        content := content[..|content| - 1] + [x];
      }
    }

    method ReplaceFirst(first: nat, x: T)
      requires Valid() && first == head
      modifies this`content, items
      ensures Valid()
      ensures content == if old(content) == [] then [] else old(content)[0 := x]
    {
      ghost var before := items[..];
      items[first] := x;
      assert items[..] == before[first := x];
      if head != tail {
        Ring.HeadWindow(before, head, tail, x);
        content := content[0 := x];
      }
    }

    // The slot before tail, and what it and the head slot hold: of a queue that is not
    // empty, the newest and the oldest item; of an empty one, whatever was left there.
    function LastSlot(): nat
      reads this`tail
    {
      if tail == 0 then capacity else tail - 1
    }

    ghost function InLastSlot(): T
      requires Valid()
      reads this, items
      ensures content != [] ==> InLastSlot() == content[|content| - 1]
    {
      if head != tail then Ring.LastWindow(items[..], head, tail, items[LastSlot()]); items[LastSlot()]
      else items[LastSlot()]
    }

    ghost function InFirstSlot(): T
      requires Valid()
      reads this, items
      ensures content != [] ==> InFirstSlot() == content[0]
    {
      if head != tail then Ring.HeadWindow(items[..], head, tail, items[head]); items[head] else items[head]
    }

    method IsEmpty() returns (empty: bool)
      requires Valid()
      ensures empty <==> content == []
    {
      empty := head == tail;
    }

    method Size() returns (n: nat)
      requires Valid()
      ensures n == |content| <= capacity
    {
      if tail >= head {
        n := tail - head;
      } else {
        n := (capacity + 1) - head + tail;
      }
    }
  }

  // queue_swap: the last item of q0 and the first of q1 change places. Neither slot is
  // checked, so an empty queue gives what was left in it, and takes nothing.
  method Swap<T(0)>(q0: Queue<T>, q1: Queue<T>) returns (item0: T)
    requires q0.Valid() && q1.Valid() && q0 != q1 && q0.items != q1.items
    modifies q0`content, q0.items, q1`content, q1.items
    ensures q0.Valid() && q1.Valid()
    ensures item0 == old(q0.InLastSlot())
    ensures old(q0.content) != [] ==> item0 == old(q0.content)[|old(q0.content)| - 1]
    ensures old(q0.content) != [] && old(q1.content) != [] ==>
              q0.content[|q0.content| - 1] == old(q1.content)[0]
    ensures var c0 := old(q0.content);
            q0.content == if c0 == [] then [] else c0[..|c0| - 1] + [old(q1.InFirstSlot())]
    ensures q1.content == if old(q1.content) == [] then [] else old(q1.content)[0 := item0]
  {
    var last := q0.LastSlot();
    var first := q1.head;
    item0 := q0.items[last];
    var item1 := q1.items[first];
    q0.ReplaceLast(last, item1);
    q1.ReplaceFirst(first, item0);
  }
}
