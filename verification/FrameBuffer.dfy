// framebuffer.c: a pool of buffers that moves between a free and a used queue.
module FrameBuffer {
  import opened Common
  import opened FrameBufferLayout
  import Queue
  import opened FrameBufferPool

  // vbuffer_t's header, all that framebuffer_reset clears.
  datatype VBuffer = VBuffer(offset: int, flags: int)

  const RESET := VBuffer(0, 0)

  // framebuffer_reset on one buffer, if any.
  function ResetAt(headers: map<nat, VBuffer>, b: Option<nat>): map<nat, VBuffer> {
    if b.Some? then headers[b.value := RESET] else headers
  }

  ghost predicate AllReset(headers: map<nat, VBuffer>, n: nat) {
    forall i: nat :: i < n ==> i in headers && headers[i] == RESET
  }

  lemma OneMoreReset(headers: map<nat, VBuffer>, i: nat)
    requires AllReset(headers, i)
    ensures AllReset(headers[i := RESET], i + 1)
  {
  }

  lemma NextIndex(i: nat)
    ensures Indices(i + 1) == Indices(i) + [i]
  {
  }

  lemma SwappedIs(p: Pool, last: nat, p': Pool)
    requires p.free != [] && p'.count == p.count && p'.free == p.free[0 := last]
    requires if p.used == [] then p'.used == []
             else |p'.used| == |p.used| && p'.used[..|p.used| - 1] == p.used[..|p.used| - 1]
                  && p'.used[|p.used| - 1] == p.free[0] && last == p.used[|p.used| - 1]
    ensures p' == Swapped(p, last)
  {
    if p.used != [] {
      assert p'.used == p'.used[..|p.used| - 1] + [p.free[0]];
    }
  }

  class FrameBuffer {
    const abi: Abi
    const dynamic: bool
    var rawBase: Option<nat>   // None: NULL
    var rawSize: nat
    var bufCount: nat
    var bufSize: nat
    var pixfmtValid: bool
    var freeQueue: Queue.Queue<nat>   // buffers are named by their index in the pool
    var usedQueue: Queue.Queue<nat>
    var headers: map<nat, VBuffer>    // header memory, by buffer index

    // The queues of up to three buffers lie in static memory, larger ones in the raw
    // block, which a failed dynamic resize has freed.
    predicate Live()
      reads this`bufCount, this`rawBase
    {
      bufCount <= 3 || !dynamic || rawBase.Some?
    }

    ghost predicate Valid()
      reads this, freeQueue, freeQueue.items, usedQueue, usedQueue.items
    {
      && ValidAbi(abi)
      && freeQueue != usedQueue && freeQueue.items != usedQueue.items
      && (Live() ==>
            && freeQueue.Valid() && usedQueue.Valid()
            && freeQueue.capacity == bufCount && usedQueue.capacity == bufCount)
    }

    ghost function Abs(): Pool
      requires Valid() && Live()
      reads this, freeQueue, freeQueue.items, usedQueue, usedQueue.items
    {
      Pool(bufCount, freeQueue.content, usedQueue.content)
    }

    // NULL is address 0.
    ghost function Layout(): (g: Geometry)
      reads this
      ensures rawBase.Some? ==> g.rawBase == rawBase.value
    {
      Geometry(if rawBase.Some? then rawBase.value else 0, rawSize, bufCount, bufSize)
    }

    // framebuffer_init. Before the first resize the queue pointers are NULL, which
    // queue.c treats like empty queues without room.
    constructor (abi: Abi, rawBase: Option<nat>, rawSize: nat, dynamic: bool)
      requires ValidAbi(abi)
      ensures Valid() && fresh(freeQueue) && fresh(freeQueue.items)
      ensures fresh(usedQueue) && fresh(usedQueue.items)
      ensures Live() && Abs() == Pool(0, [], [])
      ensures this.abi == abi && this.rawBase == rawBase && this.rawSize == rawSize && this.dynamic == dynamic
    {
      this.abi, this.rawBase, this.rawSize, this.dynamic := abi, rawBase, rawSize, dynamic;
      bufCount, bufSize, pixfmtValid := 0, 0, false;
      freeQueue := new Queue.Queue<nat>(0);
      usedQueue := new Queue.Queue<nat>(0);
      headers := map[];
    }

    method Flush()
      requires Valid() && Live()
      modifies this`pixfmtValid, freeQueue, freeQueue.items, usedQueue, this`headers
      ensures Valid() && Live()
      ensures Abs() == Flushed(bufCount)
      ensures !pixfmtValid && AllReset(headers, bufCount)
    {
      pixfmtValid := false;
      if bufCount != 0 {
        freeQueue.Flush();
        usedQueue.Flush();
      }
      for i := 0 to bufCount
        invariant Valid() && Live()
        invariant freeQueue.content == Indices(i)
        invariant usedQueue.content == []
        invariant !pixfmtValid && AllReset(headers, i)
      {
        FreeSlot(i);
      }
    }

    // The body of the loop over the slots.
    method FreeSlot(i: nat)
      requires Valid() && Live() && i < bufCount
      requires freeQueue.content == Indices(i) && AllReset(headers, i)
      modifies freeQueue`tail, freeQueue`content, freeQueue.items, this`headers
      ensures Valid() && freeQueue.content == Indices(i + 1) && AllReset(headers, i + 1)
    {
      OneMoreReset(headers, i);
      NextIndex(i);
      headers := headers[i := RESET];
      var pushed := freeQueue.Push(Some(i));
      assert pushed;
    }

    // framebuffer_resize. block is what uma_malign would return: an address, or
    // None when out of memory.
    method Resize(count: nat, frameSize: nat, block: Option<nat>) returns (code: int)
      requires Valid()
      modifies this, freeQueue, freeQueue.items, usedQueue
      ensures Valid()
      ensures code == if (if dynamic then block.Some? else MinSize(abi, count, frameSize) <= old(rawSize))
                      then 0 else -1
      ensures code == 0 ==>
                rawBase == (if dynamic then block else old(rawBase)) && (dynamic ==> rawBase.Some?) && Live()
                && Layout().count == count && Resized(abi, Layout(), frameSize, dynamic)
                && Abs() == Flushed(count)
                && !pixfmtValid && AllReset(headers, bufCount)
      // A failure leaves the sizes as they were, but a dynamic block is gone. With it go
      // queues of more than three buffers; smaller ones go on naming its buffers.
      ensures code != 0 ==>
                bufCount == old(bufCount) && bufSize == old(bufSize) && rawSize == old(rawSize)
                && rawBase == (if dynamic then None else old(rawBase))
                && (Live() <==> !dynamic || bufCount <= 3)
                && (Live() ==> Abs() == old(Abs()))
                && headers == old(headers) && freeQueue == old(freeQueue) && usedQueue == old(usedQueue)
    {
      var slot := SlotBytes(abi, frameSize);
      var minSize := MinSize(abi, count, frameSize);
      if dynamic {
        rawBase := None;
        if block.None? {
          return -1;
        }
        rawSize := minSize;
        rawBase := block;
      }
      if minSize > rawSize {
        return -1;
      }
      Start(count, slot - abi.vbuffer);
      return 0;
    }

    // The two queue_init calls.
    method NewQueues(count: nat)
      requires ValidAbi(abi) && bufCount == count
      modifies this`freeQueue, this`usedQueue
      ensures Valid() && fresh(freeQueue) && fresh(freeQueue.items)
      ensures fresh(usedQueue) && fresh(usedQueue.items)
    {
      freeQueue := new Queue.Queue<nat>(count);
      usedQueue := new Queue.Queue<nat>(count);
    }

    // The part of framebuffer_resize that cannot fail.
    method Start(count: nat, size: nat)
      requires ValidAbi(abi) && (dynamic ==> rawBase.Some?)
      modifies this`bufCount, this`bufSize, this`freeQueue, this`usedQueue, this`pixfmtValid, this`headers
      ensures Valid() && Live() && fresh(freeQueue) && fresh(freeQueue.items)
      ensures fresh(usedQueue) && fresh(usedQueue.items)
      ensures bufCount == count && bufSize == size && Abs() == Flushed(count)
      ensures !pixfmtValid && AllReset(headers, bufCount)
    {
      bufCount := count;
      bufSize := size;
      NewQueues(count);
      Flush();
    }

    method Acquire(flags: Flags) returns (buffer: Option<nat>)
      requires Valid() && Live()
      modifies freeQueue`head, freeQueue`content, usedQueue`head, usedQueue`content
      ensures Valid()
      ensures (Abs(), buffer) == AcquirePool(old(Abs()), flags)
    {
      if flags.used {
        buffer := usedQueue.Pop(flags.peek);
      } else {
        buffer := freeQueue.Pop(flags.peek);
      }
    }

    ghost function Stale(): nat
      requires Valid() && Live()
      reads this, freeQueue, freeQueue.items, usedQueue, usedQueue.items
    {
      usedQueue.InLastSlot()
    }

    // The FB_FLAG_CHECK_LAST part of framebuffer_release.
    method KeepLast(flags: Flags) returns (kept: bool)
      requires Valid() && Live()
      modifies freeQueue`head, freeQueue`content, freeQueue.items, usedQueue`content, usedQueue.items, this`headers
      ensures Valid()
      ensures kept == (HoldsLast(old(Abs()), flags) || SwapsLast(old(Abs()), flags))
      ensures kept ==> (Abs(), None) == ReleasePool(old(Abs()), flags, old(Stale()))
                       && headers == ResetAt(old(headers), ResetBy(old(Abs()), flags, old(Stale())))
      ensures kept <==> flags.checkLast && |old(freeQueue.content)| == 1 && (bufCount == 2 || bufCount == 3)
      ensures kept ==> |freeQueue.content| == 1 && headers == old(headers)[freeQueue.content[0] := RESET]
      ensures !kept ==> Abs() == old(Abs()) && headers == old(headers)
    {
      var n := freeQueue.Size();
      if !flags.checkLast || n != 1 {
        return false;
      }
      if bufCount == 2 {
        var last := freeQueue.Pop(true);
        headers := headers[last.value := RESET];
        return true;
      } else if bufCount == 3 {
        SwapLast();
        return true;
      }
      return false;
    }

    // The triple-buffer branch: swap the old buffer with the latest.
    method SwapLast()
      requires Valid() && Live() && |freeQueue.content| == 1
      modifies freeQueue`content, freeQueue.items, usedQueue`content, usedQueue.items, this`headers
      ensures Valid() && Abs() == Swapped(old(Abs()), old(Stale()))
      ensures headers == old(headers)[
                if old(usedQueue.content) == [] then old(Stale())
                else old(usedQueue.content)[|old(usedQueue.content)| - 1] := RESET]
    {
      ghost var p := Abs();
      var last := Queue.Swap(usedQueue, freeQueue);
      SwappedIs(p, last, Abs());
      headers := headers[last := RESET];
    }

    // The rest of framebuffer_release, once a buffer was acquired.
    method PutBack(flags: Flags, b: nat)
      requires Valid() && Live()
      modifies this`pixfmtValid, this`headers
      modifies freeQueue`tail, freeQueue`content, freeQueue.items
      modifies usedQueue`tail, usedQueue`content, usedQueue.items
      ensures Valid()
      ensures Abs() == PutBackPool(old(Abs()), flags, b)
      ensures pixfmtValid == (old(pixfmtValid) && !flags.used)
      ensures headers == if flags.used then old(headers)[b := RESET] else old(headers)
    {
      if flags.used {
        pixfmtValid := false;
        headers := headers[b := RESET];
        var _ := freeQueue.Push(Some(b));
      } else {
        var _ := usedQueue.Push(Some(b));
      }
    }

    // The part of framebuffer_release after CHECK_LAST.
    method Move(flags: Flags) returns (buffer: Option<nat>)
      requires Valid() && Live()
      requires !HoldsLast(Abs(), flags) && !SwapsLast(Abs(), flags)
      modifies this`pixfmtValid, freeQueue, freeQueue.items, usedQueue, usedQueue.items, this`headers
      ensures Valid()
      ensures (Abs(), buffer) == ReleasePool(old(Abs()), flags, old(Stale()))
      ensures pixfmtValid == (old(pixfmtValid) && !(flags.used && buffer.Some?))
      ensures headers == ResetAt(old(headers), ResetBy(old(Abs()), flags, old(Stale())))
    {
      ghost var p, stale := Abs(), Stale();
      ReleaseInSteps(p, flags, stale);
      buffer := Acquire(flags);
      ghost var p1 := AcquirePool(p, flags).0;
      assert Abs() == p1 && headers == old(headers) && pixfmtValid == old(pixfmtValid);
      if buffer.Some? {
        PutBack(flags, buffer.value);
        assert Abs() == PutBackPool(p1, flags, buffer.value);
      }
    }

    // framebuffer_release.
    method Release(flags: Flags) returns (buffer: Option<nat>)
      requires Valid() && Live()
      modifies this`pixfmtValid, freeQueue, freeQueue.items, usedQueue, usedQueue.items, this`headers
      ensures Valid()
      ensures (Abs(), buffer) == ReleasePool(old(Abs()), flags, old(Stale()))
      ensures pixfmtValid == (old(pixfmtValid) && !(flags.used && buffer.Some?))
      ensures headers == ResetAt(old(headers), ResetBy(old(Abs()), flags, old(Stale())))
      ensures buffer.Some? && flags.used ==> headers == old(headers)[buffer.value := RESET]
    {
      buffer := None;
      var kept := KeepLast(flags);
      if !kept {
        buffer := Move(flags);
      }
    }
  }

  // After a dynamic resize that found no memory, a pool of up to three buffers still hands
  // out what it handed out before, although its raw block is freed.
  method AcquireAfterFailedResize(fb: FrameBuffer, count: nat, frameSize: nat, flags: Flags)
    returns (code: int, buffer: Option<nat>)
    requires fb.Valid() && fb.dynamic && fb.bufCount <= 3
    modifies fb, fb.freeQueue, fb.freeQueue.items, fb.usedQueue, fb.usedQueue.items
    ensures code == -1 && fb.rawBase == None
    ensures fb.Valid() && fb.Live() && (fb.Abs(), buffer) == AcquirePool(old(fb.Abs()), flags)
    ensures buffer.Some? <==> Source(old(fb.Abs()), flags) != []
  {
    code := fb.Resize(count, frameSize, None);
    buffer := fb.Acquire(flags);
  }
}
