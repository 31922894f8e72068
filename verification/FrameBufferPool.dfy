// framebuffer.c's pool as a value: what each operation does to its two queues.
module FrameBufferPool {
  import opened Common

  // framebuffer_flags_t: FB_FLAG_USED (else FREE), FB_FLAG_PEEK, FB_FLAG_CHECK_LAST.
  datatype Flags = Flags(used: bool, peek: bool, checkLast: bool)

  datatype Pool = Pool(count: nat, free: seq<nat>, used: seq<nat>)

  function Indices(n: nat): (s: seq<nat>)
    ensures |s| == n && forall i :: 0 <= i < n ==> s[i] == i
  {
    if n == 0 then [] else Indices(n - 1) + [n - 1]
  }

  function Flushed(count: nat): Pool {
    Pool(count, Indices(count), [])
  }

  function Source(p: Pool, flags: Flags): seq<nat> {
    if flags.used then p.used else p.free
  }

  function AcquirePool(p: Pool, flags: Flags): (Pool, Option<nat>) {
    var q := Source(p, flags);
    if q == [] then (p, None)
    else if flags.peek then (p, Some(q[0]))
    else if flags.used then (p.(used := q[1..]), Some(q[0]))
    else (p.(free := q[1..]), Some(q[0]))
  }

  function Pushed(q: seq<nat>, b: nat, capacity: nat): seq<nat> {
    if |q| < capacity then q + [b] else q
  }

  function PutBackPool(p: Pool, flags: Flags, b: nat): Pool {
    if flags.used then p.(free := Pushed(p.free, b, p.count))
    else p.(used := Pushed(p.used, b, p.count))
  }

  // The two branches of FB_FLAG_CHECK_LAST.
  predicate HoldsLast(p: Pool, flags: Flags) {
    flags.checkLast && |p.free| == 1 && p.count == 2
  }

  predicate SwapsLast(p: Pool, flags: Flags) {
    flags.checkLast && |p.free| == 1 && p.count == 3
  }

  // stale is what is left in the used queue's last slot when that queue is empty; the
  // triple-buffer swap reads it without a check.
  function ReleasePool(p: Pool, flags: Flags, stale: nat): (Pool, Option<nat>) {
    if HoldsLast(p, flags) then (p, None)
    else if SwapsLast(p, flags) then (Swapped(p, stale), None)
    else
      var (p1, b) := AcquirePool(p, flags);
      if b.None? then (p1, None)
      else (PutBackPool(p1, flags, b.value), b)
  }

  function Swapped(p: Pool, stale: nat): Pool
    requires p.free != []
  {
    if p.used == [] then p.(free := p.free[0 := stale])
    else
      var n := |p.used| - 1;
      p.(used := p.used[..n] + [p.free[0]], free := p.free[0 := p.used[n]])
  }

  lemma ReleaseInSteps(p: Pool, flags: Flags, stale: nat)
    requires !HoldsLast(p, flags) && !SwapsLast(p, flags)
    ensures var (p1, b) := AcquirePool(p, flags);
            ReleasePool(p, flags, stale) == (if b.None? then p1 else PutBackPool(p1, flags, b.value), b)
            && ResetBy(p, flags, stale) == if flags.used then b else None
  {
  }

  // The buffer whose header a release clears.
  function ResetBy(p: Pool, flags: Flags, stale: nat): Option<nat> {
    if HoldsLast(p, flags) then Some(p.free[0])
    else if SwapsLast(p, flags) then Some(if p.used == [] then stale else p.used[|p.used| - 1])
    else if flags.used && p.used != [] then Some(p.used[0])
    else None
  }
}
