// mphalport.c: the stdin FIFO that the UI and adb fill and the interpreter empties.
// Every operation runs under stdin_lock, so each is one step.
module StdinFifo {
  import opened Common

  const FIFO_SIZE: nat := 64 * 1024

  // ---- the simple form: a byte sequence ----

  // The bytes of data a push takes: the longest prefix that fits.
  function Accepted(content: seq<byte>, data: seq<byte>): (r: seq<byte>)
    ensures r <= data && (r == data || |content| + |r| >= FIFO_SIZE)
  {
    if |content| >= FIFO_SIZE then [] else data[..Min(|data|, FIFO_SIZE - |content|)]
  }

  // ---- the code ----

  // The slot i places after head.
  function Slot(head: nat, i: nat): (r: nat)
    requires head < FIFO_SIZE && i <= FIFO_SIZE
    ensures r < FIFO_SIZE && r == (head + i) % FIFO_SIZE
  {
    if head + i < FIFO_SIZE then head + i else head + i - FIFO_SIZE
  }

  ghost predicate Holds(s: seq<byte>, buf: seq<byte>, head: nat, from: nat)
    requires |buf| == FIFO_SIZE && head < FIFO_SIZE && from + |s| <= FIFO_SIZE
  {
    forall i :: 0 <= i < |s| ==> s[i] == buf[Slot(head, from + i)]
  }

  class StdinFifo {
    const buf: array<byte>
    var head: nat
    var len: nat
    var scriptActive: bool
    var waiting: bool
    ghost var told: seq<bool>       // calls of the waiting callback
    ghost var content: seq<byte>

    ghost predicate Valid()
      reads this, buf
    {
      && buf.Length == FIFO_SIZE && head < FIFO_SIZE && len == |content| <= FIFO_SIZE
      && Holds(content, buf[..], head, 0)
      && (!scriptActive ==> len == 0)
      && (told == [] ==> !waiting) && (told != [] ==> told[|told| - 1] == waiting)
      && forall i :: 0 <= i < |told| ==> told[i] == (i % 2 == 0)
    }

    constructor ()
      ensures Valid() && fresh(buf) && content == [] && !scriptActive && told == []
    {
      buf := new byte[FIFO_SIZE];
      head, len, scriptActive, waiting, told, content := 0, 0, false, false, [], [];
    }

    // stdin_set_waiting: the callback hears changes only, so true and false alternate.
    method SetWaiting(w: bool)
      requires Valid()
      modifies this`waiting, this`told
      ensures Valid() && waiting == w
      ensures told == if w == old(waiting) then old(told) else old(told) + [w]
    {
      if waiting != w {
        assert w == (|told| % 2 == 0);
        waiting := w;
        told := told + [w];
      }
    }

    // mp_android_script_active
    method ScriptActive(active: bool)
      requires Valid()
      modifies this`scriptActive, this`len, this`content, this`waiting, this`told
      ensures Valid() && scriptActive == active && content == []
      ensures waiting == (active && old(waiting))
    {
      scriptActive := active;
      len := 0;
      content := [];
      if !active {
        SetWaiting(false);
      }
    }

    // mp_android_stdin_clear: head stays where it is.
    method Clear()
      requires Valid()
      modifies this`len, this`content
      ensures Valid() && content == []
    {
      len := 0;
      content := [];
    }

    // mp_android_stdin_push
    method Push(data: seq<byte>) returns (n: int)
      requires Valid()
      modifies this`len, this`content, buf
      ensures Valid()
      ensures !scriptActive ==> n == -1 && content == old(content)
      ensures scriptActive ==>
                n == |Accepted(old(content), data)|
                && content == old(content) + Accepted(old(content), data)
                && (n == |data| || |content| == FIFO_SIZE)
    {
      if !scriptActive {
        return -1;
      }
      n := FIFO_SIZE - len;
      if n > |data| {
        n := |data|;
      }
      for i := 0 to n
        invariant len == old(len) && content == old(content)
        invariant Holds(content, buf[..], head, 0)
        invariant Holds(data[..i], buf[..], head, len)
      {
        assert (head + len + i) % FIFO_SIZE == Slot(head, len + i);
        buf[(head + len + i) % FIFO_SIZE] := data[i];
        assert Holds(data[..i + 1], buf[..], head, len);
      }
      content := content + data[..n];
      len := len + n;
    }

    // mp_android_stdin_read_available, returning the bytes put into the caller's buffer.
    method ReadAvailable(max: nat) returns (out: seq<byte>)
      requires Valid()
      modifies this`head, this`len, this`content
      ensures Valid()
      ensures |out| == Min(|old(content)|, max) && out + content == old(content)
    {
      var n := if len < max then len else max;
      out := [];
      for i := 0 to n
        invariant out == content[..i]
      {
        assert (head + i) % FIFO_SIZE == Slot(head, 0 + i);
        out := out + [buf[(head + i) % FIFO_SIZE]];
      }
      ghost var newHead := Slot(head, n);
      forall i | 0 <= i < len - n
        ensures content[n..][i] == buf[Slot(newHead, 0 + i)]
      {
        assert content[n + i] == buf[Slot(head, 0 + (n + i))];
      }
      head := (head + n) % FIFO_SIZE;
      len := len - n;
      content := content[n..];
    }

    // mp_hal_stdio_poll, for the read flag.
    method PollReadable() returns (ready: bool)
      requires Valid()
      ensures ready <==> content != []
    {
      ready := len > 0;
    }
  }
}
