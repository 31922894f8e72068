// mphalport.c: the bounded capture of a run's output, cut at a UTF-8 boundary.
module OutputCapture {
  import opened Common
  import opened Utf8

  const BUF_SIZE: nat := 128 * 1024
  const CAPACITY: nat := BUF_SIZE - 1   // one byte is kept for the NUL

  // "[truncated]" in ASCII.
  const MARKER: seq<byte> := [91, 116, 114, 117, 110, 99, 97, 116, 101, 100, 93]
  const DOT: byte := 46

  function Dots(n: nat): (s: seq<byte>)
    ensures |s| == n && forall i :: 0 <= i < n ==> s[i] == DOT
  {
    seq(n, _ => DOT)
  }

  // ---- the simple form ----

  // One write: as much of str as still fits.
  function Stored(captured: seq<byte>, str: seq<byte>): seq<byte> {
    if |captured| >= CAPACITY then captured
    else captured + str[..Min(|str|, CAPACITY - |captured|)]
  }

  // Back from pos to a byte that starts a character, or to 0.
  function CutFrom(s: seq<byte>, pos: nat): (r: nat)
    requires pos < |s|
    ensures r <= pos && (r == 0 || !IsContinuation(s[r]))
    ensures forall i :: r < i <= pos ==> IsContinuation(s[i])
  {
    if pos > 0 && IsContinuation(s[pos]) then CutFrom(s, pos - 1) else pos
  }

  // The whole characters up to the cut, dots, and the marker; as long as s.
  function Truncated(s: seq<byte>): (r: seq<byte>)
    requires |s| > |MARKER|
    ensures |r| == |s|
  {
    var cut := CutFrom(s, |s| - |MARKER| - 1);
    s[..cut] + Dots(|s| - |MARKER| - cut) + MARKER
  }

  function Shown(captured: seq<byte>): seq<byte> {
    if |captured| == CAPACITY then Truncated(captured) else captured
  }

  // ---- the code ----

  class OutputCapture {
    const buf: array<byte>
    var len: nat
    var hasCallback: bool
    ghost var chunks: seq<seq<byte>>    // what the chunk callback was given
    ghost var written: seq<byte>        // all bytes written since the last clear
    ghost var shownFull: bool           // a full buffer was read since the last clear

    ghost predicate Valid()
      reads this, buf
    {
      && buf.Length == BUF_SIZE && len == Min(|written|, CAPACITY)
      && (shownFull ==> len == CAPACITY)
      && buf[..len] == if shownFull then Truncated(written[..len]) else written[..len]
    }

    constructor ()
      ensures Valid() && fresh(buf) && written == [] && !shownFull && chunks == [] && !hasCallback
    {
      buf := new byte[BUF_SIZE];
      len, hasCallback, chunks, written, shownFull := 0, false, [], [], false;
    }

    method Clear()
      requires Valid()
      modifies this`len, this`written, this`shownFull
      ensures Valid() && written == [] && !shownFull
    {
      len := 0;
      written, shownFull := [], false;
    }

    method SetCallback(set_: bool)
      requires Valid()
      modifies this`hasCallback
      ensures Valid() && hasCallback == set_
    {
      hasCallback := set_;
    }

    // mp_hal_stdout_tx_strn_cooked. The callback sees the whole write, stored or not.
    method Write(str: seq<byte>)
      requires Valid()
      modifies this`len, this`chunks, this`written, buf
      ensures Valid() && written == old(written) + str
      ensures buf[..len] == Stored(old(buf[..len]), str)
      ensures chunks == if hasCallback && str != [] then old(chunks) + [str] else old(chunks)
    {
      var copyLen := |str|;
      var space := BUF_SIZE - 1 - len;
      if copyLen > space {
        copyLen := space;
      }
      ghost var before := buf[..len];
      assert written[..len] == (written + str)[..len];
      if copyLen > 0 {
        forall i | 0 <= i < copyLen {
          buf[len + i] := str[i];
        }
        assert buf[..len] == before;
        assert buf[..len + copyLen] == before + str[..copyLen];
        len := len + copyLen;
      }
      written := written + str;
      assert !shownFull ==> buf[..len] == written[..len];
      if hasCallback && |str| > 0 {
        chunks := chunks + [str];
      }
    }

    // mp_embed_output_get: overwrites the tail of a full buffer in place.
    method Get() returns (output: seq<byte>)
      requires Valid()
      modifies this`shownFull, buf
      ensures Valid() && shownFull == (old(shownFull) || len == CAPACITY)
      ensures output == buf[..len] == Shown(old(buf[..len]))
      ensures buf[len] == 0
    {
      ghost var before := buf[..len];
      if len == BUF_SIZE - 1 {
        var pos := len - |MARKER| - 1;
        while pos > 0 && IsContinuation(buf[pos])
          invariant 0 <= pos < len - |MARKER|
          invariant CutFrom(before, pos) == CutFrom(before, len - |MARKER| - 1)
        {
          pos := pos - 1;
        }
        FillTail(pos);
        assert buf[..len] == Truncated(before);
        if shownFull {
          TruncatedTwice(written[..len]);
        }
        shownFull := true;
      }
      ghost var shown := buf[..len];
      buf[len] := 0;
      assert buf[..len] == shown;
      output := buf[..len];
    }

    // The memset of dots from pos and the memcpy of the marker over their end.
    method FillTail(pos: nat)
      requires buf.Length == BUF_SIZE && len == CAPACITY && pos < len - |MARKER|
      modifies buf
      ensures buf[..len] == old(buf[..pos]) + Dots(len - |MARKER| - pos) + MARKER
    {
      forall i | pos <= i < len {
        buf[i] := DOT;
      }
      forall i | 0 <= i < |MARKER| {
        buf[len - |MARKER| + i] := MARKER[i];
      }
    }
  }

  // ---- what it means ----

  lemma TruncatedTwice(s: seq<byte>)
    requires |s| > |MARKER|
    ensures Truncated(Truncated(s)) == Truncated(s)
  {
    var t := Truncated(s);
    assert t[|s| - |MARKER| - 1] == DOT;
    assert CutFrom(t, |s| - |MARKER| - 1) == |s| - |MARKER| - 1;
  }

  // In a prefix of valid text, the cut is the last character boundary at or before
  // limit, at most 3 bytes back.
  lemma CutMeaning(written: seq<byte>, s: seq<byte>, limit: nat) returns (cut: nat)
    requires ValidUtf8(written) && s <= written && limit < |s|
    ensures cut == CutFrom(s, limit) && limit - 3 <= cut <= limit
    ensures ValidUtf8(s[..cut])
    ensures forall longer :: cut < longer <= limit ==> !ValidUtf8(s[..longer])
  {
    cut := CutFrom(s, limit);
    var start := CharStartNear(written, limit);
    PrefixValidIff(written, 0);
    PrefixValidIff(written, cut);
    assert written[..cut] == s[..cut];
    forall longer | cut < longer <= limit
      ensures !ValidUtf8(s[..longer])
    {
      PrefixValidIff(written, longer);
      assert written[..longer] == s[..longer];
    }
  }

  lemma MarkedValid(kept: seq<byte>, dots: nat)
    requires ValidUtf8(kept)
    ensures ValidUtf8(kept + Dots(dots) + MARKER)
  {
    AsciiValid(Dots(dots));
    AsciiValid(MARKER);
    AppendValid(kept, Dots(dots));
    AppendValid(kept + Dots(dots), MARKER);
  }

  // For a buffer that holds a prefix of valid UTF-8: the output keeps the longest run
  // of whole characters that ends by byte len - 12, then 1 to 4 dots and the marker,
  // and is itself valid UTF-8 of the same length.
  lemma TruncatedMeaning(written: seq<byte>, s: seq<byte>) returns (cut: nat, dots: nat)
    requires ValidUtf8(written) && s <= written && |s| > |MARKER|
    ensures cut + dots + |MARKER| == |s| && 1 <= dots <= 4
    ensures Truncated(s) == s[..cut] + Dots(dots) + MARKER
    ensures ValidUtf8(s[..cut])
    ensures forall longer :: cut < longer < |s| - |MARKER| ==> !ValidUtf8(s[..longer])
    ensures ValidUtf8(Truncated(s)) && |Truncated(s)| == |s|
  {
    cut := CutMeaning(written, s, |s| - |MARKER| - 1);
    dots := |s| - |MARKER| - cut;
    MarkedValid(s[..cut], dots);
  }

  function Flatten(writes: seq<seq<byte>>): seq<byte> {
    if writes == [] then [] else writes[0] + Flatten(writes[1..])
  }

  function StoredAll(captured: seq<byte>, writes: seq<seq<byte>>): seq<byte>
    decreases |writes|
  {
    if writes == [] then captured else StoredAll(Stored(captured, writes[0]), writes[1..])
  }

  // However the output is cut into writes, the buffer holds its first CAPACITY bytes.
  lemma {:induction false} StoredIsPrefix(captured: seq<byte>, writes: seq<seq<byte>>)
    requires |captured| <= CAPACITY
    ensures var all := captured + Flatten(writes);
            StoredAll(captured, writes) == all[..Min(|all|, CAPACITY)]
    decreases |writes|
  {
    if writes != [] {
      StoredIsPrefix(Stored(captured, writes[0]), writes[1..]);
      var all := captured + Flatten(writes);
      var rest := Flatten(writes[1..]);
      assert all == captured + writes[0] + rest;
      var all1 := Stored(captured, writes[0]) + rest;
      if |captured| + |writes[0]| <= CAPACITY {
        assert all1 == all;
      } else {
        assert all1[..CAPACITY] == Stored(captured, writes[0]) == all[..CAPACITY];
      }
    }
  }

  // Main result, for every sequence of writes whose bytes together are valid UTF-8:
  // what a script's caller reads back is all of it, or, from CAPACITY bytes on, valid
  // UTF-8 of exactly CAPACITY bytes; and reading again shows the same.
  lemma OutputIsValidUtf8(writes: seq<seq<byte>>)
    requires ValidUtf8(Flatten(writes))
    ensures var captured := StoredAll([], writes);
            && captured <= Flatten(writes)
            && ValidUtf8(Shown(captured)) && |Shown(captured)| == |captured|
            && (|Flatten(writes)| < CAPACITY ==> Shown(captured) == Flatten(writes))
            && Shown(Shown(captured)) == Shown(captured)
  {
    var all, captured := Flatten(writes), StoredAll([], writes);
    assert [] + all == all;
    StoredIsPrefix([], writes);
    if |captured| == CAPACITY {
      var _, _ := TruncatedMeaning(all, captured);
      TruncatedTwice(captured);
    } else {
      assert captured == all;
    }
  }

  // A full buffer is left as it is exactly when it ends like truncated output already.
  lemma TruncatedSameIff(s: seq<byte>)
    requires |s| > |MARKER|
    ensures Truncated(s) == s <==> s[|s| - |MARKER| - 1..] == [DOT] + MARKER
  {
    var limit := |s| - |MARKER| - 1;
    var t := Truncated(s);
    assert t[limit..] == [DOT] + MARKER;
    if s[limit..] == [DOT] + MARKER {
      assert s[limit] == DOT && s[limit + 1..] == s[limit..][1..] == MARKER;
      assert t == s[..limit] + Dots(1) + MARKER;
      assert Dots(1) == [DOT];
      assert s == s[..limit] + s[limit..];
    }
  }

  // For every sequence of writes: the output is shown as it is exactly when it is shorter
  // than the buffer, or fills it exactly and ends in ".[truncated]" by itself. So output
  // of exactly CAPACITY bytes, all of it stored, is still marked as cut.
  lemma ShownUnchangedIff(writes: seq<seq<byte>>)
    ensures var all := Flatten(writes);
            && (|all| <= CAPACITY ==> StoredAll([], writes) == all)
            && (Shown(StoredAll([], writes)) == all
                <==> |all| < CAPACITY
                     || (|all| == CAPACITY && all[CAPACITY - |MARKER| - 1..] == [DOT] + MARKER))
  {
    var all, captured := Flatten(writes), StoredAll([], writes);
    assert [] + all == all;
    StoredIsPrefix([], writes);
    if |all| >= CAPACITY {
      assert |captured| == |Shown(captured)| == CAPACITY;
      if |all| == CAPACITY {
        assert captured == all;
        TruncatedSameIff(all);
      }
    } else {
      assert captured == all;
    }
  }

  // ---- output that is not UTF-8 ----

  // For any bytes: the cut is at most 3 bytes back exactly when one of the last four up
  // to the limit is no continuation byte.
  lemma CutNearIff(s: seq<byte>, limit: nat)
    requires 3 < limit < |s|
    ensures limit - 3 <= CutFrom(s, limit) <==> exists i :: limit - 3 <= i <= limit && !IsContinuation(s[i])
  {
    var cut := CutFrom(s, limit);
    if limit - 3 <= cut {
      assert !IsContinuation(s[cut]);
    }
  }

  // So a full buffer is shown with 1 to 4 dots exactly then, and with more otherwise.
  lemma DotsIff(s: seq<byte>) returns (cut: nat, dots: nat)
    requires |s| == CAPACITY
    ensures cut + dots + |MARKER| == |s| && 1 <= dots
    ensures Truncated(s) == s[..cut] + Dots(dots) + MARKER
    ensures dots <= 4 <==> exists i :: |s| - |MARKER| - 4 <= i < |s| - |MARKER| && !IsContinuation(s[i])
  {
    var limit := |s| - |MARKER| - 1;
    cut := CutFrom(s, limit);
    dots := |s| - |MARKER| - cut;
    CutNearIff(s, limit);
  }

  // A full buffer of continuation bytes is shown as dots and the marker, and nothing else.
  lemma NothingButDots(s: seq<byte>)
    requires |s| == CAPACITY && forall i :: 0 <= i < |s| ==> IsContinuation(s[i])
    ensures Truncated(s) == Dots(|s| - |MARKER|) + MARKER
  {
    assert s[..CutFrom(s, |s| - |MARKER| - 1)] == [];
  }
}
