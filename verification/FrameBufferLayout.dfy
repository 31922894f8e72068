// framebuffer.c: where the queues and the buffers lie in the raw memory block.
module FrameBufferLayout {
  import opened Arithmetic

  // Sizes the C compiler and the board headers fix: sizeof(void *), sizeof(queue_t),
  // sizeof(vbuffer_t) and FRAMEBUFFER_ALIGNMENT.
  datatype Abi = Abi(pointer: nat, queueHeader: nat, vbuffer: nat, alignment: nat)

  ghost predicate ValidAbi(abi: Abi) {
    abi.pointer > 0 && abi.vbuffer > 0 && abi.alignment > 0
  }

  // framebuffer_t's raw_base, raw_size, buf_count and buf_size.
  datatype Geometry = Geometry(rawBase: nat, rawSize: nat, count: nat, bufSize: nat)

  // OMV_ALIGN_TO: the least multiple of alignment at or above x.
  function AlignTo(x: nat, alignment: nat): (r: nat)
    requires alignment > 0
  {
    AlignToBounds(x, alignment);
    (x + (alignment - 1)) / alignment * alignment
  }

  lemma AlignToBounds(x: nat, alignment: nat)
    requires alignment > 0
    ensures var r := (x + (alignment - 1)) / alignment * alignment;
            r % alignment == 0 && x <= r < x + alignment
  {
    var y := x + (alignment - 1);
    assert y == y / alignment * alignment + y % alignment;
    DivModUnique(y / alignment, 0, alignment);
  }

  lemma SlotEnd(slot: nat, i: nat, j: nat)
    requires i < j
    ensures 0 <= slot * i && slot * i + slot <= slot * j
  {
    MulMonotone(i + 1, j, slot);
    MulMonotone(0, i, slot);
    assert (i + 1) * slot == i * slot + slot;
  }

  function QueueBytes(abi: Abi, count: nat): nat {
    abi.queueHeader + (count + 1) * abi.pointer
  }

  // framebuffer_resize's buf_size and min_size.
  function SlotBytes(abi: Abi, frameSize: nat): (r: nat)
    requires ValidAbi(abi)
    ensures r >= frameSize + abi.vbuffer
  {
    AlignToBounds(frameSize + abi.vbuffer, abi.alignment);
    AlignTo(frameSize + abi.vbuffer, abi.alignment)
  }

  function MinSize(abi: Abi, count: nat, frameSize: nat): nat
    requires ValidAbi(abi)
  {
    SlotBytes(abi, frameSize) * count + QueueBytes(abi, count) * 2
  }

  function PoolStart(abi: Abi, g: Geometry): nat
    requires ValidAbi(abi)
  {
    var qsize := if g.count <= 3 then 0 else QueueBytes(abi, g.count);
    g.rawBase + AlignTo(qsize * 2, abi.alignment)
  }

  function PoolGet(abi: Abi, g: Geometry, index: nat): nat
    requires ValidAbi(abi)
  {
    PoolStart(abi, g) + (g.bufSize + abi.vbuffer) * index
  }

  function PoolEnd(abi: Abi, g: Geometry): nat
    requires ValidAbi(abi)
  {
    PoolStart(abi, g) + (g.bufSize + abi.vbuffer) * g.count
  }

  // What a successful framebuffer_resize leaves behind.
  ghost predicate Resized(abi: Abi, g: Geometry, frameSize: nat, dynamic: bool)
    requires ValidAbi(abi)
  {
    && g.bufSize == SlotBytes(abi, frameSize) - abi.vbuffer
    && MinSize(abi, g.count, frameSize) <= g.rawSize
    && (dynamic ==> g.rawSize == MinSize(abi, g.count, frameSize))
  }

  // Bytes lost to aligning the pool after the two queues.
  function Padding(abi: Abi, count: nat): (r: nat)
    requires ValidAbi(abi)
    ensures r < abi.alignment
  {
    AlignToBounds(QueueBytes(abi, count) * 2, abi.alignment);
    AlignTo(QueueBytes(abi, count) * 2, abi.alignment) - QueueBytes(abi, count) * 2
  }

  lemma MultipleOf(a: nat, b: nat, i: nat, d: nat)
    requires d > 0 && a % d == 0 && b % d == 0
    ensures 0 <= b * i && (a + b * i) % d == 0
  {
    MulMonotone(0, b, i);
    var n := a / d + b / d * i;
    assert a == a / d * d && b == b / d * d;
    assert a + b * i == n * d + 0;
    DivModUnique(n, 0, d);
  }

  // Every slot of an aligned block is aligned, at the cost of less than one alignment unit each.
  lemma SlotsAligned(abi: Abi, g: Geometry, frameSize: nat, dynamic: bool, i: nat)
    requires ValidAbi(abi) && Resized(abi, g, frameSize, dynamic)
    requires g.rawBase % abi.alignment == 0 && i <= g.count
    ensures PoolGet(abi, g, i) % abi.alignment == 0
    ensures g.bufSize < frameSize + abi.alignment
  {
    var qsize := if g.count <= 3 then 0 else QueueBytes(abi, g.count);
    AlignToBounds(qsize * 2, abi.alignment);
    AlignToBounds(frameSize + abi.vbuffer, abi.alignment);
    MultipleOf(g.rawBase, AlignTo(qsize * 2, abi.alignment), 1, abi.alignment);
    MultipleOf(PoolStart(abi, g), g.bufSize + abi.vbuffer, i, abi.alignment);
  }

  // Slot i holds its header and at least frameSize bytes, before slot j begins and
  // before the pool ends.
  lemma SlotsDisjoint(abi: Abi, g: Geometry, frameSize: nat, dynamic: bool, i: nat, j: nat)
    requires ValidAbi(abi) && Resized(abi, g, frameSize, dynamic)
    requires i < j <= g.count
    ensures g.bufSize >= frameSize
    ensures PoolStart(abi, g) <= PoolGet(abi, g, i)
    ensures PoolGet(abi, g, i) + abi.vbuffer + g.bufSize
            <= if j == g.count then PoolEnd(abi, g) else PoolGet(abi, g, j)
  {
    SlotEnd(g.bufSize + abi.vbuffer, i, j);
  }

  // Up to three buffers, the queues are in static memory (sized for three) and the
  // pool starts at the raw block and ends inside it.
  lemma SmallPoolFits(abi: Abi, g: Geometry, frameSize: nat, dynamic: bool)
    requires ValidAbi(abi) && Resized(abi, g, frameSize, dynamic) && g.count <= 3
    ensures PoolStart(abi, g) == g.rawBase && PoolEnd(abi, g) <= g.rawBase + g.rawSize
    ensures QueueBytes(abi, g.count) * 2 <= QueueBytes(abi, 3) * 2
  {
    AlignToBounds(0, abi.alignment);
    SameMultiple(0, AlignTo(0, abi.alignment), abi.alignment);
    assert (g.bufSize + abi.vbuffer) * g.count == SlotBytes(abi, frameSize) * g.count;
    assert (g.count + 1) * abi.pointer <= 4 * abi.pointer;
  }

  // Above three buffers, the queues end before the pool starts, and the pool ends at
  // min_size plus the padding. So the size check in framebuffer_resize (against
  // min_size) keeps the pool inside the raw block exactly when the block has the
  // padding to spare; a dynamic block, of exactly min_size, never does unless the
  // padding is 0.
  lemma BigPoolEnd(abi: Abi, g: Geometry, frameSize: nat, dynamic: bool)
    requires ValidAbi(abi) && Resized(abi, g, frameSize, dynamic) && g.count > 3
    ensures g.rawBase + QueueBytes(abi, g.count) * 2 <= PoolStart(abi, g)
    ensures PoolEnd(abi, g) == g.rawBase + MinSize(abi, g.count, frameSize) + Padding(abi, g.count)
    ensures PoolEnd(abi, g) <= g.rawBase + g.rawSize
            <==> MinSize(abi, g.count, frameSize) + Padding(abi, g.count) <= g.rawSize
    ensures dynamic ==> (PoolEnd(abi, g) <= g.rawBase + g.rawSize <==> Padding(abi, g.count) == 0)
    ensures Padding(abi, g.count) == 0 <==> (QueueBytes(abi, g.count) * 2) % abi.alignment == 0
  {
    assert (g.bufSize + abi.vbuffer) * g.count == SlotBytes(abi, frameSize) * g.count;
    var q := QueueBytes(abi, g.count) * 2;
    AlignToBounds(q, abi.alignment);
    if q % abi.alignment == 0 {
      SameMultiple(q, AlignTo(q, abi.alignment), abi.alignment);
    }
  }

  // On a 64-bit target with 64-byte lines the padding is 0 just when count is a
  // multiple of 4: a dynamic pool of 5 buffers already overruns its block.
  lemma PaddingOn64Bit(count: nat, vbuffer: nat)
    requires vbuffer > 0
    ensures Padding(Abi(8, 24, vbuffer, 64), count) == 0 <==> count % 4 == 0
    ensures Padding(Abi(8, 24, vbuffer, 64), 5) == 48
  {
    var q := QueueBytes(Abi(8, 24, vbuffer, 64), count) * 2;
    assert q == 64 + 16 * count;
    assert count == 4 * (count / 4) + count % 4;
    assert (q + 63) / 64 == 1 + count / 4 + (if count % 4 == 0 then 0 else 1);
    assert AlignTo(q, 64) == (q + 63) / 64 * 64;
    assert AlignTo(QueueBytes(Abi(8, 24, vbuffer, 64), 5) * 2, 64) == 192;
  }
}
