// display_module.cpp: draws an image centred in a window buffer, every step-th pixel of
// it when it is larger than the buffer, or each pixel as a block when it is smaller.
module Display {
  import opened Arithmetic
  import opened Common

  // ANativeWindow_Buffer's sizes; rows are stride pixels apart.
  datatype Window = Window(width: nat, height: nat, stride: nat)

  // The hint bits, and the flips the display object was made with.
  datatype Flags = Flags(transpose: bool, hintHmirror: bool, hintVflip: bool, hmirror: bool, vflip: bool)

  datatype Image<T> = Image(w: nat, h: nat, pix: seq<T>)

  ghost predicate ValidWindow(win: Window) {
    0 < win.width <= win.stride && 0 < win.height
  }

  ghost predicate ValidImage<T>(img: Image<T>) {
    |img.pix| == img.w * img.h
  }

  function LogicalW<T>(img: Image<T>, f: Flags): nat {
    if f.transpose then img.h else img.w
  }

  function LogicalH<T>(img: Image<T>, f: Flags): nat {
    if f.transpose then img.w else img.h
  }

  // ---- step and factor ----

  predicate FitsAt(lw: nat, lh: nat, win: Window, step: nat) {
    lw <= win.width * step && lh <= win.height * step
  }

  predicate IsPowerOfTwo(n: nat) {
    n == 1 || (n > 1 && n % 2 == 0 && IsPowerOfTwo(n / 2))
  }

  // Of the powers of two from step on, the first at which the image fits.
  function StepFrom(lw: nat, lh: nat, win: Window, step: nat): (r: nat)
    requires win.width > 0 && win.height > 0 && step > 0
    decreases if FitsAt(lw, lh, win, step) then 0 else lw + lh + 1 - step
  {
    if FitsAt(lw, lh, win, step) then step
    else
      MulMonotone(1, win.width, step);
      MulMonotone(1, win.height, step);
      StepFrom(lw, lh, win, step * 2)
  }

  lemma {:induction false} StepMeaning(lw: nat, lh: nat, win: Window, step: nat)
    requires win.width > 0 && win.height > 0 && IsPowerOfTwo(step)
    ensures var r := StepFrom(lw, lh, win, step);
            && FitsAt(lw, lh, win, r) && IsPowerOfTwo(r) && r >= step
            && (r > step ==> !FitsAt(lw, lh, win, r / 2))
    decreases if FitsAt(lw, lh, win, step) then 0 else lw + lh + 1 - step
  {
    if !FitsAt(lw, lh, win, step) {
      MulMonotone(1, win.width, step);
      MulMonotone(1, win.height, step);
      assert (step * 2) % 2 == 0 && (step * 2) / 2 == step;
      StepMeaning(lw, lh, win, step * 2);
    }
  }

  method ComputeStep(lw: nat, lh: nat, win: Window) returns (step: nat)
    requires win.width > 0 && win.height > 0
    ensures step == StepFrom(lw, lh, win, 1) && step > 0 && FitsAt(lw, lh, win, step)
  {
    step := 1;
    while lw > win.width * step || lh > win.height * step
      invariant step > 0 && StepFrom(lw, lh, win, step) == StepFrom(lw, lh, win, 1)
      decreases if FitsAt(lw, lh, win, step) then 0 else lw + lh + 1 - step
    {
      MulMonotone(1, win.width, step);
      MulMonotone(1, win.height, step);
      step := step * 2;
    }
  }

  predicate Upscales(srcW: nat, srcH: nat, win: Window, factor: nat) {
    srcW * factor <= win.width && srcH * factor <= win.height
  }

  // The largest of 1, 2, 4, 8 that fits.
  function FactorFor(srcW: nat, srcH: nat, win: Window): nat {
    if Upscales(srcW, srcH, win, 8) then 8
    else if Upscales(srcW, srcH, win, 4) then 4
    else if Upscales(srcW, srcH, win, 2) then 2
    else 1
  }

  // upscale_factor: the last candidate that fits, which is the largest.
  method UpscaleFactor(srcW: nat, srcH: nat, win: Window) returns (factor: nat)
    ensures factor in {1, 2, 4, 8} && factor == FactorFor(srcW, srcH, win)
    ensures factor > 1 ==> Upscales(srcW, srcH, win, factor)
    ensures forall c :: c in {2, 4, 8} && c > factor ==> !Upscales(srcW, srcH, win, c)
  {
    factor := 1;
    var candidates := [2, 4, 8];
    for i := 0 to 3
      invariant factor in {1, 2, 4, 8} && (factor > 1 ==> Upscales(srcW, srcH, win, factor))
      invariant forall k :: 0 <= k < i ==> candidates[k] <= factor || !Upscales(srcW, srcH, win, candidates[k])
      invariant i == 0 ==> factor == 1
      invariant i > 0 ==> factor <= candidates[i - 1]
    {
      var candidate := candidates[i];
      if srcW * candidate <= win.width && srcH * candidate <= win.height {
        factor := candidate;
      }
    }
    assert candidates[0] == 2 && candidates[1] == 4 && candidates[2] == 8;
    assert Upscales(srcW, srcH, win, 8) ==> Upscales(srcW, srcH, win, 4);
    assert Upscales(srcW, srcH, win, 4) ==> Upscales(srcW, srcH, win, 2);
  }

  // ---- where each pixel goes ----

  // Everything display_write derives before it draws.
  datatype Layout = Layout(step: nat, outW: nat, outH: nat, factor: nat, offX: nat, offY: nat)

  ghost function LayoutOf<T>(img: Image<T>, f: Flags, win: Window): (l: Layout)
    requires ValidWindow(win)
    ensures Fits(img, f, win, l)
  {
    var lw, lh := LogicalW(img, f), LogicalH(img, f);
    StepMeaning(lw, lh, win, 1);
    var step := StepFrom(lw, lh, win, 1);
    var outW, outH := Thinned(lw, step), Thinned(lh, step);
    DivBounds(lw, win.width, step);
    DivBounds(lh, win.height, step);
    var factor := FactorFor(outW, outH, win);
    FactorFits(outW, outH, win);
    MarginFits(outW * factor, win.width);
    MarginFits(outH * factor, win.height);
    Layout(step, outW, outH, factor, (win.width - outW * factor) / 2, (win.height - outH * factor) / 2)
  }

  // The rectangle lies inside the buffer and the sampled pixels inside the image.
  ghost predicate Fits<T>(img: Image<T>, f: Flags, win: Window, l: Layout) {
    && l.step > 0 && l.factor > 0
    && l.offX + l.outW * l.factor <= win.width && l.offY + l.outH * l.factor <= win.height
    && l.outW * l.step <= LogicalW(img, f) && l.outH * l.step <= LogicalH(img, f)
  }

  lemma FactorFits(outW: nat, outH: nat, win: Window)
    requires outW <= win.width && outH <= win.height
    ensures var factor := FactorFor(outW, outH, win);
            factor > 0 && 0 <= outW * factor <= win.width && 0 <= outH * factor <= win.height
  {
  }

  lemma MarginFits(scaled: nat, size: nat)
    requires scaled <= size
    ensures 0 <= (size - scaled) / 2 && (size - scaled) / 2 + scaled <= size
  {
  }

  // Every step-th of n pixels.
  function Thinned(n: nat, step: nat): nat
    requires step > 0
  {
    n / step
  }

  lemma DivBounds(a: nat, b: nat, d: nat)
    requires d > 0 && a <= b * d
    ensures Thinned(a, d) <= b && Thinned(a, d) * d <= a
  {
    assert a == a / d * d + a % d;
    if a / d > b {
      MulMonotone(b + 1, a / d, d);
    }
  }

  // ---- the image as it is seen: transposed by the hint, then mirrored ----

  function At<T>(img: Image<T>, x: int, y: int): T
    requires ValidImage(img) && 0 <= x < img.w && 0 <= y < img.h
  {
    FlatInBounds(x, y, img.w, img.h);
    img.pix[y * img.w + x]
  }

  lemma Coordinates(k: nat, w: nat, h: nat)
    requires k < w * h
    ensures w > 0 && 0 <= k % w < w && 0 <= k / w < h && k / w * w + k % w == k
  {
    assert k == k / w * w + k % w;
    if k / w >= h {
      MulMonotone(h, k / w, w);
    }
  }

  lemma IndexOf(x: nat, y: nat, w: nat, h: nat)
    requires x < w && y < h
    ensures 0 <= y * w + x < w * h && (y * w + x) / w == y && (y * w + x) % w == x
  {
    FlatInBounds(x, y, w, h);
    DivModUnique(y, x, w);
  }

  ghost function Transposed<T>(img: Image<T>): (r: Image<T>)
    requires ValidImage(img)
    ensures ValidImage(r) && r.w == img.h && r.h == img.w
  {
    Image(img.h, img.w,
          seq(img.h * img.w, k requires 0 <= k < img.h * img.w =>
            Coordinates(k, img.h, img.w); At(img, k / img.h, k % img.h)))
  }

  lemma TransposedAt<T>(img: Image<T>, x: nat, y: nat)
    requires ValidImage(img) && x < img.h && y < img.w
    ensures At(Transposed(img), x, y) == At(img, y, x)
  {
    IndexOf(x, y, img.h, img.w);
  }

  function Flip(mirror: bool, i: int, n: int): int {
    if mirror then n - 1 - i else i
  }

  ghost function Mirrored<T>(img: Image<T>, mx: bool, my: bool): (r: Image<T>)
    requires ValidImage(img)
    ensures ValidImage(r) && r.w == img.w && r.h == img.h
  {
    Image(img.w, img.h,
          seq(img.w * img.h, k requires 0 <= k < img.w * img.h =>
            Coordinates(k, img.w, img.h); At(img, Flip(mx, k % img.w, img.w), Flip(my, k / img.w, img.h))))
  }

  lemma MirroredAt<T>(img: Image<T>, mx: bool, my: bool, x: nat, y: nat)
    requires ValidImage(img) && x < img.w && y < img.h
    ensures At(Mirrored(img, mx, my), x, y) == At(img, Flip(mx, x, img.w), Flip(my, y, img.h))
  {
    IndexOf(x, y, img.w, img.h);
  }

  lemma NotMirrored<T>(img: Image<T>)
    requires ValidImage(img)
    ensures Mirrored(img, false, false) == img
  {
    var r := Mirrored(img, false, false);
    assert |r.pix| == |img.pix|;
    forall k: nat | k < |img.pix|
      ensures r.pix[k] == img.pix[k]
    {
      NotMirroredPixel(img, k);
    }
    assert r.pix == img.pix;
  }

  lemma NotMirroredPixel<T>(img: Image<T>, k: nat)
    requires ValidImage(img) && k < |img.pix|
    ensures k < |Mirrored(img, false, false).pix| && Mirrored(img, false, false).pix[k] == img.pix[k]
  {
    Coordinates(k, img.w, img.h);
  }

  // Two mirrors in the same direction cancel.
  ghost function Oriented<T>(img: Image<T>, f: Flags): (r: Image<T>)
    requires ValidImage(img)
    ensures ValidImage(r) && r.w == LogicalW(img, f) && r.h == LogicalH(img, f)
  {
    Mirrored(if f.transpose then Transposed(img) else img,
             f.hmirror != f.hintHmirror, f.vflip != f.hintVflip)
  }

  // ---- the code's way to the same pixel ----

  // The source pixel of output pixel (ox, oy), as display_write computes it.
  function ReadX<T>(img: Image<T>, f: Flags, step: nat, ox: nat, oy: nat): int {
    var hy := if f.vflip then LogicalH(img, f) - 1 - oy * step else oy * step;
    var hx := if f.hmirror then LogicalW(img, f) - 1 - ox * step else ox * step;
    if f.transpose then (if f.hintVflip then img.w - 1 - hy else hy)
    else (if f.hintHmirror then img.w - 1 - hx else hx)
  }

  function ReadY<T>(img: Image<T>, f: Flags, step: nat, ox: nat, oy: nat): int {
    var hy := if f.vflip then LogicalH(img, f) - 1 - oy * step else oy * step;
    var hx := if f.hmirror then LogicalW(img, f) - 1 - ox * step else ox * step;
    if f.transpose then (if f.hintHmirror then img.h - 1 - hx else hx)
    else (if f.hintVflip then img.h - 1 - hy else hy)
  }

  ghost predicate Samples<T>(img: Image<T>, f: Flags, l: Layout) {
    && l.step > 0 && l.factor > 0
    && l.outW * l.step <= LogicalW(img, f) && l.outH * l.step <= LogicalH(img, f)
  }

  lemma ReadInBounds<T>(img: Image<T>, f: Flags, l: Layout, ox: nat, oy: nat)
    requires ValidImage(img) && Samples(img, f, l)
    requires ox < l.outW && oy < l.outH
    ensures 0 <= ReadX(img, f, l.step, ox, oy) < img.w
    ensures 0 <= ReadY(img, f, l.step, ox, oy) < img.h
    ensures 0 <= ReadY(img, f, l.step, ox, oy) * img.w + ReadX(img, f, l.step, ox, oy) < |img.pix|
  {
    MulMonotone(ox + 1, l.outW, l.step);
    MulMonotone(oy + 1, l.outH, l.step);
    assert (ox + 1) * l.step == ox * l.step + l.step && (oy + 1) * l.step == oy * l.step + l.step;
    MulMonotone(0, ox, l.step);
    MulMonotone(0, oy, l.step);
    FlatInBounds(ReadX(img, f, l.step, ox, oy), ReadY(img, f, l.step, ox, oy), img.w, img.h);
  }

  lemma FlatInBounds(x: int, y: int, w: nat, h: nat)
    requires 0 <= x < w && 0 <= y < h
    ensures 0 <= y * w + x < w * h
  {
    MulMonotone(y + 1, h, w);
    MulMonotone(0, y, w);
  }

  lemma SampleInside(o: nat, out: nat, step: nat, size: nat)
    requires o < out && out * step <= size && step > 0
    ensures 0 <= o * step < size
  {
    MulMonotone(o + 1, out, step);
    assert (o + 1) * step == o * step + step;
    MulMonotone(0, o, step);
  }

  // Every step-th pixel of the image as it is seen.
  ghost function SourcePixel<T>(img: Image<T>, f: Flags, l: Layout, ox: nat, oy: nat): T
    requires ValidImage(img) && Samples(img, f, l) && ox < l.outW && oy < l.outH
  {
    SampleInside(ox, l.outW, l.step, LogicalW(img, f));
    SampleInside(oy, l.outH, l.step, LogicalH(img, f));
    At(Oriented(img, f), ox * l.step, oy * l.step)
  }

  // The mapping of display_write, for all flags: the pixel it reads is that pixel.
  lemma ReadIsOriented<T>(img: Image<T>, f: Flags, l: Layout, ox: nat, oy: nat)
    requires ValidImage(img) && Samples(img, f, l) && ox < l.outW && oy < l.outH
    ensures 0 <= ReadX(img, f, l.step, ox, oy) < img.w && 0 <= ReadY(img, f, l.step, ox, oy) < img.h
    ensures At(img, ReadX(img, f, l.step, ox, oy), ReadY(img, f, l.step, ox, oy)) == SourcePixel(img, f, l, ox, oy)
  {
    ReadInBounds(img, f, l, ox, oy);
    SampleInside(ox, l.outW, l.step, LogicalW(img, f));
    SampleInside(oy, l.outH, l.step, LogicalH(img, f));
    ReadMapping(img, f, l.step, ox, oy);
    OrientedAt(img, f, ox * l.step, oy * l.step);
  }

  // The logical coordinates, mirrored where exactly one of the two flips is on, and then
  // swapped if transposed.
  lemma ReadMapping<T>(img: Image<T>, f: Flags, step: nat, ox: nat, oy: nat)
    ensures var x := Flip(f.hmirror != f.hintHmirror, ox * step, LogicalW(img, f));
            var y := Flip(f.vflip != f.hintVflip, oy * step, LogicalH(img, f));
            (ReadX(img, f, step, ox, oy), ReadY(img, f, step, ox, oy)) == if f.transpose then (y, x) else (x, y)
  {
  }

  lemma OrientedAt<T>(img: Image<T>, f: Flags, x: nat, y: nat)
    requires ValidImage(img) && x < LogicalW(img, f) && y < LogicalH(img, f)
    ensures var mx := Flip(f.hmirror != f.hintHmirror, x, LogicalW(img, f));
            var my := Flip(f.vflip != f.hintVflip, y, LogicalH(img, f));
            At(Oriented(img, f), x, y) == if f.transpose then At(img, my, mx) else At(img, mx, my)
  {
    MirroredAt(if f.transpose then Transposed(img) else img,
               f.hmirror != f.hintHmirror, f.vflip != f.hintVflip, x, y);
    if f.transpose {
      TransposedAt(img, Flip(f.hmirror != f.hintHmirror, x, img.h), Flip(f.vflip != f.hintVflip, y, img.w));
    }
  }

  // The block that buffer coordinate x lies in.
  function Block(x: nat, off: nat, factor: nat): nat
    requires factor > 0 && off <= x
  {
    (x - off) / factor
  }

  // What buffer pixel (x, y) must hold: the mapped source pixel inside the centred
  // rectangle, zero outside. Rows before (doneY, doneX) in drawing order are drawn.
  ghost function Want<T, U>(img: Image<T>, f: Flags, l: Layout, color: T -> U, zero: U,
                            doneX: nat, doneY: nat, x: nat, y: nat): U
    requires ValidImage(img) && Samples(img, f, l)
  {
    if l.offX <= x && l.offY <= y then
      var blockX, blockY := Block(x, l.offX, l.factor), Block(y, l.offY, l.factor);
      if blockX < l.outW && blockY < l.outH && (blockY < doneY || (blockY == doneY && blockX < doneX)) then
        color(SourcePixel(img, f, l, blockX, blockY))
      else zero
    else zero
  }

  // ---- drawing ----

  predicate InBlock(k: nat, stride: nat, x0: nat, y0: nat, w: nat, h: nat)
    requires stride > 0
  {
    x0 <= k % stride < x0 + w && y0 <= k / stride < y0 + h
  }

  lemma RowSpan(k: nat, stride: nat, x0: nat, y: nat, w: nat)
    requires stride > 0 && x0 + w <= stride
    ensures y * stride + x0 <= k < y * stride + x0 + w <==> InBlock(k, stride, x0, y, w, 1)
  {
    assert k == k / stride * stride + k % stride;
    if y * stride + x0 <= k < y * stride + x0 + w {
      DivModUnique(y, k - y * stride, stride);
    }
  }

  method FillRow<U>(pixels: array<U>, start: nat, n: nat, rgba: U)
    requires start + n <= pixels.Length
    modifies pixels
    ensures forall k :: 0 <= k < pixels.Length ==>
              pixels[k] == if start <= k < start + n then rgba else old(pixels[k])
  {
    for dx := 0 to n
      invariant forall k :: 0 <= k < pixels.Length ==>
                  pixels[k] == if start <= k < start + dx then rgba else old(pixels[k])
    {
      pixels[start + dx] := rgba;
    }
  }

  // Row y of a block: the loop over dx.
  method DrawBlockRow<U>(pixels: array<U>, win: Window, x0: nat, y: nat, n: nat, rgba: U)
    requires ValidWindow(win) && pixels.Length == win.stride * win.height
    requires x0 + n <= win.width && y < win.height
    modifies pixels
    ensures forall k :: 0 <= k < pixels.Length ==>
              pixels[k] == if InBlock(k, win.stride, x0, y, n, 1) then rgba else old(pixels[k])
  {
    MulMonotone(y + 1, win.height, win.stride);
    MulMonotone(0, y, win.stride);
    assert (y + 1) * win.stride == y * win.stride + win.stride;
    var row := y * win.stride + x0;
    FillRow(pixels, row, n, rgba);
    forall k | 0 <= k < pixels.Length
      ensures pixels[k] == if InBlock(k, win.stride, x0, y, n, 1) then rgba else old(pixels[k])
    {
      RowSpan(k, win.stride, x0, y, n);
    }
  }

  // The two inner loops of display_write.
  method DrawBlock<U>(pixels: array<U>, win: Window, x0: nat, y0: nat, factor: nat, rgba: U)
    requires ValidWindow(win) && pixels.Length == win.stride * win.height
    requires x0 + factor <= win.width && y0 + factor <= win.height
    modifies pixels
    ensures forall k :: 0 <= k < pixels.Length ==>
              pixels[k] == if InBlock(k, win.stride, x0, y0, factor, factor) then rgba else old(pixels[k])
  {
    for dy := 0 to factor
      invariant forall k :: 0 <= k < pixels.Length ==>
                  pixels[k] == if InBlock(k, win.stride, x0, y0, factor, dy) then rgba else old(pixels[k])
    {
      DrawBlockRow(pixels, win, x0, y0 + dy, factor, rgba);
    }
  }

  lemma BlockOf(a: nat, o: nat, d: nat)
    requires d > 0
    ensures o * d <= a < o * d + d <==> a / d == o
  {
    assert a == a / d * d + a % d;
    if o * d <= a < o * d + d {
      DivModUnique(o, a - o * d, d);
    }
  }

  // Buffer pixel k shows output pixel (ox, oy).
  predicate IsOutput(l: Layout, k: nat, stride: nat, ox: nat, oy: nat)
    requires stride > 0 && l.factor > 0
  {
    var x, y := k % stride, k / stride;
    l.offX <= x && l.offY <= y && Block(x, l.offX, l.factor) == ox && Block(y, l.offY, l.factor) == oy
  }

  lemma BlockIsOutput(l: Layout, k: nat, stride: nat, ox: nat, oy: nat)
    requires stride > 0 && l.factor > 0
    ensures 0 <= ox * l.factor && 0 <= oy * l.factor
    ensures InBlock(k, stride, l.offX + ox * l.factor, l.offY + oy * l.factor, l.factor, l.factor)
            <==> IsOutput(l, k, stride, ox, oy)
  {
    var x, y := k % stride, k / stride;
    MulMonotone(0, ox, l.factor);
    MulMonotone(0, oy, l.factor);
    if l.offX <= x && l.offY <= y {
      BlockOf(x - l.offX, ox, l.factor);
      BlockOf(y - l.offY, oy, l.factor);
    }
  }

  method DrawOutput<U>(pixels: array<U>, win: Window, l: Layout, ox: nat, oy: nat, rgba: U)
    requires ValidWindow(win) && pixels.Length == win.stride * win.height && l.factor > 0
    requires ox < l.outW && l.offX + l.outW * l.factor <= win.width
    requires oy < l.outH && l.offY + l.outH * l.factor <= win.height
    modifies pixels
    ensures forall k :: 0 <= k < pixels.Length ==>
              pixels[k] == if IsOutput(l, k, win.stride, ox, oy) then rgba else old(pixels[k])
  {
    BlockInside(ox, l.outW, l.factor, l.offX, win.width);
    BlockInside(oy, l.outH, l.factor, l.offY, win.height);
    DrawBlock(pixels, win, l.offX + ox * l.factor, l.offY + oy * l.factor, l.factor, rgba);
    forall k | 0 <= k < pixels.Length
      ensures pixels[k] == if IsOutput(l, k, win.stride, ox, oy) then rgba else old(pixels[k])
    {
      BlockIsOutput(l, k, win.stride, ox, oy);
    }
  }

  ghost predicate Drawn<T, U>(pixels: seq<U>, img: Image<T>, f: Flags, l: Layout, color: T -> U, zero: U,
                              stride: nat, doneX: nat, doneY: nat)
    requires stride > 0 && ValidImage(img) && Samples(img, f, l)
  {
    forall k :: 0 <= k < |pixels| ==>
      pixels[k] == Want(img, f, l, color, zero, doneX, doneY, k % stride, k / stride)
  }

  // The colour of output pixel (ox, oy), as the loop over ox reads it.
  method ReadPixel<T, U>(img: Image<T>, f: Flags, l: Layout, color: T -> U, ox: nat, oy: nat) returns (rgba: U)
    requires ValidImage(img) && Samples(img, f, l) && ox < l.outW && oy < l.outH
    ensures rgba == color(SourcePixel(img, f, l, ox, oy))
  {
    var ly := oy * l.step;
    var hy := if f.vflip then LogicalH(img, f) - 1 - ly else ly;
    var lx := ox * l.step;
    var hx := if f.hmirror then LogicalW(img, f) - 1 - lx else lx;
    var flipX := if f.transpose then f.hintVflip else f.hintHmirror;
    var flipY := if f.transpose then f.hintHmirror else f.hintVflip;
    var readX, readY;
    if !f.transpose {
      readX := if flipX then img.w - 1 - hx else hx;
      readY := if flipY then img.h - 1 - hy else hy;
    } else {
      readX := if flipX then img.w - 1 - hy else hy;
      readY := if flipY then img.h - 1 - hx else hx;
    }
    ReadIsOriented(img, f, l, ox, oy);
    assert readX == ReadX(img, f, l.step, ox, oy) && readY == ReadY(img, f, l.step, ox, oy);
    FlatInBounds(readX, readY, img.w, img.h);
    rgba := color(img.pix[readY * img.w + readX]);
  }

  lemma BlockInside(o: nat, out: nat, factor: nat, off: nat, size: nat)
    requires o < out && off + out * factor <= size
    ensures 0 <= o * factor && off + o * factor + factor <= size
  {
    MulMonotone(o + 1, out, factor);
    MulMonotone(0, o, factor);
    assert (o + 1) * factor == o * factor + factor;
  }

  lemma WantNext<T, U>(img: Image<T>, f: Flags, l: Layout, color: T -> U, zero: U, ox: nat, oy: nat,
                       k: nat, stride: nat)
    requires stride > 0 && ValidImage(img) && Samples(img, f, l) && ox < l.outW && oy < l.outH
    ensures Want(img, f, l, color, zero, ox + 1, oy, k % stride, k / stride) ==
            if IsOutput(l, k, stride, ox, oy) then color(SourcePixel(img, f, l, ox, oy))
            else Want(img, f, l, color, zero, ox, oy, k % stride, k / stride)
  {
  }

  // Adding output pixel (ox, oy) to what is drawn.
  lemma BlockDrawn<T, U>(before: seq<U>, after: seq<U>, img: Image<T>, f: Flags, l: Layout, color: T -> U, zero: U,
                         stride: nat, ox: nat, oy: nat)
    requires stride > 0 && ValidImage(img) && Samples(img, f, l) && ox < l.outW && oy < l.outH
    requires |after| == |before| && Drawn(before, img, f, l, color, zero, stride, ox, oy)
    requires forall k :: 0 <= k < |after| ==>
               after[k] == if IsOutput(l, k, stride, ox, oy) then color(SourcePixel(img, f, l, ox, oy)) else before[k]
    ensures Drawn(after, img, f, l, color, zero, stride, ox + 1, oy)
  {
    forall k | 0 <= k < |after|
      ensures after[k] == Want(img, f, l, color, zero, ox + 1, oy, k % stride, k / stride)
    {
      PixelDrawn(before, after[k], img, f, l, color, zero, stride, ox, oy, k);
    }
  }

  lemma PixelDrawn<T, U>(before: seq<U>, after: U, img: Image<T>, f: Flags, l: Layout, color: T -> U, zero: U,
                         stride: nat, ox: nat, oy: nat, k: nat)
    requires stride > 0 && ValidImage(img) && Samples(img, f, l) && ox < l.outW && oy < l.outH
    requires Drawn(before, img, f, l, color, zero, stride, ox, oy) && k < |before|
    requires after == if IsOutput(l, k, stride, ox, oy) then color(SourcePixel(img, f, l, ox, oy)) else before[k]
    ensures after == Want(img, f, l, color, zero, ox + 1, oy, k % stride, k / stride)
  {
    WantNext(img, f, l, color, zero, ox, oy, k, stride);
    assert before[k] == Want(img, f, l, color, zero, ox, oy, k % stride, k / stride);
  }

  lemma NothingDrawn<T, U>(pixels: seq<U>, img: Image<T>, f: Flags, l: Layout, color: T -> U, zero: U, stride: nat)
    requires stride > 0 && ValidImage(img) && Samples(img, f, l) && forall k :: 0 <= k < |pixels| ==> pixels[k] == zero
    ensures Drawn(pixels, img, f, l, color, zero, stride, 0, 0)
  {
    forall k | 0 <= k < |pixels|
      ensures pixels[k] == Want(img, f, l, color, zero, 0, 0, k % stride, k / stride)
    {
      NothingWanted(img, f, l, color, zero, k % stride, k / stride);
    }
  }

  lemma NothingWanted<T, U>(img: Image<T>, f: Flags, l: Layout, color: T -> U, zero: U, x: nat, y: nat)
    requires ValidImage(img) && Samples(img, f, l)
    ensures Want(img, f, l, color, zero, 0, 0, x, y) == zero
  {
  }

  // One pass of the loop over ox.
  method DrawPixel<T, U>(pixels: array<U>, img: Image<T>, f: Flags, l: Layout, win: Window,
                         color: T -> U, ghost zero: U, ox: nat, oy: nat)
    requires ValidWindow(win) && ValidImage(img) && Samples(img, f, l) && Fits(img, f, win, l)
    requires pixels.Length == win.stride * win.height
    requires ox < l.outW && oy < l.outH
    requires Drawn(pixels[..], img, f, l, color, zero, win.stride, ox, oy)
    modifies pixels
    ensures Drawn(pixels[..], img, f, l, color, zero, win.stride, ox + 1, oy)
  {
    ghost var before := pixels[..];
    var rgba := ReadPixel(img, f, l, color, ox, oy);
    DrawOutput(pixels, win, l, ox, oy, rgba);
    BlockDrawn(before, pixels[..], img, f, l, color, zero, win.stride, ox, oy);
  }

  lemma NextRow<T, U>(pixels: seq<U>, img: Image<T>, f: Flags, l: Layout, color: T -> U, zero: U, stride: nat, oy: nat)
    requires stride > 0 && ValidImage(img) && Samples(img, f, l)
    requires Drawn(pixels, img, f, l, color, zero, stride, l.outW, oy)
    ensures Drawn(pixels, img, f, l, color, zero, stride, 0, oy + 1)
  {
    forall k | 0 <= k < |pixels|
      ensures pixels[k] == Want(img, f, l, color, zero, 0, oy + 1, k % stride, k / stride)
    {
      WantNextRow(img, f, l, color, zero, oy, k % stride, k / stride);
    }
  }

  lemma WantNextRow<T, U>(img: Image<T>, f: Flags, l: Layout, color: T -> U, zero: U, oy: nat, x: nat, y: nat)
    requires ValidImage(img) && Samples(img, f, l)
    ensures Want(img, f, l, color, zero, 0, oy + 1, x, y) == Want(img, f, l, color, zero, l.outW, oy, x, y)
  {
  }

  method ComputeLayout<T>(img: Image<T>, f: Flags, win: Window) returns (l: Layout)
    requires ValidWindow(win)
    ensures l == LayoutOf(img, f, win)
  {
    var logicalW := LogicalW(img, f);
    var logicalH := LogicalH(img, f);
    var step := ComputeStep(logicalW, logicalH, win);
    var outW := Thinned(logicalW, step);
    var outH := Thinned(logicalH, step);
    var factor := UpscaleFactor(outW, outH, win);
    ghost var want := LayoutOf(img, f, win);
    assert (want.step, want.outW, want.outH, want.factor) == (step, outW, outH, factor);
    var scaledW := outW * factor;
    var scaledH := outH * factor;
    var offX := (win.width - scaledW) / 2;
    var offY := (win.height - scaledH) / 2;
    l := Layout(step, outW, outH, factor, offX, offY);
  }

  // The clearing and the loops of display_write.
  method DrawAll<T, U>(img: Image<T>, f: Flags, l: Layout, win: Window, pixels: array<U>, color: T -> U, zero: U)
    requires ValidImage(img) && ValidWindow(win) && pixels.Length == win.stride * win.height
    requires Samples(img, f, l) && Fits(img, f, win, l)
    modifies pixels
    ensures Drawn(pixels[..], img, f, l, color, zero, win.stride, 0, l.outH)
  {
    forall k | 0 <= k < pixels.Length {
      pixels[k] := zero;
    }
    NothingDrawn(pixels[..], img, f, l, color, zero, win.stride);
    for oy := 0 to l.outH
      invariant Drawn(pixels[..], img, f, l, color, zero, win.stride, 0, oy)
    {
      DrawRow(img, f, l, win, pixels, color, zero, oy);
    }
  }

  // The loop over ox.
  method DrawRow<T, U>(img: Image<T>, f: Flags, l: Layout, win: Window, pixels: array<U>, color: T -> U,
                       ghost zero: U, oy: nat)
    requires ValidImage(img) && ValidWindow(win) && pixels.Length == win.stride * win.height
    requires Samples(img, f, l) && Fits(img, f, win, l) && oy < l.outH
    requires Drawn(pixels[..], img, f, l, color, zero, win.stride, 0, oy)
    modifies pixels
    ensures Drawn(pixels[..], img, f, l, color, zero, win.stride, 0, oy + 1)
  {
    for ox := 0 to l.outW
      invariant Drawn(pixels[..], img, f, l, color, zero, win.stride, ox, oy)
    {
      DrawPixel(pixels, img, f, l, win, color, zero, ox, oy);
    }
    NextRow(pixels[..], img, f, l, color, zero, win.stride, oy);
  }

  // display_write once the window is locked. color is the conversion of one source pixel
  // to RGBA, zero the cleared pixel.
  method DisplayWrite<T, U>(img: Image<T>, f: Flags, win: Window, pixels: array<U>, color: T -> U, zero: U)
    requires ValidImage(img) && ValidWindow(win) && pixels.Length == win.stride * win.height
    modifies pixels
    ensures var l := LayoutOf(img, f, win);
            Samples(img, f, l) && Drawn(pixels[..], img, f, l, color, zero, win.stride, 0, l.outH)
  {
    var l := ComputeLayout(img, f, win);
    assert Samples(img, f, l) && Fits(img, f, win, l);
    DrawAll(img, f, l, win, pixels, color, zero);
  }

  // ---- what the drawing is ----

  // Every step-th pixel is drawn, as many as there are; the rectangle is centred, to within a
  // pixel, and unless the image was thinned out it could not be drawn twice as large, up to 8.
  lemma Centred<T>(img: Image<T>, f: Flags, win: Window)
    requires ValidWindow(win)
    ensures var l := LayoutOf(img, f, win);
            var right := win.width - (l.offX + l.outW * l.factor);
            var bottom := win.height - (l.offY + l.outH * l.factor);
            && l.outW * l.step <= LogicalW(img, f) < (l.outW + 1) * l.step
            && l.outH * l.step <= LogicalH(img, f) < (l.outH + 1) * l.step
            && l.offX <= right <= l.offX + 1 && l.offY <= bottom <= l.offY + 1
            && l.factor in {1, 2, 4, 8}
            && (l.factor < 8 ==> l.outW * (l.factor * 2) > win.width || l.outH * (l.factor * 2) > win.height)
            && IsPowerOfTwo(l.step)
            && (l.step > 1 ==>
                  LogicalW(img, f) > win.width * (l.step / 2) || LogicalH(img, f) > win.height * (l.step / 2))
  {
    StepMeaning(LogicalW(img, f), LogicalH(img, f), win, 1);
    var l := LayoutOf(img, f, win);
    assert l.factor == FactorFor(l.outW, l.outH, win);
    DivLess(LogicalW(img, f), l.step, l.outW + 1);
    DivLess(LogicalH(img, f), l.step, l.outH + 1);
  }

  lemma BlockAt(off: nat, o: nat, factor: nat, d: nat)
    requires d < factor
    ensures 0 <= o * factor && Block(off + (o * factor + d), off, factor) == o
  {
    MulMonotone(0, o, factor);
    DivModUnique(o, d, factor);
  }

  // Each sampled pixel of the image as it is seen is on screen, as a block of factor x factor.
  lemma SampleIsShown<T, U>(pixels: seq<U>, img: Image<T>, f: Flags, win: Window, color: T -> U, zero: U,
                            ox: nat, oy: nat, dx: nat, dy: nat)
    requires ValidImage(img) && ValidWindow(win) && |pixels| == win.stride * win.height
    requires var l := LayoutOf(img, f, win);
             && Drawn(pixels, img, f, l, color, zero, win.stride, 0, l.outH)
             && ox < l.outW && oy < l.outH && dx < l.factor && dy < l.factor
    ensures var l := LayoutOf(img, f, win);
            var x, y := l.offX + (ox * l.factor + dx), l.offY + (oy * l.factor + dy);
            && 0 <= x < win.width && 0 <= y < win.height && 0 <= y * win.stride + x < |pixels|
            && 0 <= ox * l.step < LogicalW(img, f) && 0 <= oy * l.step < LogicalH(img, f)
            && pixels[y * win.stride + x] == color(At(Oriented(img, f), ox * l.step, oy * l.step))
  {
    var l := LayoutOf(img, f, win);
    BlockInside(ox, l.outW, l.factor, l.offX, win.width);
    BlockInside(oy, l.outH, l.factor, l.offY, win.height);
    BlockAt(l.offX, ox, l.factor, dx);
    BlockAt(l.offY, oy, l.factor, dy);
    var x: nat, y: nat := l.offX + (ox * l.factor + dx), l.offY + (oy * l.factor + dy);
    IndexOf(x, y, win.stride, win.height);
    SampleInside(ox, l.outW, l.step, LogicalW(img, f));
    SampleInside(oy, l.outH, l.step, LogicalH(img, f));
    assert Want(img, f, l, color, zero, 0, l.outH, x, y) == color(SourcePixel(img, f, l, ox, oy));
  }

  // So an image that fits the buffer is on screen with every pixel.
  lemma AllIsShown<T, U>(pixels: seq<U>, img: Image<T>, f: Flags, win: Window, color: T -> U, zero: U,
                         x: nat, y: nat)
    requires ValidImage(img) && ValidWindow(win) && |pixels| == win.stride * win.height
    requires LogicalW(img, f) <= win.width && LogicalH(img, f) <= win.height && x < img.w && y < img.h
    requires var l := LayoutOf(img, f, win);
             Samples(img, f, l) && Drawn(pixels, img, f, l, color, zero, win.stride, 0, l.outH)
    ensures exists k :: 0 <= k < |pixels| && pixels[k] == color(At(img, x, y))
  {
    var l := LayoutOf(img, f, win);
    var lx := Flip(f.hmirror != f.hintHmirror, if f.transpose then y else x, LogicalW(img, f));
    var ly := Flip(f.vflip != f.hintVflip, if f.transpose then x else y, LogicalH(img, f));
    OrientedAt(img, f, lx, ly);
    assert l.step == 1;
    Centred(img, f, win);
    SampleIsShown(pixels, img, f, win, color, zero, lx, ly, 0, 0);
  }

  // Turning on a flip of the display object and the same flip of the hint (or turning
  // off both, or moving it from one to the other) draws the same picture, with or
  // without transpose.
  lemma FlipsCancel<T, U>(img: Image<T>, f: Flags, g: Flags, win: Window, color: T -> U, zero: U, x: nat, y: nat)
    requires ValidImage(img) && ValidWindow(win) && f.transpose == g.transpose
    requires (f.hmirror == f.hintHmirror) == (g.hmirror == g.hintHmirror)
    requires (f.vflip == f.hintVflip) == (g.vflip == g.hintVflip)
    ensures var l := LayoutOf(img, f, win);
            l == LayoutOf(img, g, win) && Samples(img, f, l) && Samples(img, g, l)
            && Want(img, f, l, color, zero, 0, l.outH, x, y) == Want(img, g, l, color, zero, 0, l.outH, x, y)
  {
    var l := LayoutOf(img, f, win);
    assert Oriented(img, f) == Oriented(img, g);
  }

  // No flags: drawn as it is.
  const PLAIN := Flags(false, false, false, false, false)

  lemma PlainIsSeenAsIs<T>(img: Image<T>)
    requires ValidImage(img)
    ensures Oriented(img, PLAIN) == img
  {
    NotMirrored(img);
  }

  // Drawing with flags is drawing the transposed and mirrored image without any.
  lemma DrawsTheOrientedImage<T, U>(pixels: seq<U>, img: Image<T>, f: Flags, win: Window, color: T -> U, zero: U)
    requires ValidImage(img) && ValidWindow(win)
    ensures var l := LayoutOf(img, f, win);
            l == LayoutOf(Oriented(img, f), PLAIN, win)
            && Samples(img, f, l) && Samples(Oriented(img, f), PLAIN, l)
            && (Drawn(pixels, img, f, l, color, zero, win.stride, 0, l.outH)
                <==> Drawn(pixels, Oriented(img, f), PLAIN, l, color, zero, win.stride, 0, l.outH))
  {
    PlainIsSeenAsIs(Oriented(img, f));
    var l := LayoutOf(img, f, win);
    forall x: nat, y: nat
      ensures Want(img, f, l, color, zero, 0, l.outH, x, y)
           == Want(Oriented(img, f), PLAIN, l, color, zero, 0, l.outH, x, y)
    {
    }
  }

  // ---- opaque and transparent ----

  // The pixel of display_write: alpha, blue, green, red.
  function Rgba(c: (byte, byte, byte)): int {
    0xFF00_0000 + c.2 as int * 0x1_0000 + c.1 as int * 0x100 + c.0 as int
  }

  function Alpha(pixel: int): int {
    pixel / 0x100_0000
  }

  function Opaque<T>(rgb: T -> (byte, byte, byte)): T -> int {
    (t: T) => Rgba(rgb(t))
  }

  predicate InRectangle(l: Layout, x: nat, y: nat) {
    l.offX <= x < l.offX + l.outW * l.factor && l.offY <= y < l.offY + l.outH * l.factor
  }

  lemma DivLess(a: nat, d: nat, n: nat)
    requires d > 0
    ensures a / d < n <==> a < n * d
  {
    assert a == a / d * d + a % d;
    if a / d < n {
      MulMonotone(a / d + 1, n, d);
      assert (a / d + 1) * d == a / d * d + d;
    } else {
      MulMonotone(n, a / d, d);
    }
  }

  // What is drawn where, once all rows are.
  lemma WantInside<T, U>(img: Image<T>, f: Flags, l: Layout, color: T -> U, zero: U, x: nat, y: nat)
    requires ValidImage(img) && Samples(img, f, l)
    ensures InRectangle(l, x, y) ==> exists t :: Want(img, f, l, color, zero, 0, l.outH, x, y) == color(t)
    ensures !InRectangle(l, x, y) ==> Want(img, f, l, color, zero, 0, l.outH, x, y) == zero
  {
    if l.offX <= x && l.offY <= y {
      DivLess(x - l.offX, l.factor, l.outW);
      DivLess(y - l.offY, l.factor, l.outH);
      var ox, oy := Block(x, l.offX, l.factor), Block(y, l.offY, l.factor);
      if ox < l.outW && oy < l.outH {
        assert Want(img, f, l, color, zero, 0, l.outH, x, y) == color(SourcePixel(img, f, l, ox, oy));
      }
    }
  }

  // In memory, from the lowest byte: red, green, blue, alpha.
  lemma RgbaBytes(c: (byte, byte, byte))
    ensures Rgba(c) % 0x100 == c.0 as int
    ensures Rgba(c) / 0x100 % 0x100 == c.1 as int
    ensures Rgba(c) / 0x1_0000 % 0x100 == c.2 as int
    ensures Alpha(Rgba(c)) == 255 == Rgba(c) / 0x100_0000
  {
    var r, g, b := c.0 as int, c.1 as int, c.2 as int;
    DivModUnique((255 * 0x100 + b) * 0x100 + g, r, 0x100);
    DivModUnique(255 * 0x100 + b, g, 0x100);
    DivModUnique(255 * 0x100 + b, g * 0x100 + r, 0x1_0000);
    DivModUnique(255, b, 0x100);
    DivModUnique(255, b * 0x1_0000 + g * 0x100 + r, 0x100_0000);
  }

  // After display_write the pixels of the rectangle are opaque, and all others, cleared
  // to 0, are transparent, not black.
  lemma OpaqueExactlyInside<T>(pixels: seq<int>, img: Image<T>, f: Flags, l: Layout, stride: nat,
                               rgb: T -> (byte, byte, byte), k: nat)
    requires ValidImage(img) && Samples(img, f, l) && 0 < stride && k < |pixels|
    requires Drawn(pixels, img, f, l, Opaque(rgb), 0, stride, 0, l.outH)
    ensures Alpha(pixels[k]) == if InRectangle(l, k % stride, k / stride) then 255 else 0
  {
    var x, y := k % stride, k / stride;
    WantInside(img, f, l, Opaque(rgb), 0, x, y);
    assert pixels[k] == Want(img, f, l, Opaque(rgb), 0, 0, l.outH, x, y);
    if InRectangle(l, x, y) {
      var t :| pixels[k] == Opaque(rgb)(t);
      RgbaBytes(rgb(t));
    }
  }
}
