// camera_module.cpp: clockwise rotation of a camera frame while copying it. Each output
// row is read along a straight line through the source: a start index and a step.
module Rotation {
  import opened Common
  import opened Arithmetic

  // ---- the coordinate definition ----

  predicate IsRotation(rot: int) {
    rot == 0 || rot == 90 || rot == 180 || rot == 270
  }

  function OutWidth(rot: int, W: nat, H: nat): nat {
    if rot == 90 || rot == 270 then H else W
  }

  function OutHeight(rot: int, W: nat, H: nat): nat {
    if rot == 90 || rot == 270 then W else H
  }

  // Where output pixel (ox, oy) comes from when a W x H frame is turned clockwise.
  function SourceOf(rot: int, W: nat, H: nat, ox: nat, oy: nat): (c: (nat, nat))
    requires IsRotation(rot) && ox < OutWidth(rot, W, H) && oy < OutHeight(rot, W, H)
    ensures c.0 < W && c.1 < H
  {
    if rot == 90 then (oy, H - 1 - ox)
    else if rot == 180 then (W - 1 - ox, H - 1 - oy)
    else if rot == 270 then (W - 1 - oy, ox)
    else (ox, oy)
  }

  function Index(x: nat, y: nat, W: nat, H: nat): (i: nat)
    requires x < W && y < H
    ensures i < W * H && i == y * W + x && i / W == y && i % W == x
  {
    MulMonotone(y + 1, H, W);
    MulMonotone(0, y, W);
    DivModUnique(y, x, W);
    y * W + x
  }

  lemma Coordinates(i: nat, W: nat, H: nat)
    requires i < W * H
    ensures W > 0 && i % W < W && i / W < H && Index(i % W, i / W, W, H) == i
  {
    if i / W >= H {
      MulMonotone(H, i / W, W);
    }
  }

  // Output index k of the rotation of a W x H frame reads this source index.
  function SourceIndex(rot: int, W: nat, H: nat, k: nat): (i: nat)
    requires IsRotation(rot) && k < W * H
    ensures i < W * H
  {
    var w, h := OutWidth(rot, W, H), OutHeight(rot, W, H);
    Coordinates(k, w, h);
    var (x, y) := SourceOf(rot, W, H, k % w, k / w);
    Index(x, y, W, H)
  }

  datatype Image<T> = Image(w: nat, h: nat, pix: seq<T>)

  ghost predicate Proper<T>(img: Image<T>) {
    |img.pix| == img.w * img.h
  }

  function Rotated<T>(rot: int, img: Image<T>): (r: Image<T>)
    requires IsRotation(rot) && |img.pix| == img.w * img.h
    ensures |r.pix| == r.w * r.h == img.w * img.h
  {
    Image(OutWidth(rot, img.w, img.h), OutHeight(rot, img.w, img.h),
          seq(img.w * img.h, k requires 0 <= k < img.w * img.h => img.pix[SourceIndex(rot, img.w, img.h, k)]))
  }

  // The pixel of img at (x, y) is that of r at (rx, ry).
  ghost predicate SamePixel<T>(r: Image<T>, rx: int, ry: int, img: Image<T>, x: nat, y: nat) {
    && 0 <= rx < r.w && 0 <= ry < r.h && x < img.w && y < img.h
    && 0 <= ry * r.w + rx < |r.pix| && y * img.w + x < |img.pix|
    && r.pix[ry * r.w + rx] == img.pix[y * img.w + x]
  }

  lemma PixelMoves<T>(rot: int, img: Image<T>, rx: nat, ry: nat, x: nat, y: nat)
    requires IsRotation(rot) && Proper(img)
    requires rx < OutWidth(rot, img.w, img.h) && ry < OutHeight(rot, img.w, img.h)
    requires (x, y) == SourceOf(rot, img.w, img.h, rx, ry)
    ensures SamePixel(Rotated(rot, img), rx, ry, img, x, y)
  {
    var r := Rotated(rot, img);
    var k := Index(rx, ry, r.w, r.h);
    var i := Index(x, y, img.w, img.h);
    assert SourceIndex(rot, img.w, img.h, k) == i;
  }

  // Clockwise: the top row of the image becomes the rightmost column, from the top down, and so on.
  lemma TurnsClockwise<T>(img: Image<T>, x: nat, y: nat)
    requires Proper(img) && x < img.w && y < img.h
    ensures SamePixel(Rotated(0, img), x, y, img, x, y)
    ensures SamePixel(Rotated(90, img), img.h - 1 - y, x, img, x, y)
    ensures SamePixel(Rotated(180, img), img.w - 1 - x, img.h - 1 - y, img, x, y)
    ensures SamePixel(Rotated(270, img), y, img.w - 1 - x, img, x, y)
    ensures Rotated(90, img).w == Rotated(270, img).w == img.h && Rotated(90, img).h == Rotated(270, img).h == img.w
    ensures Rotated(180, img).w == img.w && Rotated(180, img).h == img.h
  {
    PixelMoves(0, img, x, y, x, y);
    PixelMoves(90, img, img.h - 1 - y, x, x, y);
    PixelMoves(180, img, img.w - 1 - x, img.h - 1 - y, x, y);
    PixelMoves(270, img, y, img.w - 1 - x, x, y);
  }

  // ---- the code ----

  // src_start and src_step: any row is start, start + step, start + 2 * step, ...
  function SrcStart(rot: int, W: int, H: int, oy: int): int {
    if rot == 90 then (H - 1) * W + oy
    else if rot == 180 then (H - 1 - oy) * W + (W - 1)
    else if rot == 270 then W - 1 - oy
    else oy * W
  }

  function SrcStep(rot: int, W: int): int {
    if rot == 90 then -W else if rot == 180 then -1 else if rot == 270 then W else 1
  }

  // The stride refines the coordinates: every read is in bounds and is the right pixel.
  lemma StrideIsSource(rot: int, W: nat, H: nat, ox: nat, oy: nat)
    requires IsRotation(rot) && ox < OutWidth(rot, W, H) && oy < OutHeight(rot, W, H)
    ensures var w := OutWidth(rot, W, H);
            var i := SrcStart(rot, W, H, oy) + ox * SrcStep(rot, W);
            && oy * w + ox < W * H
            && 0 <= i < W * H
            && i == SourceIndex(rot, W, H, oy * w + ox)
  {
    var w, h := OutWidth(rot, W, H), OutHeight(rot, W, H);
    var k := Index(ox, oy, w, h);
    var (x, y) := SourceOf(rot, W, H, ox, oy);
    assert SourceIndex(rot, W, H, k) == y * W + x;
    if rot == 90 {
      assert (H - 1) * W + oy - ox * W == (H - 1 - ox) * W + oy;
    }
  }

  // The source index after ox steps in output row oy.
  function LineIndex(rot: int, W: nat, H: nat, oy: nat, ox: nat): int {
    SrcStart(rot, W, H, oy) + ox * SrcStep(rot, W)
  }

  lemma LineNext(rot: int, W: nat, H: nat, oy: nat, ox: nat)
    ensures LineIndex(rot, W, H, oy, 0) == SrcStart(rot, W, H, oy)
    ensures LineIndex(rot, W, H, oy, ox + 1) == LineIndex(rot, W, H, oy, ox) + SrcStep(rot, W)
  {
    assert (ox + 1) * SrcStep(rot, W) == ox * SrcStep(rot, W) + SrcStep(rot, W);
  }

  // The line of row oy reads want's row, in bounds.
  ghost predicate RowReads<T>(src: seq<T>, want: seq<T>, rot: int, W: nat, H: nat, oy: nat, row: nat, outW: nat) {
    row + outW <= |want| &&
    forall ox :: 0 <= ox < outW ==>
      0 <= LineIndex(rot, W, H, oy, ox) < |src| && want[row + ox] == src[LineIndex(rot, W, H, oy, ox)]
  }

  lemma StrideReadsRow<T>(rot: int, img: Image<T>, oy: nat, row: nat)
    requires IsRotation(rot) && Proper(img) && oy < OutHeight(rot, img.w, img.h)
    requires row == oy * OutWidth(rot, img.w, img.h)
    ensures RowReads(img.pix, Rotated(rot, img).pix, rot, img.w, img.h, oy, row, OutWidth(rot, img.w, img.h))
  {
    var outW := OutWidth(rot, img.w, img.h);
    RowInside(oy, OutHeight(rot, img.w, img.h), outW);
    SizeOfRotated(rot, img.w, img.h);
    forall ox | 0 <= ox < outW
      ensures 0 <= LineIndex(rot, img.w, img.h, oy, ox) < |img.pix|
              && Rotated(rot, img).pix[row + ox] == img.pix[LineIndex(rot, img.w, img.h, oy, ox)]
    {
      StrideIsSource(rot, img.w, img.h, ox, oy);
    }
  }

  lemma RowInside(oy: nat, outH: nat, outW: nat)
    requires oy < outH
    ensures 0 <= oy * outW && (oy + 1) * outW == oy * outW + outW <= outH * outW
  {
    MulMonotone(oy + 1, outH, outW);
  }

  ghost predicate Done<T>(dst: seq<T>, want: seq<T>, n: nat) {
    n <= |dst| == |want| && forall k :: 0 <= k < n ==> dst[k] == want[k]
  }

  lemma AllDone<T>(dst: seq<T>, want: seq<T>, n: nat)
    requires Done(dst, want, n) && n == |want|
    ensures dst == want
  {
  }

  // The inner loop of rotate_gray.
  method RotateGrayRow(src: array<byte>, W: nat, H: nat, rot: int, dst: array<byte>, oy: nat, row: nat, outW: nat,
                       ghost want: seq<byte>)
    requires src != dst && Done(dst[..], want, row)
    requires RowReads(src[..], want, rot, W, H, oy, row, outW)
    modifies dst
    ensures Done(dst[..], want, row + outW)
  {
    var step := SrcStep(rot, W);
    var i := SrcStart(rot, W, H, oy);
    LineNext(rot, W, H, oy, 0);
    for ox := 0 to outW
      invariant i == LineIndex(rot, W, H, oy, ox)
      invariant Done(dst[..], want, row + ox)
    {
      dst[row + ox] := src[i];
      LineNext(rot, W, H, oy, ox);
      i := i + step;
    }
  }

  method RotateGray(src: array<byte>, W: nat, H: nat, rot: int, dst: array<byte>)
    requires IsRotation(rot) && src.Length == dst.Length == W * H && src != dst
    modifies dst
    ensures dst[..] == Rotated(rot, Image(W, H, src[..])).pix
  {
    ghost var img := Image(W, H, src[..]);
    if rot == 0 {
      forall i | 0 <= i < W * H {
        dst[i] := src[i];
      }
      assert dst[..] == src[..];
      ZeroIsIdentity(img);
      return;
    }
    var outW := if rot == 180 then W else H;
    var outH := if rot == 180 then H else W;
    ghost var want := Rotated(rot, img).pix;
    SizeOfRotated(rot, W, H);
    assert outH * outW == |want|;
    for oy := 0 to outH
      invariant 0 <= oy * outW && Done(dst[..], want, oy * outW)
    {
      RowInside(oy, outH, outW);
      StrideReadsRow(rot, img, oy, oy * outW);
      RotateGrayRow(src, W, H, rot, dst, oy, oy * outW, outW, want);
    }
    AllDone(dst[..], want, outH * outW);
  }

  // The pixels CameraX delivers, four bytes each, as RGB565 (or whatever toRgb565 gives).
  function RgbaPixels<U>(src: seq<byte>, n: nat, toRgb565: (byte, byte, byte) -> U): (p: seq<U>)
    requires |src| == 4 * n
    ensures |p| == n
  {
    seq(n, i requires 0 <= i < n => toRgb565(src[4 * i], src[4 * i + 1], src[4 * i + 2]))
  }

  // The inner loop of rotate_rgba_to_rgb565. toRgb565 stands for imlib's
  // COLOR_R8_G8_B8_TO_RGB565.
  method RotateRgbaRow<U>(src: array<byte>, W: nat, H: nat, rot: int, dst: array<U>,
                          toRgb565: (byte, byte, byte) -> U, oy: nat, row: nat, outW: nat,
                          ghost pixels: seq<U>, ghost want: seq<U>)
    requires src as object != dst && Done(dst[..], want, row)
    requires src.Length == 4 * |pixels| && pixels == RgbaPixels(src[..], |pixels|, toRgb565)
    requires RowReads(pixels, want, rot, W, H, oy, row, outW)
    modifies dst
    ensures src[..] == old(src[..]) && Done(dst[..], want, row + outW)
  {
    var step := SrcStep(rot, W);
    var i := SrcStart(rot, W, H, oy);
    LineNext(rot, W, H, oy, 0);
    for ox := 0 to outW
      invariant src[..] == old(src[..])
      invariant i == LineIndex(rot, W, H, oy, ox)
      invariant Done(dst[..], want, row + ox)
    {
      assert want[row + ox] == pixels[i];
      var p := 4 * i;
      dst[row + ox] := toRgb565(src[p], src[p + 1], src[p + 2]);
      LineNext(rot, W, H, oy, ox);
      i := i + step;
    }
  }

  method RotateRgbaToRgb565<U>(src: array<byte>, W: nat, H: nat, rot: int, dst: array<U>,
                               toRgb565: (byte, byte, byte) -> U)
    requires IsRotation(rot) && src.Length == 4 * (W * H) && dst.Length == W * H && src as object != dst
    modifies dst
    ensures dst[..] == Rotated(rot, Image(W, H, RgbaPixels(old(src[..]), W * H, toRgb565))).pix
  {
    ghost var pixels := RgbaPixels(src[..], W * H, toRgb565);
    ghost var img := Image(W, H, pixels);
    var outW := if rot % 180 == 0 then W else H;
    var outH := if rot % 180 == 0 then H else W;
    ghost var want := Rotated(rot, img).pix;
    SizeOfRotated(rot, W, H);
    assert outH * outW == |want|;
    for oy := 0 to outH
      invariant src[..] == old(src[..])
      invariant 0 <= oy * outW && Done(dst[..], want, oy * outW)
    {
      RowInside(oy, outH, outW);
      StrideReadsRow(rot, img, oy, oy * outW);
      RotateRgbaRow(src, W, H, rot, dst, toRgb565, oy, oy * outW, outW, pixels, want);
    }
    AllDone(dst[..], want, outH * outW);
  }

  // ---- what rotations are ----

  function Sum(a: int, b: int): int {
    (a + b) % 360
  }

  lemma SourceComposes(a: int, b: int, W: nat, H: nat, ox: nat, oy: nat)
    requires IsRotation(a) && IsRotation(b)
    requires ox < OutWidth(b, OutWidth(a, W, H), OutHeight(a, W, H))
    requires oy < OutHeight(b, OutWidth(a, W, H), OutHeight(a, W, H))
    ensures IsRotation(Sum(a, b))
    ensures OutWidth(Sum(a, b), W, H) == OutWidth(b, OutWidth(a, W, H), OutHeight(a, W, H))
    ensures OutHeight(Sum(a, b), W, H) == OutHeight(b, OutWidth(a, W, H), OutHeight(a, W, H))
    ensures var (x, y) := SourceOf(b, OutWidth(a, W, H), OutHeight(a, W, H), ox, oy);
            SourceOf(a, W, H, x, y) == SourceOf(Sum(a, b), W, H, ox, oy)
  {
  }

  lemma SizeOfRotated(rot: int, W: nat, H: nat)
    ensures OutWidth(rot, W, H) * OutHeight(rot, W, H) == W * H
    ensures OutHeight(rot, W, H) * OutWidth(rot, W, H) == W * H
  {
  }

  lemma IndexComposes(a: int, b: int, W: nat, H: nat, k: nat)
    requires IsRotation(a) && IsRotation(b) && k < W * H
    ensures IsRotation(Sum(a, b))
    ensures OutWidth(a, W, H) * OutHeight(a, W, H) == W * H
    ensures SourceIndex(a, W, H, SourceIndex(b, OutWidth(a, W, H), OutHeight(a, W, H), k))
            == SourceIndex(Sum(a, b), W, H, k)
  {
    var W1, H1 := OutWidth(a, W, H), OutHeight(a, W, H);
    SizeOfRotated(a, W, H);
    SizeOfRotated(b, W1, H1);
    var w, h := OutWidth(b, W1, H1), OutHeight(b, W1, H1);
    Coordinates(k, w, h);
    SourceComposes(a, b, W, H, k % w, k / w);
  }

  // Rotating by a and then by b is rotating by a + b.
  lemma RotationsCompose<T>(a: int, b: int, img: Image<T>)
    requires IsRotation(a) && IsRotation(b) && Proper(img)
    ensures IsRotation(Sum(a, b))
    ensures Rotated(b, Rotated(a, img)) == Rotated(Sum(a, b), img)
  {
    var W, H := img.w, img.h;
    var once, twice := Rotated(Sum(a, b), img), Rotated(b, Rotated(a, img));
    forall k | 0 <= k < W * H
      ensures twice.pix[k] == once.pix[k]
    {
      IndexComposes(a, b, W, H, k);
    }
    assert twice.pix == once.pix;
  }

  lemma ZeroIsIdentity<T>(img: Image<T>)
    requires Proper(img)
    ensures Rotated(0, img) == img
  {
    forall k | 0 <= k < img.w * img.h
      ensures SourceIndex(0, img.w, img.h, k) == k
    {
      Coordinates(k, img.w, img.h);
    }
    assert Rotated(0, img).pix == img.pix;
  }

  // So turning by rot and then by the rest of the circle restores the image.
  lemma RotatingBackRestores<T>(rot: int, img: Image<T>)
    requires IsRotation(rot) && Proper(img)
    ensures Rotated((360 - rot) % 360, Rotated(rot, img)) == img
  {
    RotationsCompose(rot, (360 - rot) % 360, img);
    ZeroIsIdentity(img);
  }

  // Rotating back undoes rotating, index by index.
  lemma IndexBack(rot: int, W: nat, H: nat, i: nat)
    requires IsRotation(rot) && i < W * H
    ensures var W1, H1 := OutWidth(rot, W, H), OutHeight(rot, W, H);
            && W1 * H1 == W * H
            && SourceIndex(rot, W, H, SourceIndex((360 - rot) % 360, W1, H1, i)) == i
            && SourceIndex((360 - rot) % 360, W1, H1, SourceIndex(rot, W, H, i)) == i
  {
    var back := (360 - rot) % 360;
    SizeOfRotated(rot, W, H);
    BackThere(rot, back, W, H, i);
    BackThere(back, rot, OutWidth(rot, W, H), OutHeight(rot, W, H), i);
  }

  lemma BackThere(a: int, b: int, W: nat, H: nat, i: nat)
    requires IsRotation(a) && IsRotation(b) && Sum(a, b) == 0 && i < W * H
    ensures OutWidth(a, W, H) * OutHeight(a, W, H) == W * H
    ensures OutWidth(b, OutWidth(a, W, H), OutHeight(a, W, H)) == W
    ensures OutHeight(b, OutWidth(a, W, H), OutHeight(a, W, H)) == H
    ensures SourceIndex(a, W, H, SourceIndex(b, OutWidth(a, W, H), OutHeight(a, W, H), i)) == i
  {
    IndexComposes(a, b, W, H, i);
    Coordinates(i, W, H);
  }

  // Every source pixel is read exactly once.
  lemma IndexIsBijection(rot: int, W: nat, H: nat, i: nat) returns (k: nat)
    requires IsRotation(rot) && i < W * H
    ensures k < W * H && SourceIndex(rot, W, H, k) == i
    ensures forall j :: 0 <= j < W * H && SourceIndex(rot, W, H, j) == i ==> j == k
  {
    IndexBack(rot, W, H, i);
    k := SourceIndex((360 - rot) % 360, OutWidth(rot, W, H), OutHeight(rot, W, H), i);
    forall j | 0 <= j < W * H && SourceIndex(rot, W, H, j) == i
      ensures j == k
    {
      IndexBack(rot, W, H, j);
    }
  }
}
