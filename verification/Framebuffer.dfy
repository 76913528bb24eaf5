/** Drawing into the display's backing memory, row by row. */
module Framebuffer {
  import opened Bytes

  /** The exclusive end of a run of n from start, clipped to limit; the 32-bit sum may wrap. */
  function ClippedEnd(start: u32, n: u32, limit: u32): (e: nat)
  {
    var end := Wrap32((start as int) + (n as int));
    if end > limit || end < start then limit else end
  }

  /** Clipping is exact, whatever the width, also when the sum wraps. */
  lemma ClipExact(start: u32, n: u32, limit: u32)
    requires start < limit
    ensures ClippedEnd(start, n, limit) == Min((start as int) + (n as int), limit)
  {
  }

  function At(x: nat, y: nat, width: nat): (i: nat) { y * width + x }

  /** Pixels lie inside the buffer, and different pixels at different places. */
  lemma AtInside(x: nat, y: nat, width: nat, height: nat)
    requires x < width && y < height
    ensures y * width + width <= height * width && At(x, y, width) < height * width
  {
    assert (height - y - 1) * width >= 0;
    assert height * width == y * width + width + (height - y - 1) * width;
  }

  lemma RowBelow(x: nat, y: nat, y': nat, width: nat)
    requires x < width && y < y'
    ensures At(x, y, width) < y' * width
  {
    var d := y' - y - 1;
    assert y' == y + 1 + d;
    assert (y + 1 + d) * width == y * width + width + d * width;
  }

  lemma RowsApart(x: nat, y: nat, x': nat, y': nat, width: nat)
    requires x < width && x' < width
    ensures At(x, y, width) == At(x', y', width) <==> x == x' && y == y'
  {
    if y < y' {
      RowBelow(x, y, y', width);
    } else if y' < y {
      RowBelow(x', y', y, width);
    }
  }

  class Framebuffer {
    const width: u32
    const height: u32
    const fb: array<u32>
    var ready: bool

    ghost predicate Valid()
    {
      fb.Length == height * width
    }

    /** A framebuffer for a display size that set-up accepts. */
    constructor (w: u32, h: u32)
      requires 0 < w * h <= 64 * 1024 * 1024
      ensures Valid() && width == w && height == h && ready && fresh(fb)
      ensures forall i :: 0 <= i < fb.Length ==> fb[i] == 0
    {
      width, height, ready := w, h, true;
      fb := new u32[h * w](_ => 0);
    }

    ghost function Pixel(x: nat, y: nat): (c: u32)
      requires Valid() && x < width && y < height
      reads fb
    {
      AtInside(x, y, width, height);
      fb[At(x, y, width)]
    }

    method DrawPixel(x: u32, y: u32, color: u32)
      requires Valid()
      modifies fb
      ensures forall px: nat, py: nat :: px < width && py < height ==>
        Pixel(px, py) == if ready && px == x && py == y then color else old(Pixel(px, py))
    {
      if !ready || x >= width || y >= height { return; }
      AtInside(x, y, width, height);
      fb[At(x, y, width)] := color;
      forall px: nat, py: nat | px < width && py < height
        ensures Pixel(px, py) == if px == x && py == y then color else old(Pixel(px, py))
      {
        RowsApart(px, py, x, y, width);
      }
    }

    /** One row's run of pixels. */
    method FillRow(x: nat, end: nat, y: nat, color: u32)
      requires Valid() && x < width && x <= end <= width && y < height
      modifies fb
      ensures forall px: nat, py: nat :: px < width && py < height ==>
        Pixel(px, py) == if py == y && x <= px < end then color else old(Pixel(px, py))
    {
      AtInside(0, y, width, height);
      var row := y * width;
      var px := x;
      while px < end
        invariant x <= px <= end
        invariant forall i :: 0 <= i < fb.Length ==> fb[i] == if row + x <= i < row + px then color else old(fb[i])
      {
        fb[row + px] := color;
        px := px + 1;
      }
      forall qx: nat, qy: nat | qx < width && qy < height
        ensures Pixel(qx, qy) == if qy == y && x <= qx < end then color else old(Pixel(qx, qy))
      {
        AtInside(qx, qy, width, height);
        if qy < y { RowBelow(qx, qy, y, width); } else if y < qy { AtInside(0, y, width, qy); }
      }
    }

    /** The pixels painted are exactly those of the rectangle that lie on the display. */
    method FillRect(x: u32, y: u32, w: u32, h: u32, color: u32)
      requires Valid()
      modifies fb
      ensures forall px: nat, py: nat :: px < width && py < height ==>
        Pixel(px, py) == if ready && x <= px < (x as int) + (w as int) && y <= py < (y as int) + (h as int) then color
                         else old(Pixel(px, py))
    {
      if !ready || w == 0 || h == 0 { return; }
      if x >= width || y >= height { return; }
      var xEnd, yEnd := ClippedEnd(x, w, width), ClippedEnd(y, h, height);
      ClipExact(x, w, width);
      ClipExact(y, h, height);
      var py: nat := y;
      while py < yEnd
        invariant y <= py <= yEnd
        invariant forall qx: nat, qy: nat :: qx < width && qy < height ==>
          Pixel(qx, qy) == if x <= qx < xEnd && y <= qy < py then color else old(Pixel(qx, qy))
      {
        FillRow(x, xEnd, py, color);
        py := py + 1;
      }
    }
  }
}
