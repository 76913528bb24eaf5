/** When the decoder stays inside its own buffers: the exact condition on a file, and files that break it. */
module PngBounds {
  import opened Bytes
  import opened PngFilter
  import opened PngDecode
  import opened PngRoundTrip

  // ----- the pass over the rows -----

  /** The filter of a row of which part is missing touches a missing byte. */
  predicate Reaches(f: byte, stride: nat, hasPrev: bool)
  {
    (f == 1 && stride > BPP) || (f == 2 && hasPrev) || f == 3 || f == 4
  }

  /** The last row's filter byte is missing, or its filter touches bytes that are. */
  predicate LastRowReaches(data: seq<byte>, stride: nat, h: nat, hasPrev: bool)
    requires h > 0
  {
    var last := ImageBytes(stride, h - 1);
    last >= |data| || Reaches(data[last], stride, hasPrev || h > 1)
  }

  /**
   * The pass touches a byte outside the buffer exactly when the image is longer than the buffer and the last row's
   * filter byte is outside or its filter reaches outside.
   */
  lemma {:induction false} UnfilterExact(data: seq<byte>, stride: nat, h: nat, hasPrev: bool, prev: seq<byte>)
    requires |prev| == stride
    ensures var r := UnfilterRows(data, stride, h, hasPrev, prev);
      && (r.Outside? <==> ImageBytes(stride, h) > |data| && LastRowReaches(data, stride, h, hasPrev))
      && (if r.Outside? then r.at >= |data| else |r.data| == |data|)
    decreases h
  {
    if h > 1 && |data| > stride {
      var row := Recon(data[0], data[1..stride + 1], prev, stride);
      PassStep(data, stride, h, hasPrev, prev);
      LastRowStep(data, stride, h, hasPrev);
      hide *;
      UnfilterExact(data[stride + 1..], stride, h - 1, true, row);
    } else {
      hide Recon;
    }
  }

  lemma LastRowStep(data: seq<byte>, stride: nat, h: nat, hasPrev: bool)
    requires h > 1 && |data| > stride
    ensures ImageBytes(stride, h) == stride + 1 + ImageBytes(stride, h - 1)
    ensures LastRowReaches(data, stride, h, hasPrev) == LastRowReaches(data[stride + 1..], stride, h - 1, true)
  {
    hide Reaches;
    var rest, last := data[stride + 1..], ImageBytes(stride, h - 2);
    assert last < |rest| ==> rest[last] == data[stride + 1 + last];
  }

  lemma PassStep(data: seq<byte>, stride: nat, h: nat, hasPrev: bool, prev: seq<byte>)
    requires |prev| == stride && h > 0 && |data| > stride
    ensures var row := Recon(data[0], data[1..stride + 1], prev, stride);
      var r := UnfilterRows(data, stride, h, hasPrev, prev);
      var s := UnfilterRows(data[stride + 1..], stride, h - 1, true, row);
      if s.Outside? then r == Outside(stride + 1 + s.at) else r.Done? && |r.data| == stride + 1 + |s.data|
  {
  }

  // ----- the copy -----

  /** Widths below 2^30 give a stride that does not wrap: every row that is there is copied inside the pixels. */
  lemma {:induction false} NarrowCopies(dst: seq<byte>, src: seq<byte>, pos: nat, y: nat, w: u32, h: u32)
    requires y <= h && w < 0x4000_0000 && |dst| == 4 * (h * w) < TWO32
    requires pos + ImageBytes(Stride(w), h - y) <= |src|
    ensures CopyRows(dst, src, pos, y, w, h).Some?
    decreases h - y
  {
    if y < h {
      RowProduct(y, h, w);
      WrapSmall(4 * w);
      WrapSmall(y * w);
      var d := Memcpy(dst, RowOffset(y, w), src, pos + 1, Stride(w));
      NarrowCopies(d.value, src, pos + Stride(w) + 1, y + 1, w, h);
    }
  }

  /** From 2^30 on the second row is placed 2^32 bytes or more into the pixels. */
  lemma WideCopies(dst: seq<byte>, src: seq<byte>, w: u32, h: u32)
    requires w >= 0x4000_0000 && h > 0 && |dst| < TWO32 && 0 < Stride(w) <= |dst|
    requires ImageBytes(Stride(w), h) <= |src|
    ensures CopyRows(dst, src, 0, 0, w, h).Some? <==> h == 1
  {
    WrapSmall(0);
    WrapSmall(w);
    var stride := Stride(w);
    hide Stride, Wrap32;
    assert RowOffset(0, w) == 0 && RowOffset(1, w) >= TWO32;
  }

  /** A copy of rows that are not all there leaves the buffer at the latest with the last of them. */
  lemma {:induction false} ShortCopies(dst: seq<byte>, src: seq<byte>, pos: nat, y: nat, w: u32, h: u32)
    requires y < h && Stride(w) > 0 && pos + ImageBytes(Stride(w), h - y) > |src|
    ensures CopyRows(dst, src, pos, y, w, h).None?
    decreases h - y
  {
    var d := Memcpy(dst, RowOffset(y, w), src, pos + 1, Stride(w));
    if d.Some? && y + 1 < h { ShortCopies(d.value, src, pos + Stride(w) + 1, y + 1, w, h); }
  }

  /** The pixels are as long as the rows without their filter bytes, wrap-around included. */
  lemma PixelBytes(w: u32, h: u32)
    requires ImageBytes(Stride(w), h) <= 0xFFFF
    ensures OutBytes(w, h) == h * Stride(w)
  {
    var stride := Stride(w);
    ImageProduct(stride, h);
    var k := 4 * w / TWO32;
    assert 4 * w == k * TWO32 + stride;
    WrapRow(w, h, k, stride);
  }

  lemma WrapRow(w: nat, h: nat, k: nat, stride: nat)
    requires 4 * w == k * TWO32 + stride && h * stride < TWO32
    ensures Wrap32(w * h * 4) == h * stride
  {
    assert w * h * 4 == h * (4 * w) == (h * k) * TWO32 + h * stride;
    WrapMultiple(h * k, h * stride);
  }

  lemma WrapMultiple(k: nat, x: nat)
    requires x < TWO32
    ensures Wrap32(k * TWO32 + x) == x
  {
  }

  lemma RowsFit(w: u32, h: u32)
    requires 0 < h * Stride(w)
    ensures h > 0 && 0 < Stride(w) <= h * Stride(w) && (w < 0x4000_0000 ==> h * Stride(w) == 4 * (h * w))
  {
    var stride := Stride(w);
    if w < 0x4000_0000 { WrapSmall(4 * w); }
    assert w < 0x4000_0000 ==> stride == 4 * w;
    hide *;
    AtLeastOne(h, stride);
    assert h * (4 * w) == 4 * (h * w);
  }

  lemma AtLeastOne(h: nat, stride: nat)
    requires 0 < h * stride
    ensures h > 0 && 0 < stride <= h * stride
  {
    if h > 0 { assert (h - 1) * stride >= 0; }
  }

  /** A stride of 0 leaves no pixels to allocate. */
  lemma StrideZero(w: u32, h: u32)
    requires OutBytes(w, h) > 0
    ensures Stride(w) > 0
  {
    if Stride(w) == 0 {
      var k := 4 * w / TWO32;
      assert 4 * w == k * TWO32;
      WrapRow(w, h, k, 0);
    }
  }

  // ----- the decoder -----

  /**
   * The stored block is shorter than the image the header announces, and the last row's filter reaches what is
   * missing or the rows are copied; or it is not, and two or more rows of width 2^30 or more are copied.
   */
  predicate Overruns(raw: seq<byte>, w: u32, h: u32, second: bool)
  {
    var copied := second && OutBytes(w, h) > 0;
    if ImageBytes(Stride(w), h) > |raw| then LastRowReaches(raw, Stride(w), h, false) || copied
    else copied && w >= 0x4000_0000 && h >= 2
  }

  lemma RenderExact(raw: seq<byte>, w: u32, h: u32, second: bool, junk: nat -> byte)
    requires |raw| <= 0xFFFF
    ensures Render(raw, w, h, second, junk).OutOfBounds? <==> Overruns(raw, w, h, second)
  {
    UnfilterExact(raw, Stride(w), h, false, Zeros(Stride(w)));
    var pass := UnfilterRows(raw, Stride(w), h, false, Zeros(Stride(w)));
    if pass.Done? && OutBytes(w, h) > 0 && second {
      hide UnfilterRows, LastRowReaches;
      CopyExact(pass.data, w, h, junk);
    }
  }

  lemma CopyExact(src: seq<byte>, w: u32, h: u32, junk: nat -> byte)
    requires |src| <= 0xFFFF && OutBytes(w, h) > 0
    ensures CopyRows(Fresh(OutBytes(w, h), junk), src, 0, 0, w, h).None?
       <==> ImageBytes(Stride(w), h) > |src| || (w >= 0x4000_0000 && h >= 2)
  {
    var dst := Fresh(OutBytes(w, h), junk);
    StrideZero(w, h);
    if ImageBytes(Stride(w), h) > |src| {
      hide CopyRows, OutBytes, Stride, Wrap32;
      ShortCopies(dst, src, 0, 0, w, h);
    } else {
      PixelBytes(w, h);
      hide CopyRows, ImageBytes, OutBytes, Fresh;
      RowsFit(w, h);
      if w < 0x4000_0000 { NarrowCopies(dst, src, 0, 0, w, h); } else { WideCopies(dst, src, w, h); }
    }
  }

  /** The decoder leaves its own buffers on exactly the inputs that reach a stored block which overruns. */
  lemma DecodeExact(m: Memory, first: bool, second: bool, junk: nat -> byte)
    ensures Decode(m, first, second, junk).OutOfBounds? <==>
      && |m.buffer| >= 8 && m.buffer[..8] == SIG && first
      && var hd := Walk(m, 8, EMPTY);
         && hd.Some? && hd.value.hasIdat
         && var raw := Inflate(m, hd.value.idat, hd.value.idatSize);
            raw.Some? && Overruns(raw.value, hd.value.w, hd.value.h, second)
  {
    if |m.buffer| >= 8 && m.buffer[..8] == SIG {
      var hd := Walk(m, 8, EMPTY);
      hide Walk, Render, Overruns;
      if hd.Some? && hd.value.hasIdat {
        var raw := Inflate(m, hd.value.idat, hd.value.idatSize);
        if raw.Some? { RenderExact(raw.value, hd.value.w, hd.value.h, second, junk); }
      }
    }
  }

  /** The same for every file with a stored block, in terms of what the file announces and holds. */
  lemma FileExact(w: u32, h: u32, pay: seq<byte>, ex: Extras, beyond: nat -> byte, first: bool, second: bool,
                  junk: nat -> byte)
    requires WfExtras(ex) && |pay| <= 0xFFFF
    ensures Decode(Memory(File(w, h, pay, ex), beyond), first, second, junk).OutOfBounds? <==>
      first && IsStored(ex) && pay != [] && Overruns(pay, w, h, second)
  {
    FileDecodes(w, h, pay, ex, beyond, first, second, junk);
    RenderExact(pay, w, h, second, junk);
    hide Decode, Render, Overruns, File, WfExtras;
  }

  /** Pixels come back exactly when nothing overruns, memory is found, and 4 * w * h is not a multiple of 2^32. */
  lemma RenderDecodes(raw: seq<byte>, w: u32, h: u32, second: bool, junk: nat -> byte)
    requires |raw| <= 0xFFFF
    ensures var r := Render(raw, w, h, second, junk);
      && (r.Decoded? <==> !Overruns(raw, w, h, second) && second && 4 * w * h % 0x1_0000_0000 != 0)
      && (r.Decoded? ==> r.w == w && r.h == h)
  {
    RenderExact(raw, w, h, second, junk);
    assert w * h * 4 == 4 * w * h;
    hide Overruns, CopyRows, UnfilterRows;
  }

  // ----- one file for each way to overrun, and one that does not -----

  /** Two rows announced, one there: the second row's filter byte is outside. */
  lemma MissingRowExample(ex: Extras, beyond: nat -> byte, second: bool, junk: nat -> byte)
    requires WfExtras(ex) && IsStored(ex)
    ensures Decode(Memory(File(1, 2, [0, 9, 9, 9, 9], ex), beyond), true, second, junk).OutOfBounds?
  {
    FileExact(1, 2, [0, 9, 9, 9, 9], ex, beyond, true, second, junk);
    assert ImageBytes(4, 1) == 5;
  }

  /** A row without its bytes whose filter is Average. */
  lemma ReachingFilterExample(ex: Extras, beyond: nat -> byte, second: bool, junk: nat -> byte)
    requires WfExtras(ex) && IsStored(ex)
    ensures Decode(Memory(File(1, 1, [3], ex), beyond), true, second, junk).OutOfBounds?
  {
    FileExact(1, 1, [3], ex, beyond, true, second, junk);
    assert ImageBytes(4, 0) == 0;
  }

  /**
   * A row without its bytes whose filter is None: only the copy leaves the block, and without memory there is no copy.
   */
  lemma ShortCopyExample(ex: Extras, beyond: nat -> byte, second: bool, junk: nat -> byte)
    requires WfExtras(ex) && IsStored(ex)
    ensures Decode(Memory(File(1, 1, [0], ex), beyond), true, second, junk) == if second then OutOfBounds else Failed
  {
    FileDecodes(1, 1, [0], ex, beyond, true, second, junk);
    FileExact(1, 1, [0], ex, beyond, true, second, junk);
    assert ImageBytes(4, 0) == 0 && Stride(1) == 4 && OutBytes(1, 1) == 4;
  }

  /**
   * Two rows of width 2^30 + 1, whose stride wraps to 4: all rows are there, and the second is copied 2^32 bytes on.
   */
  lemma WideRowExample(pay: seq<byte>, ex: Extras, beyond: nat -> byte, junk: nat -> byte)
    requires WfExtras(ex) && IsStored(ex) && |pay| == 10
    ensures Decode(Memory(File(0x4000_0001, 2, pay, ex), beyond), true, true, junk).OutOfBounds?
  {
    WideOverruns(pay);
    hide *;
    FileExact(0x4000_0001, 2, pay, ex, beyond, true, true, junk);
  }

  lemma WideOverruns(pay: seq<byte>)
    requires |pay| == 10
    ensures Overruns(pay, 0x4000_0001, 2, true)
  {
    assert Stride(0x4000_0001) == 4 && OutBytes(0x4000_0001, 2) == 8;
    assert ImageBytes(4, 1) == 5 && ImageBytes(4, 2) == 10;
  }
}
