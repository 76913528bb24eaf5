/** Encoding an image as a PNG with one stored block, and decoding it back. */
module PngRoundTrip {
  import opened Bytes
  import opened PngFilter
  import opened PngDecode

  // ----- the encoder -----

  function Be(v: u32): (s: seq<byte>)
    ensures |s| == 4
  {
    Digits32(v);
    [v / 0x100_0000, v / 0x1_0000 % 0x100, v / 0x100 % 0x100, v % 0x100]
  }

  datatype Chunk = Chunk(kind: u32, data: seq<byte>, crc: seq<byte>)

  /** Lengths are limited to 31 bits by section 3.2 of RFC 2083. */
  predicate WfChunk(c: Chunk) { |c.data| < 0x8000_0000 && |c.crc| == 4 }

  function ChunkBytes(c: Chunk): (s: seq<byte>)
    requires WfChunk(c)
    ensures |s| == 12 + |c.data|
  {
    Be(|c.data|) + (Be(c.kind) + (c.data + c.crc))
  }

  predicate Ancillary(c: Chunk) { WfChunk(c) && c.kind != IHDR && c.kind != IDAT && c.kind != IEND }

  predicate AllAncillary(cs: seq<Chunk>) { cs == [] || (Ancillary(cs[0]) && AllAncillary(cs[1..])) }

  function ChunksBytes(cs: seq<Chunk>): (s: seq<byte>)
    requires AllAncillary(cs)
  {
    if cs == [] then [] else ChunkBytes(cs[0]) + ChunksBytes(cs[1..])
  }

  /** An 8-bit RGBA image, the filter type of each row, and the bytes the decoder ignores. */
  datatype Image = Image(w: nat, rows: seq<seq<byte>>, fs: seq<byte>)

  /** The filtered image fits one stored block, which also bounds the dimensions. */
  ghost predicate WfImage(im: Image)
  {
    && 0 < im.w <= 0xFFFF && 0 < |im.rows| <= 0xFFFF && |im.fs| == |im.rows| && Rows(im.rows, 4 * im.w)
    && ImageBytes(4 * im.w, |im.rows|) <= 0xFFFF
  }

  datatype Extras = Extras(method': byte, filter: byte, cmf: byte, flg: byte, final: byte,
                           nlen: seq<byte>, adler: seq<byte>, headCrc: seq<byte>, dataCrc: seq<byte>, endCrc: seq<byte>,
                           mid: seq<Chunk>, post: seq<Chunk>, trailing: seq<byte>)

  /** The block is stored: bits 1 and 2 of its first byte are zero (section 3.2.3 of RFC 1951). */
  predicate IsStored(ex: Extras) { ex.final / 2 % 4 == 0 }

  predicate WfExtras(ex: Extras)
  {
    && |ex.nlen| == 2 && |ex.adler| < 0x1000_0000
    && |ex.headCrc| == 4 && |ex.dataCrc| == 4 && |ex.endCrc| == 4
    && AllAncillary(ex.mid) && AllAncillary(ex.post)
  }

  ghost function Payload(im: Image): (s: seq<byte>)
    requires WfImage(im)
    ensures |s| == ImageBytes(4 * im.w, |im.rows|) <= 0xFFFF
  {
    FilterImage(im.rows, im.fs, 4 * im.w, Zeros(4 * im.w))
  }

  lemma ImageBytesBound(stride: nat, h: nat)
    ensures ImageBytes(stride, h) >= h && (h > 0 ==> ImageBytes(stride, h) >= stride + 1)
  {
  }

  /** The data of an IHDR chunk of an 8-bit RGBA image that is not interlaced. */
  function HeadData(w: u32, h: u32, ex: Extras): (s: seq<byte>)
    ensures |s| == 13
  {
    Be(w) + (Be(h) + [8, 6, ex.method', ex.filter, 0])
  }

  function IhdrChunk(w: u32, h: u32, ex: Extras): (c: Chunk)
    requires WfExtras(ex)
    ensures WfChunk(c)
  {
    Chunk(IHDR, HeadData(w, h, ex), ex.headCrc)
  }

  /** A zlib stream of one stored block around the payload. */
  function Stored(pay: seq<byte>, ex: Extras): (s: seq<byte>)
    requires |pay| <= 0xFFFF
  {
    [ex.cmf, ex.flg, ex.final, |pay| % 0x100, |pay| / 0x100] + (ex.nlen + (pay + ex.adler))
  }

  function IdatChunk(pay: seq<byte>, ex: Extras): (c: Chunk)
    requires WfExtras(ex) && |pay| <= 0xFFFF
    ensures WfChunk(c)
  {
    Chunk(IDAT, Stored(pay, ex), ex.dataCrc)
  }

  /** What follows the data chunk. */
  function AfterData(post: seq<Chunk>, crc: seq<byte>, trailing: seq<byte>): (s: seq<byte>)
    requires AllAncillary(post) && |crc| == 4
  {
    ChunksBytes(post) + (ChunkBytes(Chunk(IEND, [], crc)) + trailing)
  }

  /**
   * A file that announces the given dimensions and holds the given bytes in its stored block, whether they agree or
   * not.
   */
  function File(w: u32, h: u32, pay: seq<byte>, ex: Extras): (s: seq<byte>)
    requires WfExtras(ex) && |pay| <= 0xFFFF
  {
    SIG + (ChunkBytes(IhdrChunk(w, h, ex)) + FileRest(pay, ex))
  }

  function FileRest(pay: seq<byte>, ex: Extras): (s: seq<byte>)
    requires WfExtras(ex) && |pay| <= 0xFFFF
  {
    ChunksBytes(ex.mid) + (ChunkBytes(IdatChunk(pay, ex)) + AfterData(ex.post, ex.endCrc, ex.trailing))
  }

  ghost function Encode(im: Image, ex: Extras): (s: seq<byte>)
    requires WfImage(im) && WfExtras(ex)
  {
    File(im.w, |im.rows|, Payload(im), ex)
  }

  // ----- reading encoded bytes -----

  /** The buffer holds s at offset p. */
  ghost predicate Holds(m: Memory, p: nat, s: seq<byte>)
    decreases |s|
  {
    && p + |s| <= |m.buffer|
    && (s == [] || (m.buffer[p] == s[0] && Holds(m, p + 1, s[1..])))
  }

  lemma {:induction false} HoldsWhole(m: Memory, p: nat)
    requires p <= |m.buffer|
    ensures Holds(m, p, m.buffer[p..])
    decreases |m.buffer| - p
  {
    if p < |m.buffer| {
      HoldsWhole(m, p + 1);
      assert m.buffer[p..][1..] == m.buffer[p + 1..];
    }
  }

  lemma {:induction false} HoldsSplit(m: Memory, p: nat, a: seq<byte>, b: seq<byte>)
    requires Holds(m, p, a + b)
    ensures Holds(m, p, a) && Holds(m, p + |a|, b)
    decreases |a|
  {
    if a == [] {
      assert a + b == b;
    } else {
      assert (a + b)[1..] == a[1..] + b;
      HoldsSplit(m, p + 1, a[1..], b);
    }
  }

  lemma {:induction false} HoldsAt(m: Memory, p: nat, s: seq<byte>, k: nat)
    requires Holds(m, p, s) && k < |s|
    ensures p + k < |m.buffer| && m.buffer[p + k] == m.At(p + k) == s[k]
    decreases k
  {
    if k > 0 {
      HoldsAt(m, p + 1, s[1..], k - 1);
    }
  }

  lemma HoldsBe(m: Memory, p: nat, v: u32)
    requires Holds(m, p, Be(v))
    ensures m.Be32(p) == v
  {
    Digits32(v);
    HoldsAt(m, p, Be(v), 0);
    HoldsAt(m, p, Be(v), 1);
    HoldsAt(m, p, Be(v), 2);
    HoldsAt(m, p, Be(v), 3);
  }

  lemma HoldsTake(m: Memory, p: nat, s: seq<byte>)
    requires Holds(m, p, s)
    ensures m.Take(p, |s|) == s
  {
    forall k | 0 <= k < |s| ensures m.Take(p, |s|)[k] == s[k] { HoldsAt(m, p, s, k); }
  }

  /** A chunk in the buffer: the walk collects it and moves past it. */
  lemma WalkChunk(m: Memory, p: nat, hd: Header, c: Chunk)
    requires WfChunk(c) && Holds(m, p, ChunkBytes(c)) && c.kind != IEND
    requires c.kind == IHDR ==> Supported(m, p + 8)
    ensures Holds(m, p + 8, c.data)
    ensures Walk(m, p, hd) == Walk(m, p + |ChunkBytes(c)|, Collect(m, hd, c.kind, |c.data|, p + 8))
  {
    HoldsSplit(m, p, Be(|c.data|), Be(c.kind) + (c.data + c.crc));
    HoldsSplit(m, p + 4, Be(c.kind), c.data + c.crc);
    HoldsSplit(m, p + 8, c.data, c.crc);
    HoldsBe(m, p, |c.data|);
    HoldsBe(m, p + 4, c.kind);
    hide Walk, Collect, Holds;
    WalkStep(m, p, hd);
    WrapSmall(|c.data| + 4);
  }

  lemma WalkSkip(m: Memory, p: nat, hd: Header, c: Chunk)
    requires Ancillary(c) && Holds(m, p, ChunkBytes(c))
    ensures Walk(m, p, hd) == Walk(m, p + |ChunkBytes(c)|, hd)
  {
    hide Walk, Holds, ChunkBytes, Be;
    WalkChunk(m, p, hd, c);
  }

  lemma ChunksFirst(cs: seq<Chunk>)
    requires AllAncillary(cs) && cs != []
    ensures Ancillary(cs[0]) && WfChunk(cs[0]) && AllAncillary(cs[1..])
    ensures ChunksBytes(cs) == ChunkBytes(cs[0]) + ChunksBytes(cs[1..])
  {
  }

  lemma NoChunks(cs: seq<Chunk>)
    requires AllAncillary(cs) && cs == []
    ensures ChunksBytes(cs) == []
  {
  }

  lemma {:induction false} WalkAncillary(m: Memory, p: nat, hd: Header, cs: seq<Chunk>)
    requires AllAncillary(cs) && Holds(m, p, ChunksBytes(cs))
    ensures Walk(m, p, hd) == Walk(m, p + |ChunksBytes(cs)|, hd)
    decreases |cs|
  {
    if cs == [] {
      NoChunks(cs);
    } else {
      hide *;
      ChunksFirst(cs);
      HoldsSplit(m, p, ChunkBytes(cs[0]), ChunksBytes(cs[1..]));
      WalkSkip(m, p, hd, cs[0]);
      WalkAncillary(m, p + |ChunkBytes(cs[0])|, hd, cs[1..]);
    }
  }

  lemma WalkEnd(m: Memory, p: nat, hd: Header, crc: seq<byte>)
    requires |crc| == 4 && Holds(m, p, ChunkBytes(Chunk(IEND, [], crc)))
    ensures Walk(m, p, hd) == Some(hd)
  {
    var c := Chunk(IEND, [], crc);
    HoldsSplit(m, p, Be(|c.data|), Be(c.kind) + (c.data + c.crc));
    HoldsSplit(m, p + 4, Be(c.kind), c.data + c.crc);
    HoldsBe(m, p + 4, c.kind);
    WalkStep(m, p, hd);
  }

  lemma IhdrRead(m: Memory, q: nat, w: u32, h: u32, ex: Extras)
    requires Holds(m, q, HeadData(w, h, ex))
    ensures Supported(m, q) && m.Be32(q) == w && m.Be32(q + 4) == h
  {
    var tail: seq<byte> := [8, 6, ex.method', ex.filter, 0];
    assert HeadData(w, h, ex) == Be(w) + (Be(h) + tail);
    hide Holds, Be, HeadData;
    HoldsSplit(m, q, Be(w), Be(h) + tail);
    HoldsSplit(m, q + 4, Be(h), tail);
    HoldsBe(m, q, w);
    HoldsBe(m, q + 4, h);
    HoldsAt(m, q + 8, tail, 0);
    HoldsAt(m, q + 8, tail, 1);
    HoldsAt(m, q + 8, tail, 4);
  }

  lemma InflateRead(m: Memory, q: nat, pay: seq<byte>, ex: Extras)
    requires |pay| <= 0xFFFF && |ex.nlen| == 2
    requires Holds(m, q, Stored(pay, ex)) && |Stored(pay, ex)| < TWO32
    ensures Inflate(m, q, |Stored(pay, ex)|) == if IsStored(ex) && pay != [] then Some(pay) else None
  {
    var n := |pay|;
    var start: seq<byte> := [ex.cmf, ex.flg, ex.final, n % 0x100, n / 0x100];
    var rest := ex.nlen + (pay + ex.adler);
    assert Stored(pay, ex) == start + rest && |Stored(pay, ex)| >= 7;
    hide Holds, Stored;
    HoldsSplit(m, q, start, rest);
    StartRead(m, q, start);
    HoldsSplit(m, q + 5, ex.nlen, pay + ex.adler);
    HoldsSplit(m, q + 7, pay, ex.adler);
    HoldsTake(m, q + 7, pay);
  }

  lemma StartRead(m: Memory, q: nat, start: seq<byte>)
    requires |start| == 5 && Holds(m, q, start)
    ensures m.At(q + 2) == start[2] && m.At(q + 3) == start[3] && m.At(q + 4) == start[4]
  {
    hide Holds;
    HoldsAt(m, q, start, 2);
    HoldsAt(m, q, start, 3);
    HoldsAt(m, q, start, 4);
  }

  lemma WalkAfterData(m: Memory, p: nat, hd: Header, post: seq<Chunk>, crc: seq<byte>, trailing: seq<byte>)
    requires AllAncillary(post) && |crc| == 4 && Holds(m, p, AfterData(post, crc, trailing))
    ensures Walk(m, p, hd) == Some(hd)
  {
    var ie := Chunk(IEND, [], crc);
    assert WfChunk(ie) && AfterData(post, crc, trailing) == ChunksBytes(post) + (ChunkBytes(ie) + trailing);
    hide *;
    HoldsSplit(m, p, ChunksBytes(post), ChunkBytes(ie) + trailing);
    WalkAncillary(m, p, hd, post);
    HoldsSplit(m, p + |ChunksBytes(post)|, ChunkBytes(ie), trailing);
    WalkEnd(m, p + |ChunksBytes(post)|, hd, crc);
  }

  lemma WalkData(m: Memory, p: nat, hd: Header, c: Chunk)
    requires WfChunk(c) && Holds(m, p, ChunkBytes(c)) && c.kind == IDAT
    ensures Holds(m, p + 8, c.data)
    ensures Walk(m, p, hd) == Walk(m, p + |ChunkBytes(c)|, hd.(hasIdat := true, idat := p + 8, idatSize := |c.data|))
  {
    hide Walk, Holds, ChunkBytes, Be;
    WalkChunk(m, p, hd, c);
  }

  lemma DataSize(c: Chunk)
    requires WfChunk(c)
    ensures |c.data| < 0x1_0000_0000
  {
  }

  /** From the data chunk on: it is recorded, and the walk ends at IEND. */
  lemma WalkTail(m: Memory, p: nat, hd: Header, id: Chunk, post: seq<Chunk>, crc: seq<byte>, trailing: seq<byte>)
    requires WfChunk(id) && id.kind == IDAT && AllAncillary(post) && |crc| == 4
    requires Holds(m, p, ChunkBytes(id) + AfterData(post, crc, trailing))
    ensures Holds(m, p + 8, id.data)
    ensures Walk(m, p, hd) == Some(hd.(hasIdat := true, idat := p + 8, idatSize := |id.data|))
  {
    hide *;
    DataSize(id);
    HoldsSplit(m, p, ChunkBytes(id), AfterData(post, crc, trailing));
    WalkData(m, p, hd, id);
    var found := hd.(hasIdat := true, idat := p + 8, idatSize := |id.data|);
    WalkAfterData(m, p + |ChunkBytes(id)|, found, post, crc, trailing);
  }

  lemma WalkMid(m: Memory, p: nat, hd: Header, mid: seq<Chunk>, id: Chunk, post: seq<Chunk>, crc: seq<byte>,
                trailing: seq<byte>)
    requires AllAncillary(mid) && WfChunk(id) && id.kind == IDAT && AllAncillary(post) && |crc| == 4
    requires Holds(m, p, ChunksBytes(mid) + (ChunkBytes(id) + AfterData(post, crc, trailing)))
    ensures var q := p + |ChunksBytes(mid)| + 8;
      Holds(m, q, id.data) && Walk(m, p, hd) == Some(hd.(hasIdat := true, idat := q, idatSize := |id.data|))
  {
    hide *;
    HoldsSplit(m, p, ChunksBytes(mid), ChunkBytes(id) + AfterData(post, crc, trailing));
    WalkAncillary(m, p, hd, mid);
    WalkTail(m, p + |ChunksBytes(mid)|, hd, id, post, crc, trailing);
  }

  lemma IhdrHeld(m: Memory, p: nat, c: Chunk, w: u32, h: u32, ex: Extras)
    requires WfChunk(c) && c.data == HeadData(w, h, ex) && Holds(m, p, ChunkBytes(c))
    ensures Supported(m, p + 8) && m.Be32(p + 8) == w && m.Be32(p + 12) == h
  {
    HoldsSplit(m, p, Be(|c.data|), Be(c.kind) + (c.data + c.crc));
    HoldsSplit(m, p + 4, Be(c.kind), c.data + c.crc);
    HoldsSplit(m, p + 8, c.data, c.crc);
    IhdrRead(m, p + 8, w, h, ex);
  }

  lemma WalkHeader(m: Memory, p: nat, c: Chunk, w: u32, h: u32, ex: Extras)
    requires WfChunk(c) && c.kind == IHDR && c.data == HeadData(w, h, ex) && Holds(m, p, ChunkBytes(c))
    ensures Walk(m, p, EMPTY) == Walk(m, p + |ChunkBytes(c)|, Header(w, h, false, 0, 0))
  {
    hide Walk, Holds, Supported, ChunkBytes, Be, HeadData;
    IhdrHeld(m, p, c, w, h, ex);
    WalkChunk(m, p, EMPTY, c);
  }

  /** The walk over the chunks of an encoded image ends with its dimensions and the place of its data. */
  lemma WalkEncoded(m: Memory, p: nat, w: u32, h: u32, ih: Chunk, id: Chunk, ex: Extras) returns (q: nat)
    requires WfExtras(ex) && WfChunk(ih) && ih.kind == IHDR && ih.data == HeadData(w, h, ex)
    requires WfChunk(id) && id.kind == IDAT
    requires var after := AfterData(ex.post, ex.endCrc, ex.trailing);
      Holds(m, p, ChunkBytes(ih) + (ChunksBytes(ex.mid) + (ChunkBytes(id) + after)))
    ensures Holds(m, q, id.data)
    ensures Walk(m, p, EMPTY) == Some(Header(w, h, true, q, |id.data|))
  {
    var b := ChunksBytes(ex.mid) + (ChunkBytes(id) + AfterData(ex.post, ex.endCrc, ex.trailing));
    hide *;
    HoldsSplit(m, p, ChunkBytes(ih), b);
    WalkHeader(m, p, ih, w, h, ex);
    WalkMid(m, p + |ChunkBytes(ih)|, Header(w, h, false, 0, 0), ex.mid, id, ex.post, ex.endCrc, ex.trailing);
    q := p + |ChunkBytes(ih)| + |ChunksBytes(ex.mid)| + 8;
  }

  lemma HeldWhole(m: Memory, a: seq<byte>, b: seq<byte>)
    requires m.buffer == a + b
    ensures m.buffer[..|a|] == a && Holds(m, |a|, b)
  {
    assert m.buffer[|a|..] == b;
    HoldsWhole(m, |a|);
  }

  // ----- the pixels -----

  function Concat(rows: seq<seq<byte>>): (s: seq<byte>)
  {
    if rows == [] then [] else rows[0] + Concat(rows[1..])
  }

  /** Copying framed rows, with no wrap-around, strips the filter bytes. */
  lemma {:induction false} CopyAll(pre: seq<byte>, junk: seq<byte>, src: seq<byte>, pos: nat, y: nat, w: u32, h: u32,
                                   rows: seq<seq<byte>>, fs: seq<byte>)
    requires Rows(rows, 4 * w) && |fs| == |rows| == h - y && 4 * w < TWO32 && h * w < TWO32 && y <= h
    requires |pre| == 4 * (y * w) && |junk| == 4 * ((h - y) * w)
    requires pos <= |src| && src[pos..] == Framed(rows, fs) && ImageBytes(4 * w, h - y) == |src| - pos
    ensures CopyRows(pre + junk, src, pos, y, w, h) == Some(pre + Concat(rows))
    decreases h - y
  {
    if y == h {
      assert rows == [] && junk == [];
    } else {
      var row, rest := rows[0], Framed(rows[1..], fs[1..]);
      assert Framed(rows, fs) == [fs[0]] + row + rest;
      RowPlace(y, w, h);
      RowCopied(pre, junk, src, pos, fs[0], row, rest);
      assert Concat(rows) == row + Concat(rows[1..]);
      CopyStep(pre + junk, src, pos, y, w, h);
      hide CopyRows, Framed, Concat, Stride, RowOffset, Memcpy, Wrap32;
      CopyAll(pre + row, junk[4 * w..], src, pos + 4 * w + 1, y + 1, w, h, rows[1..], fs[1..]);
      Assoc(pre, row, Concat(rows[1..]));
    }
  }

  lemma RowPlace(y: nat, w: u32, h: u32)
    requires y < h && 4 * w < TWO32 && h * w < TWO32
    ensures Stride(w) == 4 * w && RowOffset(y, w) == 4 * (y * w)
    ensures y * w + w <= h * w && (h - y) * w == (h - y - 1) * w + w && (y + 1) * w == y * w + w
  {
    hide *;
    RowProduct(y, h, w);
    StrideIs(w);
    OffsetIs(y, w, y * w);
  }

  lemma StrideIs(w: u32)
    requires 4 * w < TWO32
    ensures Stride(w) == 4 * w
  {
    WrapSmall(4 * w);
  }

  lemma OffsetIs(y: nat, w: u32, a: nat)
    requires a == y * w && a < TWO32
    ensures RowOffset(y, w) == 4 * a
  {
    var o := RowOffset(y, w);
    assert o == 4 * Wrap32(a);
    hide RowOffset, Wrap32;
    WrapSmall(a);
  }

  lemma RowCopied(pre: seq<byte>, junk: seq<byte>, src: seq<byte>, pos: nat, f: byte, row: seq<byte>, rest: seq<byte>)
    requires pos <= |src| && src[pos..] == [f] + row + rest && |row| <= |junk|
    ensures Memcpy(pre + junk, |pre|, src, pos + 1, |row|) == Some(pre + row + junk[|row|..])
    ensures pos + |row| + 1 <= |src| && src[pos + |row| + 1..] == rest
  {
    assert src == src[..pos] + ([f] + row + rest);
    var dst := pre + junk;
    assert dst[..|pre|] == pre && dst[|pre| + |row|..] == junk[|row|..] && src[pos + 1..pos + 1 + |row|] == row;
    if row == [] { assert pre + row + junk[0..] == dst; }
  }

  lemma CopyStep(dst: seq<byte>, src: seq<byte>, pos: nat, y: nat, w: u32, h: u32)
    requires y < h
    ensures var d := Memcpy(dst, RowOffset(y, w), src, pos + 1, Stride(w));
      CopyRows(dst, src, pos, y, w, h) == if d.None? then None
                                          else CopyRows(d.value, src, pos + Stride(w) + 1, y + 1, w, h)
  {
  }

  lemma RowProduct(y: nat, h: nat, w: nat)
    requires y < h
    ensures y * w + w <= h * w && (h - y) * w == (h - y - 1) * w + w && (y + 1) * w == y * w + w
  {
    assert (h - y - 1) * w >= 0;
    assert h * w == y * w + (h - y) * w;
  }

  /**
   * Every file with a stored block is decoded to what its dimensions make of the contents of that block, whatever
   * stands in the fields and chunks the decoder does not use. Blocks of another type and empty ones are refused.
   */
  lemma FileDecodes(w: u32, h: u32, pay: seq<byte>, ex: Extras, beyond: nat -> byte, first: bool, second: bool,
                    junk: nat -> byte)
    requires WfExtras(ex) && |pay| <= 0xFFFF
    ensures Decode(Memory(File(w, h, pay, ex), beyond), first, second, junk)
         == if first && IsStored(ex) && pay != [] then Render(pay, w, h, second, junk) else Failed
  {
    var m := Memory(File(w, h, pay, ex), beyond);
    var ih, id := IhdrChunk(w, h, ex), IdatChunk(pay, ex);
    HeldWhole(m, SIG, ChunkBytes(ih) + FileRest(pay, ex));
    var q := WalkEncoded(m, |SIG|, w, h, ih, id, ex);
    InflateRead(m, q, pay, ex);
    hide Walk, Inflate, File, Holds, Stored, Render, WfExtras;
  }

  /**
   * Decoding returns the original dimensions and pixels of every image, for every choice of row
   * filters and whatever stands in the fields and chunks the decoder does not use.
   */
  lemma RoundTrip(im: Image, ex: Extras, beyond: nat -> byte, junk: nat -> byte)
    requires WfImage(im) && WfExtras(ex) && IsStored(ex)
    ensures Decode(Memory(Encode(im, ex), beyond), true, true, junk) == Decoded(im.w, |im.rows|, Concat(im.rows))
  {
    PayloadSize(im);
    FileDecodes(im.w, |im.rows|, Payload(im), ex, beyond, true, true, junk);
    Dimensions(im);
    PayloadBack(im);
    hide Decode, File, CopyRows, UnfilterRows, Unfilter, Framed, ImageBytes, Stride, OutBytes, Concat, Wrap32, Fresh,
         Payload, WfExtras;
    PixelsBack(im, Framed(im.rows, im.fs), junk);
  }

  lemma PayloadSize(im: Image)
    requires WfImage(im)
    ensures |Payload(im)| > 0
  {
    ImageBytesBound(4 * im.w, |im.rows|);
  }

  lemma Dimensions(im: Image)
    requires WfImage(im)
    ensures Stride(im.w) == 4 * im.w && |im.rows| * im.w < TWO32
    ensures OutBytes(im.w, |im.rows|) == 4 * (|im.rows| * im.w) > 0
  {
    var w, h := im.w, |im.rows|;
    var a := h * w;
    ImageProduct(4 * w, h);
    Times4(h, w);
    AtLeast(h, w);
    assert OutBytes(w, h) == Wrap32(4 * a);
    hide *;
    StrideIs(w);
    WrapSmall(4 * a);
  }

  lemma Times4(h: nat, w: nat)
    ensures h * (4 * w) == 4 * (h * w) && w * h * 4 == 4 * (h * w)
  {
    assert w * h == h * w;
  }

  lemma PayloadBack(im: Image)
    requires WfImage(im)
    ensures UnfilterRows(Payload(im), 4 * im.w, |im.rows|, false, Zeros(4 * im.w)) == Done(Framed(im.rows, im.fs))
    ensures |Framed(im.rows, im.fs)| == ImageBytes(4 * im.w, |im.rows|)
  {
    var pay := Payload(im);
    UnfilterInverts(im.rows, im.fs, 4 * im.w, Zeros(4 * im.w), []);
    UnfilterInside(pay, 4 * im.w, |im.rows|, false, Zeros(4 * im.w));
    hide Unfilter, UnfilterRows, Framed, ImageBytes, FilterImage;
    assert pay + [] == pay && Framed(im.rows, im.fs) + [] == Framed(im.rows, im.fs);
  }

  lemma CopyFramed(dst: seq<byte>, w: u32, h: u32, rows: seq<seq<byte>>, fs: seq<byte>)
    requires Rows(rows, 4 * w) && |fs| == |rows| == h && 4 * w < TWO32 && h * w < TWO32 && |dst| == 4 * (h * w)
    requires ImageBytes(4 * w, h) == |Framed(rows, fs)|
    ensures CopyRows(dst, Framed(rows, fs), 0, 0, w, h) == Some(Concat(rows))
  {
    hide CopyRows, Framed, ImageBytes, Concat, Stride;
    var src := Framed(rows, fs);
    assert src[0..] == src && [] + dst == dst && [] + Concat(rows) == Concat(rows);
    CopyAll([], dst, src, 0, 0, w, h, rows, fs);
  }

  /** The rows behind their filter bytes, copied into fresh memory, are the pixels. */
  lemma PixelsBack(im: Image, src: seq<byte>, junk: nat -> byte)
    requires WfImage(im) && src == Framed(im.rows, im.fs) && ImageBytes(4 * im.w, |im.rows|) == |src|
    ensures CopyRows(Fresh(OutBytes(im.w, |im.rows|), junk), src, 0, 0, im.w, |im.rows|) == Some(Concat(im.rows))
  {
    Dimensions(im);
    hide Stride, OutBytes, CopyRows, ImageBytes, Framed, Concat, Wrap32;
    CopyFramed(Fresh(OutBytes(im.w, |im.rows|), junk), im.w, |im.rows|, im.rows, im.fs);
  }

  lemma {:induction false} ImageProduct(stride: nat, h: nat)
    ensures ImageBytes(stride, h) == h * stride + h
  {
    if h > 0 {
      ImageProduct(stride, h - 1);
      assert h * stride == (h - 1) * stride + stride;
    }
  }
}
