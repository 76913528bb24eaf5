/** PNG row filters with four bytes per pixel (section 6 of RFC 2083), and their in-place inverse. */
module PngFilter {
  import opened Bytes

  const BPP: nat := 4

  function Abs(x: int): int { if x < 0 then -x else x }

  /** Of the three neighbours the one nearest to a + b - c; ties go to a, then to b. */
  function Paeth(a: byte, b: byte, c: byte): (r: byte)
    ensures r == a || r == b || r == c
    ensures var p := (a as int) + (b as int) - (c as int);
      && Abs(p - r) <= Abs(p - a) && Abs(p - r) <= Abs(p - b) && Abs(p - r) <= Abs(p - c)
      && (Abs(p - a) == Abs(p - r) ==> r == a)
      && (Abs(p - b) == Abs(p - r) ==> r == a || r == b)
  {
    var p := (a as int) + (b as int) - (c as int);
    var pa, pb, pc := Abs(p - a), Abs(p - b), Abs(p - c);
    if pa <= pb && pa <= pc then a else if pb <= pc then b else c
  }

  /** What a filter type predicts from the bytes to the left, above, and above left; 0 for None and unknown types. */
  function Predict(f: byte, a: byte, b: byte, c: byte): (r: byte)
  {
    if f == 1 then a
    else if f == 2 then b
    else if f == 3 then ((a as int) + (b as int)) / 2
    else if f == 4 then Paeth(a, b, c)
    else 0
  }

  function Left(s: seq<byte>, x: nat): (r: byte)
    requires x < |s| + BPP
  {
    if x >= BPP then s[x - BPP] else 0
  }

  function Add8(a: int, b: int): (r: byte) { (a + b) % 0x100 }

  function Sub8(a: int, b: int): (r: byte) { (a - b) % 0x100 }

  lemma AddSub(o: byte, p: byte)
    ensures Add8(Sub8(o, p), p) == o && Sub8(Add8(o, p), p) == o
  {
    var d, e := Sub8(o, p), Add8(o, p);
    Mod256(o - p, if o >= p then 0 else -1);
    Mod256(o + p, if (o as int) + (p as int) < 0x100 then 0 else 1);
    Mod256(d + p, if o >= p then 0 else 1);
    Mod256(e - p, if (o as int) + (p as int) < 0x100 then 0 else -1);
  }

  lemma Mod256(x: int, q: int)
    requires 0 <= x - 0x100 * q < 0x100
    ensures x % 0x100 == x - 0x100 * q
  {
  }

  // ----- one row -----

  /**
   * The encoder's side: byte x of a row filtered as sections 6.2 to 6.6 of RFC 2083 say, with four bytes to a pixel.
   * Where there is no byte to the left or above, zero stands for it; types that the standard does not define filter
   * nothing.
   */
  function FilterByte(f: byte, row: seq<byte>, prev: seq<byte>, x: nat): (r: byte)
    requires x < |row| == |prev|
  {
    var orig, up := row[x] as int, prev[x] as int;
    var left, upLeft := if x < 4 then 0 else row[x - 4] as int, if x < 4 then 0 else prev[x - 4] as int;
    if f == 1 then (orig - left) % 256
    else if f == 2 then (orig - up) % 256
    else if f == 3 then (orig - (left + up) / 2) % 256
    else if f == 4 then (orig - (Paeth(left, up, upLeft) as int)) % 256
    else row[x]
  }

  function FilterRow(f: byte, row: seq<byte>, prev: seq<byte>): (r: seq<byte>)
    requires |row| == |prev|
    ensures |r| == |row|
    ensures forall x :: 0 <= x < |row| ==> r[x] == FilterByte(f, row, prev, x)
  {
    seq(|row|, x requires 0 <= x < |row| => FilterByte(f, row, prev, x))
  }

  /** What the standard subtracts is what the decoder predicts. */
  lemma FilterPredicts(f: byte, row: seq<byte>, prev: seq<byte>, x: nat)
    requires x < |row| == |prev|
    ensures FilterRow(f, row, prev)[x] == Sub8(row[x], Predict(f, Left(row, x), prev[x], Left(prev, x)))
  {
    hide Paeth;
    if f == 0 || f > 4 { Mod256(row[x] as int, 0); }
  }

  /** The decoder's side: the first k bytes, each plus its prediction from bytes already reconstructed. */
  function Recon(f: byte, raw: seq<byte>, prev: seq<byte>, k: nat): (r: seq<byte>)
    requires k <= |raw| == |prev|
    ensures |r| == k
  {
    if k == 0 then []
    else
      var r := Recon(f, raw, prev, k - 1);
      r + [Add8(raw[k - 1], Predict(f, Left(r, k - 1), prev[k - 1], Left(prev, k - 1)))]
  }

  lemma {:induction false} ReconPrefix(f: byte, raw: seq<byte>, prev: seq<byte>, j: nat, k: nat)
    requires j <= k <= |raw| == |prev|
    ensures Recon(f, raw, prev, k)[..j] == Recon(f, raw, prev, j)
    decreases k
  {
    if j < k {
      ReconPrefix(f, raw, prev, j, k - 1);
      assert Recon(f, raw, prev, k)[..j] == Recon(f, raw, prev, k - 1)[..j];
    }
  }

  /** Reconstructing a filtered row gives the original row. */
  lemma {:induction false} ReconFilter(f: byte, row: seq<byte>, prev: seq<byte>, k: nat)
    requires k <= |row| == |prev|
    ensures Recon(f, FilterRow(f, row, prev), prev, k) == row[..k]
  {
    if k > 0 {
      ReconFilter(f, row, prev, k - 1);
      var p := Predict(f, Left(row, k - 1), prev[k - 1], Left(prev, k - 1));
      assert Left(row[..k - 1], k - 1) == Left(row, k - 1);
      FilterPredicts(f, row, prev, k - 1);
      hide Predict, Add8, Sub8, FilterRow, FilterByte;
      AddSub(row[k - 1], p);
      assert row[..k] == row[..k - 1] + [row[k - 1]];
    }
  }

  /** Byte x of a reconstructed row is the raw byte plus its prediction from the row itself. */
  lemma ReconAt(f: byte, raw: seq<byte>, prev: seq<byte>, x: nat)
    requires x < |raw| == |prev|
    ensures var row := Recon(f, raw, prev, |raw|);
      row[x] == Add8(raw[x], Predict(f, Left(row, x), prev[x], Left(prev, x)))
  {
    var row := Recon(f, raw, prev, |raw|);
    ReconPrefix(f, raw, prev, x + 1, |raw|);
    ReconPrefix(f, raw, prev, x, |raw|);
    hide Predict, Add8;
    var p, q := Recon(f, raw, prev, x), Recon(f, raw, prev, x + 1);
    assert row[x] == row[..x + 1][x] == q[x];
    assert Left(row, x) == Left(row[..x], x) == Left(p, x);
  }

  /** Filtering a reconstructed row gives back the filtered bytes: the two are inverse to each other. */
  lemma FilterRecon(f: byte, raw: seq<byte>, prev: seq<byte>)
    requires |raw| == |prev|
    ensures FilterRow(f, Recon(f, raw, prev, |raw|), prev) == raw
  {
    hide Predict, Add8, Sub8, Recon, Left, FilterRow;
    var row := Recon(f, raw, prev, |raw|);
    forall x | 0 <= x < |raw| ensures FilterRow(f, row, prev)[x] == raw[x] {
      ReconAt(f, raw, prev, x);
      FilterPredicts(f, row, prev, x);
      AddSub(raw[x], Predict(f, Left(row, x), prev[x], Left(prev, x)));
    }
  }

  /** Bytes whose prediction is zero are left as they are. */
  lemma {:induction false} ReconIdentity(f: byte, raw: seq<byte>, prev: seq<byte>, k: nat)
    requires k <= |raw| == |prev|
    requires f == 0 || f > 4 || (f == 1 && k <= BPP) || (f == 2 && forall x :: 0 <= x < |prev| ==> prev[x] == 0)
    ensures Recon(f, raw, prev, k) == raw[..k]
  {
    if k > 0 {
      ReconIdentity(f, raw, prev, k - 1);
      assert raw[..k] == raw[..k - 1] + [raw[k - 1]];
    }
  }

  // ----- a whole image -----

  function Zeros(n: nat): (r: seq<byte>)
    ensures |r| == n && forall i :: 0 <= i < n ==> r[i] == 0
  {
    seq(n, i => 0)
  }

  /** Bytes needed by h rows of the given stride, each behind its filter byte. */
  function ImageBytes(stride: nat, h: nat): nat
  {
    if h == 0 then 0 else stride + 1 + ImageBytes(stride, h - 1)
  }

  /** Every row reconstructed from the reconstructed row above it; filter bytes and anything after stay. */
  function Unfilter(data: seq<byte>, stride: nat, h: nat, prev: seq<byte>): (r: seq<byte>)
    requires |prev| == stride && ImageBytes(stride, h) <= |data|
    ensures |r| == |data|
    decreases h
  {
    if h == 0 then data
    else
      var row := Recon(data[0], data[1..stride + 1], prev, stride);
      [data[0]] + row + Unfilter(data[stride + 1..], stride, h - 1, row)
  }

  ghost predicate Rows(rows: seq<seq<byte>>, stride: nat) { forall i :: 0 <= i < |rows| ==> |rows[i]| == stride }

  /** The image as an encoder lays it out, with any filter type per row. */
  function FilterImage(rows: seq<seq<byte>>, fs: seq<byte>, stride: nat, prev: seq<byte>): (r: seq<byte>)
    requires Rows(rows, stride) && |fs| == |rows| && |prev| == stride
    ensures |r| == ImageBytes(stride, |rows|)
    decreases |rows|
  {
    if rows == [] then []
    else [fs[0]] + FilterRow(fs[0], rows[0], prev) + FilterImage(rows[1..], fs[1..], stride, rows[0])
  }

  /** Rows behind their filter bytes. */
  function Framed(rows: seq<seq<byte>>, fs: seq<byte>): (r: seq<byte>)
    requires |fs| == |rows|
  {
    if rows == [] then [] else [fs[0]] + rows[0] + Framed(rows[1..], fs[1..])
  }

  lemma UnfilterStep(f: byte, raw: seq<byte>, tail: seq<byte>, stride: nat, h: nat, prev: seq<byte>)
    requires |raw| == |prev| == stride && h > 0 && ImageBytes(stride, h - 1) <= |tail|
    ensures Unfilter([f] + raw + tail, stride, h, prev)
         == [f] + Recon(f, raw, prev, stride) + Unfilter(tail, stride, h - 1, Recon(f, raw, prev, stride))
  {
  }

  /** One more row in front of an image that unfilters to t. */
  lemma UnfilterCons(f: byte, raw: seq<byte>, row: seq<byte>, tail: seq<byte>, t: seq<byte>, rest: seq<byte>,
                     stride: nat, h: nat, prev: seq<byte>)
    requires |raw| == |row| == |prev| == stride && h > 0 && ImageBytes(stride, h - 1) == |tail|
    requires Recon(f, raw, prev, stride) == row && Unfilter(tail + rest, stride, h - 1, row) == t + rest
    ensures ImageBytes(stride, h) <= |[f] + raw + tail + rest|
    ensures Unfilter([f] + raw + tail + rest, stride, h, prev) == [f] + row + t + rest
  {
    assert ImageBytes(stride, h) == stride + 1 + |tail|;
    hide *;
    UnfilterStep(f, raw, tail + rest, stride, h, prev);
    Assoc([f] + raw, tail, rest);
    Assoc([f] + row, t, rest);
  }

  /** Unfiltering inverts filtering for every image and every choice of filters. */
  lemma {:induction false} UnfilterInverts(rows: seq<seq<byte>>, fs: seq<byte>, stride: nat, prev: seq<byte>,
                                           rest: seq<byte>)
    requires Rows(rows, stride) && |fs| == |rows| && |prev| == stride
    ensures Unfilter(FilterImage(rows, fs, stride, prev) + rest, stride, |rows|, prev) == Framed(rows, fs) + rest
    decreases |rows|
  {
    if rows == [] {
      assert FilterImage(rows, fs, stride, prev) + rest == rest == Framed(rows, fs) + rest;
    } else {
      var row := rows[0];
      var raw, tail := FilterRow(fs[0], row, prev), FilterImage(rows[1..], fs[1..], stride, row);
      UnfilterInverts(rows[1..], fs[1..], stride, row, rest);
      ReconFilter(fs[0], row, prev, stride);
      assert row[..stride] == row;
      hide Recon, Unfilter, FilterRow;
      UnfilterCons(fs[0], raw, row, tail, Framed(rows[1..], fs[1..]), rest, stride, |rows|, prev);
    }
  }

  // ----- buffers that may be too short -----

  /** A pass over all rows that stays inside the buffer, or the first place outside of it that it touches. */
  datatype Pass = Done(data: seq<byte>) | Outside(at: nat)

  /**
   * A row of which only n bytes are in the buffer: the first byte past them that its filter touches. None, unknown
   * types, and Up without a row above touch nothing; Sub begins with the second pixel.
   */
  function ShortRow(f: byte, stride: nat, n: nat, hasPrev: bool): (x: Option<nat>)
    requires n < stride
  {
    if f == 1 then (if stride <= BPP then None else Some(if n < BPP then BPP else n))
    else if (f == 2 && hasPrev) || f == 3 || f == 4 then Some(n)
    else None
  }

  /** The decoder's pass over h rows, whatever the length of the buffer: it reads the filter byte of every row. */
  function UnfilterRows(data: seq<byte>, stride: nat, h: nat, hasPrev: bool, prev: seq<byte>): (r: Pass)
    requires |prev| == stride
    decreases h
  {
    if h == 0 then Done(data)
    else if data == [] then Outside(0)
    else if |data| <= stride then
      var x := ShortRow(data[0], stride, |data| - 1, hasPrev);
      if x.Some? then Outside(1 + x.value) else if h == 1 then Done(data) else Outside(stride + 1)
    else
      var row := Recon(data[0], data[1..stride + 1], prev, stride);
      Behind([data[0]] + row, UnfilterRows(data[stride + 1..], stride, h - 1, true, row))
  }

  /** A pass over what follows the given bytes, seen from their start. */
  function Behind(pre: seq<byte>, r: Pass): (p: Pass)
  {
    match r
    case Done(data) => Done(pre + data)
    case Outside(at) => Outside(|pre| + at)
  }

  lemma BehindTwice(a: seq<byte>, b: seq<byte>, r: Pass)
    ensures Behind(a + b, r) == Behind(a, Behind(b, r))
  {
    if r.Done? { Assoc(a, b, r.data); }
  }

  /** With all rows in the buffer the pass is Unfilter. */
  lemma {:induction false} UnfilterInside(data: seq<byte>, stride: nat, h: nat, hasPrev: bool, prev: seq<byte>)
    requires |prev| == stride && ImageBytes(stride, h) <= |data|
    ensures UnfilterRows(data, stride, h, hasPrev, prev) == Done(Unfilter(data, stride, h, prev))
    decreases h
  {
    if h > 0 {
      var row := Recon(data[0], data[1..stride + 1], prev, stride);
      UnfilterInside(data[stride + 1..], stride, h - 1, true, row);
    }
  }

  // ----- the decoder, in place -----

  /** The row at the given offset has its first x bytes reconstructed; everything else is as in snap. */
  ghost predicate RowAt(now: seq<byte>, snap: seq<byte>, row: nat, stride: nat, f: byte, prev: seq<byte>, x: nat)
  {
    && |prev| == stride && row + stride <= |snap| && x <= stride
    && now == snap[..row] + Recon(f, snap[row..row + stride], prev, x) + snap[row + x..]
  }

  lemma RowStep(now: seq<byte>, snap: seq<byte>, row: nat, stride: nat, f: byte, prev: seq<byte>, x: nat)
    requires RowAt(now, snap, row, stride, f, prev, x) && x < stride
    ensures |now| == |snap| && now[row + x] == snap[row + x]
    ensures x >= BPP ==> now[row + x - BPP] == Left(Recon(f, snap[row..row + stride], prev, x), x)
    ensures forall k :: 0 <= k < row ==> now[k] == snap[k]
    ensures var v := Add8(now[row + x], Predict(f, if x >= BPP then now[row + x - BPP] else 0, prev[x], Left(prev, x)));
      RowAt(now[row + x := v], snap, row, stride, f, prev, x + 1)
  {
    hide Predict, Add8;
    var raw := snap[row..row + stride];
    var r := Recon(f, raw, prev, x);
    assert raw[x] == snap[row + x];
    var v := Add8(now[row + x], Predict(f, if x >= BPP then now[row + x - BPP] else 0, prev[x], Left(prev, x)));
    assert now[row + x := v] == snap[..row] + (r + [v]) + snap[row + x + 1..];
  }

  /** The row above, where prevAt points; a first row has none and predicts from zeros. */
  function RowAbove(data: seq<byte>, hasPrev: bool, prevAt: nat, stride: nat): (r: seq<byte>)
    requires hasPrev ==> prevAt + stride <= |data|
    ensures |r| == stride
  {
    if hasPrev then data[prevAt..prevAt + stride] else Zeros(stride)
  }

  ghost predicate Above(data: seq<byte>, hasPrev: bool, prevAt: nat, stride: nat, row: nat, prev: seq<byte>)
  {
    (hasPrev ==> prevAt + stride < row && prevAt + stride <= |data|) && prev == RowAbove(data, hasPrev, prevAt, stride)
  }

  lemma RowStart(snap: seq<byte>, row: nat, stride: nat, f: byte, prev: seq<byte>, x: nat)
    requires |prev| == stride && row + stride <= |snap| && x <= stride
    requires x == 0 || f == 0 || f > 4 || (f == 1 && x <= BPP) || (f == 2 && prev == Zeros(stride))
    ensures RowAt(snap, snap, row, stride, f, prev, x)
  {
    var raw := snap[row..row + stride];
    if x > 0 { ReconIdentity(f, raw, prev, x); }
    assert raw[..x] == snap[row..row + x];
    assert snap == snap[..row] + snap[row..row + x] + snap[row + x..];
  }

  function Place(row: nat, x: Option<nat>): (r: Option<nat>) { if x.None? then None else Some(row + x.value) }

  /**
   * What a row loop does: the whole row, or the first place outside the buffer; a short row it does not touch stays.
   */
  ghost predicate RowPass(now: seq<byte>, snap: seq<byte>, row: nat, stride: nat, f: byte, hasPrev: bool,
                          prev: seq<byte>, out: Option<nat>)
  {
    if row + stride <= |snap| then out.None? && RowAt(now, snap, row, stride, f, prev, stride)
    else
      && row <= |snap| && out == Place(row, ShortRow(f, stride, |snap| - row, hasPrev))
      && (out.None? ==> now == snap)
  }

  /** A row of which x bytes are done, if all of it is in the buffer. */
  ghost predicate RowSoFar(now: seq<byte>, snap: seq<byte>, row: nat, stride: nat, f: byte, prev: seq<byte>, x: nat)
  {
    |now| == |snap| && (row + stride <= |snap| ==> RowAt(now, snap, row, stride, f, prev, x))
  }

  lemma RowBegin(snap: seq<byte>, row: nat, stride: nat, f: byte, prev: seq<byte>, x: nat)
    requires |prev| == stride && x <= stride
    requires x == 0 || f == 0 || f > 4 || (f == 1 && x <= BPP) || (f == 2 && prev == Zeros(stride))
    ensures RowSoFar(snap, snap, row, stride, f, prev, x)
  {
    hide RowAt;
    if row + stride <= |snap| { RowStart(snap, row, stride, f, prev, x); }
  }

  /** One more byte: v is what the loop stores, given what it reads to the left, above, and above left. */
  lemma RowNext(now: seq<byte>, snap: seq<byte>, row: nat, stride: nat, f: byte, prev: seq<byte>, x: nat, a: byte,
                v: byte)
    requires RowSoFar(now, snap, row, stride, f, prev, x) && x < stride == |prev| && row + x < |snap|
    requires a == if x >= BPP then now[row + x - BPP] else 0
    requires v == Add8(now[row + x], Predict(f, a, prev[x], Left(prev, x)))
    ensures RowSoFar(now[row + x := v], snap, row, stride, f, prev, x + 1)
  {
    hide RowAt, Predict, Add8, Left;
    if row + stride <= |snap| { RowStep(now, snap, row, stride, f, prev, x); }
  }

  /** What the loops read above and above left. */
  lemma AboveAt(now: seq<byte>, snap: seq<byte>, hasPrev: bool, prevAt: nat, stride: nat, row: nat, prev: seq<byte>,
                x: nat)
    requires Above(snap, hasPrev, prevAt, stride, row, prev) && x < stride && |now| == |snap|
    requires forall k :: 0 <= k < row && k < |snap| ==> now[k] == snap[k]
    ensures hasPrev ==>
      prevAt + x < |now| && prev[x] == now[prevAt + x] && Left(prev, x) == if x >= BPP then now[prevAt + x - BPP] else 0
    ensures !hasPrev ==> prev[x] == 0 && Left(prev, x) == 0
  {
  }

  /** The loop came to its end, so the row is all there, or it is short and the loop had nothing to do. */
  lemma RowFinish(now: seq<byte>, snap: seq<byte>, row: nat, stride: nat, f: byte, hasPrev: bool, prev: seq<byte>)
    requires RowSoFar(now, snap, row, stride, f, prev, stride) && row <= |snap|
    requires row + stride > |snap| ==> now == snap && ShortRow(f, stride, |snap| - row, hasPrev).None?
    ensures RowPass(now, snap, row, stride, f, hasPrev, prev, None)
  {
  }

  lemma FirstUp(snap: seq<byte>, row: nat, stride: nat, prevAt: nat, prev: seq<byte>)
    requires row <= |snap| && Above(snap, false, prevAt, stride, row, prev)
    ensures RowPass(snap, snap, row, stride, 2, false, prev, None)
  {
    hide RowAt, Recon;
    if row + stride <= |snap| { RowStart(snap, row, stride, 2, prev, stride); }
  }

  method SubRow(data: array<byte>, row: nat, stride: nat, hasPrev: bool, ghost prev: seq<byte>)
    returns (out: Option<nat>)
    requires row <= data.Length && |prev| == stride
    modifies data
    ensures RowPass(data[..], old(data[..]), row, stride, 1, hasPrev, prev, out)
  {
    hide RowSoFar, RowAt, Recon, Add8;
    ghost var snap := data[..];
    var x := Min(BPP, stride);
    RowBegin(snap, row, stride, 1, prev, x);
    while x < stride
      invariant Min(BPP, stride) <= x <= stride && (x == Min(BPP, stride) || row + x <= data.Length)
      invariant RowSoFar(data[..], snap, row, stride, 1, prev, x)
      invariant x == Min(BPP, stride) ==> data[..] == snap
    {
      if row + x >= data.Length { return Some(row + x); }
      var v := Add8(data[row + x], data[row + x - BPP]);
      RowNext(data[..], snap, row, stride, 1, prev, x, data[row + x - BPP], v);
      data[row + x] := v;
      x := x + 1;
    }
    RowFinish(data[..], snap, row, stride, 1, hasPrev, prev);
    out := None;
  }

  method UpRow(data: array<byte>, row: nat, stride: nat, hasPrev: bool, prevAt: nat, ghost prev: seq<byte>)
    returns (out: Option<nat>)
    requires row <= data.Length && |prev| == stride && Above(data[..], hasPrev, prevAt, stride, row, prev)
    modifies data
    ensures RowPass(data[..], old(data[..]), row, stride, 2, hasPrev, prev, out)
  {
    hide RowSoFar, RowAt, Recon, Add8, Paeth, Above;
    ghost var snap := data[..];
    if !hasPrev {
      FirstUp(snap, row, stride, prevAt, prev);
      return None;
    }
    RowBegin(snap, row, stride, 2, prev, 0);
    for x := 0 to stride
      invariant row + x <= data.Length && RowSoFar(data[..], snap, row, stride, 2, prev, x)
      invariant forall k :: 0 <= k < row ==> data[k] == snap[k]
    {
      if row + x >= data.Length { return Some(row + x); }
      AboveAt(data[..], snap, hasPrev, prevAt, stride, row, prev, x);
      var v := Add8(data[row + x], data[prevAt + x]);
      RowNext(data[..], snap, row, stride, 2, prev, x, if x >= BPP then data[row + x - BPP] else 0, v);
      data[row + x] := v;
    }
    RowFinish(data[..], snap, row, stride, 2, hasPrev, prev);
    out := None;
  }

  method AverageRow(data: array<byte>, row: nat, stride: nat, hasPrev: bool, prevAt: nat, ghost prev: seq<byte>)
    returns (out: Option<nat>)
    requires row <= data.Length && |prev| == stride && Above(data[..], hasPrev, prevAt, stride, row, prev)
    modifies data
    ensures RowPass(data[..], old(data[..]), row, stride, 3, hasPrev, prev, out)
  {
    hide RowSoFar, RowAt, Recon, Add8, Paeth, Above;
    ghost var snap := data[..];
    RowBegin(snap, row, stride, 3, prev, 0);
    for x := 0 to stride
      invariant row + x <= data.Length && RowSoFar(data[..], snap, row, stride, 3, prev, x)
      invariant forall k :: 0 <= k < row ==> data[k] == snap[k]
    {
      if row + x >= data.Length { return Some(row + x); }
      AboveAt(data[..], snap, hasPrev, prevAt, stride, row, prev, x);
      var left: byte := if x >= BPP then data[row + x - BPP] else 0;
      var up: byte := if hasPrev then data[prevAt + x] else 0;
      var v := Add8(data[row + x], ((left as int) + (up as int)) / 2);
      RowNext(data[..], snap, row, stride, 3, prev, x, if x >= BPP then data[row + x - BPP] else 0, v);
      data[row + x] := v;
    }
    RowFinish(data[..], snap, row, stride, 3, hasPrev, prev);
    out := None;
  }

  method PaethByDistances(a: byte, b: byte, c: byte) returns (pr: byte)
    ensures pr == Paeth(a, b, c)
  {
    var p := (a as int) + (b as int) - (c as int);
    var pa := if p > a then p - a else a - p;
    var pb := if p > b then p - b else b - p;
    var pc := if p > c then p - c else c - p;
    pr := if pa <= pb && pa <= pc then a else if pb <= pc then b else c;
  }

  method PaethRow(data: array<byte>, row: nat, stride: nat, hasPrev: bool, prevAt: nat, ghost prev: seq<byte>)
    returns (out: Option<nat>)
    requires row <= data.Length && |prev| == stride && Above(data[..], hasPrev, prevAt, stride, row, prev)
    modifies data
    ensures RowPass(data[..], old(data[..]), row, stride, 4, hasPrev, prev, out)
  {
    hide RowSoFar, RowAt, Recon, Add8, Paeth, Above;
    ghost var snap := data[..];
    RowBegin(snap, row, stride, 4, prev, 0);
    for x := 0 to stride
      invariant row + x <= data.Length && RowSoFar(data[..], snap, row, stride, 4, prev, x)
      invariant forall k :: 0 <= k < row ==> data[k] == snap[k]
    {
      if row + x >= data.Length { return Some(row + x); }
      AboveAt(data[..], snap, hasPrev, prevAt, stride, row, prev, x);
      var a: byte := if x >= BPP then data[row + x - BPP] else 0;
      var b: byte := if hasPrev then data[prevAt + x] else 0;
      var c: byte := if x >= BPP && hasPrev then data[prevAt + x - BPP] else 0;
      var pr := PaethByDistances(a, b, c);
      var v := Add8(data[row + x], pr);
      RowNext(data[..], snap, row, stride, 4, prev, x, if x >= BPP then data[row + x - BPP] else 0, v);
      data[row + x] := v;
    }
    RowFinish(data[..], snap, row, stride, 4, hasPrev, prev);
    out := None;
  }

  method UnfilterRow(data: array<byte>, row: nat, stride: nat, f: byte, hasPrev: bool, prevAt: nat,
                     ghost prev: seq<byte>)
    returns (out: Option<nat>)
    requires row <= data.Length && |prev| == stride && Above(data[..], hasPrev, prevAt, stride, row, prev)
    modifies data
    ensures RowPass(data[..], old(data[..]), row, stride, f, hasPrev, prev, out)
  {
    hide RowAt, Recon;
    if f == 1 { out := SubRow(data, row, stride, hasPrev, prev); }
    else if f == 2 { out := UpRow(data, row, stride, hasPrev, prevAt, prev); }
    else if f == 3 { out := AverageRow(data, row, stride, hasPrev, prevAt, prev); }
    else if f == 4 { out := PaethRow(data, row, stride, hasPrev, prevAt, prev); }
    else {
      if row + stride <= data.Length { RowStart(data[..], row, stride, f, prev, stride); }
      out := None;
    }
  }

  /** The rows still to do, seen from the start of the buffer; past a short row that was left alone, none may follow. */
  function Remaining(now: seq<byte>, cur: nat, stride: nat, h: nat, hasPrev: bool, prev: seq<byte>): (r: Pass)
    requires |prev| == stride
  {
    if cur <= |now| then Behind(now[..cur], UnfilterRows(now[cur..], stride, h, hasPrev, prev))
    else if h == 0 then Done(now)
    else Outside(cur)
  }

  /** The row at cur, by its own filter. */
  method UnfilterNext(data: array<byte>, cur: nat, stride: nat, hasPrev: bool, prevAt: nat, ghost h: nat,
                      ghost prev: seq<byte>)
    returns (out: Option<nat>, ghost row: seq<byte>)
    requires cur < data.Length && h > 0 && |prev| == stride && Above(data[..], hasPrev, prevAt, stride, cur + 1, prev)
    modifies data
    ensures |row| == stride
    ensures Remaining(old(data[..]), cur, stride, h, hasPrev, prev)
         == if out.Some? then Outside(out.value) else Remaining(data[..], cur + stride + 1, stride, h - 1, true, row)
    ensures out.None? && cur + stride + 1 <= data.Length ==>
      Above(data[..], true, cur + 1, stride, cur + stride + 2, row)
  {
    hide *;
    ghost var snap := data[..];
    var filter := data[cur];
    out := UnfilterRow(data, cur + 1, stride, filter, hasPrev, prevAt, prev);
    row := RowDone(snap, data[..], cur, stride, h, hasPrev, prev, out);
  }

  /** All rows in place: the first place outside the buffer that is touched, or the buffer as the pass leaves it. */
  method UnfilterInPlace(data: array<byte>, stride: nat, height: nat) returns (out: Option<nat>)
    modifies data
    ensures UnfilterRows(old(data[..]), stride, height, false, Zeros(stride)) ==
      if out.None? then Done(data[..]) else Outside(out.value)
  {
    hide *;
    ghost var all, prev := UnfilterRows(data[..], stride, height, false, Zeros(stride)), Zeros(stride);
    RowsStart(data[..], stride, height);
    FirstAbove(data[..], stride);
    var cur: nat, prevAt: nat, hasPrev := 0, 0, false;
    for y := 0 to height
      invariant |prev| == stride && all == Remaining(data[..], cur, stride, height - y, hasPrev, prev)
      invariant cur <= data.Length ==> Above(data[..], hasPrev, prevAt, stride, cur + 1, prev)
    {
      if cur >= data.Length {
        RowsPast(data[..], cur, stride, height - y, hasPrev, prev);
        return Some(cur);
      }
      var row;
      row, prev := UnfilterNext(data, cur, stride, hasPrev, prevAt, height - y, prev);
      if row.Some? { return row; }
      hasPrev, prevAt := true, cur + 1;
      cur := cur + stride + 1;
    }
    RowsEnd(data[..], cur, stride, hasPrev, prev);
    out := None;
  }

  lemma RowsStart(data: seq<byte>, stride: nat, h: nat)
    ensures UnfilterRows(data, stride, h, false, Zeros(stride)) == Remaining(data, 0, stride, h, false, Zeros(stride))
  {
    var r := UnfilterRows(data, stride, h, false, Zeros(stride));
    assert data[..0] == [] && data[0..] == data;
    hide UnfilterRows;
    assert r.Done? ==> [] + r.data == r.data;
  }

  lemma RowsPast(now: seq<byte>, cur: nat, stride: nat, h: nat, hasPrev: bool, prev: seq<byte>)
    requires |prev| == stride && cur >= |now| && h > 0
    ensures Remaining(now, cur, stride, h, hasPrev, prev) == Outside(cur)
  {
  }

  lemma RowsEnd(now: seq<byte>, cur: nat, stride: nat, hasPrev: bool, prev: seq<byte>)
    requires |prev| == stride
    ensures Remaining(now, cur, stride, 0, hasPrev, prev) == Done(now)
  {
    if cur <= |now| { assert now[..cur] + now[cur..] == now; }
  }

  lemma FirstAbove(data: seq<byte>, stride: nat)
    ensures Above(data, false, 0, stride, 1, Zeros(stride))
  {
  }

  /** One row done in place is one step of the pass. */
  lemma RowDone(snap: seq<byte>, now: seq<byte>, cur: nat, stride: nat, h: nat, hasPrev: bool, prev: seq<byte>,
                out: Option<nat>)
    returns (row: seq<byte>)
    requires h > 0 && cur < |snap| && |prev| == stride
    requires RowPass(now, snap, cur + 1, stride, snap[cur], hasPrev, prev, out)
    ensures |row| == stride
    ensures Remaining(snap, cur, stride, h, hasPrev, prev)
         == if out.Some? then Outside(out.value) else Remaining(now, cur + stride + 1, stride, h - 1, true, row)
    ensures out.None? ==>
      |now| == |snap| && (cur + stride + 1 <= |now| ==> Above(now, true, cur + 1, stride, cur + stride + 2, row))
  {
    if cur + stride + 1 <= |snap| {
      row := FullRow(snap, now, cur, stride, h, hasPrev, prev);
    } else {
      row := prev;
      assert snap[cur..][0] == snap[cur];
      hide Recon;
    }
  }

  lemma FullRow(snap: seq<byte>, now: seq<byte>, cur: nat, stride: nat, h: nat, hasPrev: bool, prev: seq<byte>)
    returns (row: seq<byte>)
    requires h > 0 && cur + stride + 1 <= |snap| && |prev| == stride
    requires RowAt(now, snap, cur + 1, stride, snap[cur], prev, stride)
    ensures |row| == stride && |now| == |snap|
    ensures Remaining(snap, cur, stride, h, hasPrev, prev) == Remaining(now, cur + stride + 1, stride, h - 1, true, row)
    ensures Above(now, true, cur + 1, stride, cur + stride + 2, row)
  {
    hide Recon, UnfilterRows, Behind;
    var next := cur + stride + 1;
    var raw, tail := snap[cur + 1..next], snap[next..];
    row := Recon(snap[cur], raw, prev, stride);
    assert snap[next..] == snap[cur + 1 + stride..];
    RowSlices(snap, now, cur, next, row);
    RowsStep(snap[cur], raw, tail, stride, h, hasPrev, prev);
    BehindTwice(snap[..cur], [snap[cur]] + row, UnfilterRows(tail, stride, h - 1, true, row));
  }

  lemma RowsStep(f: byte, raw: seq<byte>, tail: seq<byte>, stride: nat, h: nat, hasPrev: bool, prev: seq<byte>)
    requires |raw| == |prev| == stride && h > 0
    ensures var row := Recon(f, raw, prev, stride);
      UnfilterRows([f] + raw + tail, stride, h, hasPrev, prev)
      == Behind([f] + row, UnfilterRows(tail, stride, h - 1, true, row))
  {
    var data := [f] + raw + tail;
    assert data[0] == f && data[1..stride + 1] == raw && data[stride + 1..] == tail;
  }

  lemma RowSlices(snap: seq<byte>, now: seq<byte>, cur: nat, next: nat, row: seq<byte>)
    requires cur + 1 + |row| == next <= |snap| && now == snap[..cur + 1] + row + snap[next..]
    ensures |now| == |snap| && now[cur + 1..next] == row && now[next..] == snap[next..]
    ensures now[..next] == snap[..cur] + ([snap[cur]] + row)
    ensures snap[cur..] == [snap[cur]] + snap[cur + 1..next] + snap[next..]
  {
  }
}
