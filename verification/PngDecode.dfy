/** The PNG decoder: chunk walk, stored-block zlib stream, unfiltering, and the copy to pixels. */
module PngDecode {
  import opened Bytes
  import opened PngFilter

  const SIG: seq<byte> := [137, 80, 78, 71, 13, 10, 26, 10]
  const IHDR: u32 := 0x4948_4452
  const IDAT: u32 := 0x4944_4154
  const IEND: u32 := 0x4945_4E44

  /** Memory as the decoder reads it: the buffer it was given, then whatever lies beyond. */
  datatype Memory = Memory(buffer: seq<byte>, beyond: nat -> byte) {
    function At(i: nat): (b: byte) { if i < |buffer| then buffer[i] else beyond(i) }

    function Be32(i: nat): (v: u32)
    {
      0x100_0000 * (At(i) as int) + 0x1_0000 * (At(i + 1) as int) + 0x100 * (At(i + 2) as int) + (At(i + 3) as int)
    }

    function Take(i: nat, n: nat): (s: seq<byte>)
      ensures |s| == n && forall k :: 0 <= k < n ==> s[k] == At(i + k)
    {
      seq<byte>(n, k requires 0 <= k => At(i + k))
    }
  }

  /** What the chunk walk has collected so far. */
  datatype Header = Header(w: u32, h: u32, hasIdat: bool, idat: nat, idatSize: u32)

  const EMPTY: Header := Header(0, 0, false, 0, 0)

  /** Pixels, a refusal, or a copy that would leave its buffer. */
  datatype Outcome = Decoded(w: u32, h: u32, pixels: seq<byte>) | Failed | OutOfBounds

  // 32-bit arithmetic of the decoder

  function Skip(len: u32): nat { Wrap32((len as int) + 4) }

  function Stride(w: u32): nat { Wrap32(4 * (w as int)) }

  function OutBytes(w: u32, h: u32): nat { Wrap32((w as int) * (h as int) * 4) }

  function RowOffset(y: nat, w: u32): nat { 4 * Wrap32(y * (w as int)) }

  function Fresh(n: nat, junk: nat -> byte): (s: seq<byte>)
    ensures |s| == n
  {
    seq<byte>(n, k requires 0 <= k => junk(k))
  }

  predicate Supported(m: Memory, q: nat) { m.At(q + 8) == 8 && m.At(q + 9) == 6 && m.At(q + 12) == 0 }

  /** One chunk whose data starts at q. */
  function Collect(m: Memory, hd: Header, kind: u32, len: u32, q: nat): (r: Header)
  {
    if kind == IHDR then hd.(w := m.Be32(q), h := m.Be32(q + 4))
    else if kind == IDAT then hd.(hasIdat := true, idat := q, idatSize := len)
    else hd
  }

  /** The chunk walk from p; the cursor moves by at least 8 whatever the length field says. */
  function Walk(m: Memory, p: nat, hd: Header): (r: Option<Header>)
    decreases if p < |m.buffer| then |m.buffer| - p else 0
  {
    if p >= |m.buffer| then Some(hd)
    else
      var len, kind, q := m.Be32(p), m.Be32(p + 4), p + 8;
      if kind == IHDR && !Supported(m, q) then None
      else if kind == IEND then Some(hd)
      else Walk(m, q + Skip(len), Collect(m, hd, kind, len, q))
  }

  /** How many chunk headers the walk reads from p on: at most one per eight bytes, whatever the length fields say. */
  function HeadersRead(m: Memory, p: nat): (n: nat)
    ensures p >= |m.buffer| ==> n == 0
    ensures p < |m.buffer| ==> 8 * n <= |m.buffer| - p + 7
    decreases if p < |m.buffer| then |m.buffer| - p else 0
  {
    if p >= |m.buffer| then 0
    else
      var len, kind, q := m.Be32(p), m.Be32(p + 4), p + 8;
      if (kind == IHDR && !Supported(m, q)) || kind == IEND then 1 else 1 + HeadersRead(m, q + Skip(len))
  }

  function StoredLength(m: Memory, idat: nat): nat { (m.At(idat + 3) as int) + 0x100 * (m.At(idat + 4) as int) }

  /** A zlib stream with one stored block (section 3.2.4 of RFC 1951). */
  function Inflate(m: Memory, idat: nat, size: u32): (r: Option<seq<byte>>)
  {
    if size < 6 || m.At(idat + 2) / 2 % 4 != 0 || StoredLength(m, idat) == 0 then None
    else Some(m.Take(idat + 7, StoredLength(m, idat)))
  }

  /** A copy of n bytes; None when it would leave either buffer. Copying nothing touches neither. */
  function Memcpy(dst: seq<byte>, at: nat, src: seq<byte>, from: nat, n: nat): (r: Option<seq<byte>>)
  {
    if n == 0 then Some(dst)
    else if at + n > |dst| || from + n > |src| then None
    else Some(dst[..at] + src[from..from + n] + dst[at + n..])
  }

  /** Rows behind their filter bytes copied to where 32-bit arithmetic puts them; None once a copy leaves a buffer. */
  function CopyRows(dst: seq<byte>, src: seq<byte>, pos: nat, y: nat, w: u32, h: u32): (r: Option<seq<byte>>)
    requires y <= h
    decreases h - y
  {
    if y == h then Some(dst)
    else
      var d := Memcpy(dst, RowOffset(y, w), src, pos + 1, Stride(w));
      if d.None? then None else CopyRows(d.value, src, pos + Stride(w) + 1, y + 1, w, h)
  }

  /** The decoder, given whether its two allocations succeed and what fresh memory holds. */
  function Decode(m: Memory, first: bool, second: bool, junk: nat -> byte): (r: Outcome)
  {
    if |m.buffer| < 8 || m.buffer[..8] != SIG then Failed
    else
      var hd := Walk(m, 8, EMPTY);
      if hd.None? || !hd.value.hasIdat then Failed
      else Pixels(m, hd.value, first, second, junk)
  }

  function Pixels(m: Memory, hd: Header, first: bool, second: bool, junk: nat -> byte): (r: Outcome)
  {
    var raw := Inflate(m, hd.idat, hd.idatSize);
    if raw.None? || !first then Failed else Render(raw.value, hd.w, hd.h, second, junk)
  }

  /** From the contents of the stored block to pixels: the pass over the rows, the second allocation, the copy. */
  function Render(raw: seq<byte>, w: u32, h: u32, second: bool, junk: nat -> byte): (r: Outcome)
  {
    var src := UnfilterRows(raw, Stride(w), h, false, Zeros(Stride(w)));
    if src.Outside? then OutOfBounds
    else if OutBytes(w, h) == 0 || !second then Failed
    else
      var r := CopyRows(Fresh(OutBytes(w, h), junk), src.data, 0, 0, w, h);
      if r.None? then OutOfBounds else Decoded(w, h, r.value)
  }

  // ----- the decoder's loops -----

  /** The chunk loop; rounds counts its iterations, each of which moves the cursor by at least eight. */
  method WalkChunks(m: Memory) returns (r: Option<Header>, ghost rounds: nat)
    ensures r == Walk(m, 8, EMPTY)
    ensures rounds == HeadersRead(m, 8) && (rounds == 0 || 8 * rounds < |m.buffer|)
  {
    hide Walk, HeadersRead, Supported;
    var p: nat, hd := 8, EMPTY;
    rounds := 0;
    while p < |m.buffer|
      invariant Walk(m, p, hd) == Walk(m, 8, EMPTY)
      invariant rounds + HeadersRead(m, p) == HeadersRead(m, 8) && 8 + 8 * rounds <= p
      invariant rounds == 0 || 8 * rounds < |m.buffer|
      decreases if p < |m.buffer| then |m.buffer| - p else 0
    {
      WalkStep(m, p, hd);
      HeadersStep(m, p);
      rounds := rounds + 1;
      var len := m.Be32(p);
      p := p + 4;
      var kind := m.Be32(p);
      p := p + 4;
      if kind == IHDR {
        if !Supported(m, p) { return None, rounds; }
        hd := hd.(w := m.Be32(p), h := m.Be32(p + 4));
      } else if kind == IDAT {
        hd := hd.(hasIdat := true, idat := p, idatSize := len);
      } else if kind == IEND {
        return Some(hd), rounds;
      }
      p := p + Skip(len);
    }
    WalkStep(m, p, hd);
    HeadersStep(m, p);
    r := Some(hd);
  }

  lemma HeadersStep(m: Memory, p: nat)
    ensures p >= |m.buffer| ==> HeadersRead(m, p) == 0
    ensures p < |m.buffer| ==> var len, kind, q := m.Be32(p), m.Be32(p + 4), p + 8;
      HeadersRead(m, p) == if (kind == IHDR && !Supported(m, q)) || kind == IEND then 1
                           else 1 + HeadersRead(m, q + Skip(len))
  {
  }

  lemma WalkStep(m: Memory, p: nat, hd: Header)
    ensures p >= |m.buffer| ==> Walk(m, p, hd) == Some(hd)
    ensures p < |m.buffer| ==> var len, kind, q := m.Be32(p), m.Be32(p + 4), p + 8;
      Walk(m, p, hd) == if kind == IHDR && !Supported(m, q) then None
                        else if kind == IEND then Some(hd)
                        else Walk(m, q + Skip(len), Collect(m, hd, kind, len, q))
  {
  }

  method DecodeBuffer(m: Memory, first: bool, second: bool, junk: nat -> byte) returns (r: Outcome)
    ensures r == Decode(m, first, second, junk)
  {
    hide Walk, UnfilterRows, CopyRows;
    if |m.buffer| < 8 || m.buffer[..8] != SIG { return Failed; }
    var walked, rounds := WalkChunks(m);
    if walked.None? || !walked.value.hasIdat { return Failed; }
    var hd := walked.value;
    if hd.idatSize < 6 || m.At(hd.idat + 2) / 2 % 4 != 0 { return Failed; }
    var len := (m.At(hd.idat + 3) as int) + 0x100 * (m.At(hd.idat + 4) as int);
    if len == 0 || !first { return Failed; }
    r := Draw(m.Take(hd.idat + 7, len), hd.w, hd.h, second, junk);
  }

  method Draw(raw: seq<byte>, w: u32, h: u32, second: bool, junk: nat -> byte) returns (r: Outcome)
    ensures r == Render(raw, w, h, second, junk)
  {
    hide UnfilterRows, CopyRows;
    var decomp := new byte[|raw|](i requires 0 <= i < |raw| => raw[i]);
    assert decomp[..] == raw;
    var outside := UnfilterInPlace(decomp, Stride(w), h);
    if outside.Some? { return OutOfBounds; }
    var bytes := OutBytes(w, h);
    if bytes == 0 || !second { return Failed; }
    var copied := CopyOut(decomp[..], bytes, w, h, junk);
    if copied.None? { return OutOfBounds; }
    r := Decoded(w, h, copied.value);
  }

  method CopyOut(src: seq<byte>, bytes: nat, w: u32, h: u32, junk: nat -> byte) returns (r: Option<seq<byte>>)
    ensures r == CopyRows(Fresh(bytes, junk), src, 0, 0, w, h)
  {
    hide Memcpy;
    var stride := Stride(w);
    var dst, pos: nat := Fresh(bytes, junk), 0;
    for y := 0 to h
      invariant CopyRows(dst, src, pos, y, w, h) == CopyRows(Fresh(bytes, junk), src, 0, 0, w, h)
    {
      var copied := Memcpy(dst, RowOffset(y, w), src, pos + 1, stride);
      if copied.None? { return None; }
      dst := copied.value;
      pos := pos + stride + 1;
    }
    r := Some(dst);
  }
}
