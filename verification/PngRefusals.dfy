/** What the decoder refuses, and which chunks count. */
module PngRefusals {
  import opened Bytes
  import opened PngFilter
  import opened PngDecode
  import opened PngRoundTrip

  /** The names of the three chunks the decoder reads, and the signature (sections 3.1 and 4.1 of RFC 2083). */
  lemma ChunkNames()
    ensures Be(IHDR) == [73, 72, 68, 82] && Be(IDAT) == [73, 68, 65, 84] && Be(IEND) == [73, 69, 78, 68]
    ensures SIG == [137, 80, 78, 71, 13, 10, 26, 10]
  {
  }

  /** Anything shorter than the signature, or that starts otherwise, is refused. */
  lemma BadSignature(m: Memory, first: bool, second: bool, junk: nat -> byte)
    requires |m.buffer| < 8 || m.buffer[..8] != [137, 80, 78, 71, 13, 10, 26, 10]
    ensures Decode(m, first, second, junk) == Failed
  {
  }

  /** A header chunk with anything but 8-bit samples, RGBA and no interlacing is refused, whatever follows. */
  lemma BadFormat(head: Chunk, rest: seq<byte>, beyond: nat -> byte, first: bool, second: bool, junk: nat -> byte)
    requires WfChunk(head) && head.kind == IHDR && |head.data| == 13
    requires head.data[8] != 8 || head.data[9] != 6 || head.data[12] != 0
    ensures Decode(Memory(SIG + (ChunkBytes(head) + rest), beyond), first, second, junk) == Failed
  {
    var m := Memory(SIG + (ChunkBytes(head) + rest), beyond);
    HeldWhole(m, SIG, ChunkBytes(head) + rest);
    hide *;
    WalkRefuses(m, |SIG|, head, rest);
    RefusedWalk(m, first, second, junk);
  }

  lemma RefusedWalk(m: Memory, first: bool, second: bool, junk: nat -> byte)
    requires Walk(m, |SIG|, EMPTY) == None
    ensures Decode(m, first, second, junk) == Failed
  {
    hide Walk;
  }

  lemma WalkRefuses(m: Memory, p: nat, head: Chunk, rest: seq<byte>)
    requires WfChunk(head) && head.kind == IHDR && |head.data| == 13 && Holds(m, p, ChunkBytes(head) + rest)
    requires head.data[8] != 8 || head.data[9] != 6 || head.data[12] != 0
    ensures Walk(m, p, EMPTY) == None
  {
    hide *;
    FormatRead(m, p, head, rest);
    WalkStep(m, p, EMPTY);
  }

  lemma FormatRead(m: Memory, p: nat, head: Chunk, rest: seq<byte>)
    requires WfChunk(head) && head.kind == IHDR && |head.data| == 13 && Holds(m, p, ChunkBytes(head) + rest)
    requires head.data[8] != 8 || head.data[9] != 6 || head.data[12] != 0
    ensures p < |m.buffer| && m.Be32(p + 4) == IHDR && !Supported(m, p + 8)
  {
    HoldsSplit(m, p, ChunkBytes(head), rest);
    HoldsSplit(m, p, Be(|head.data|), Be(head.kind) + (head.data + head.crc));
    HoldsSplit(m, p + 4, Be(head.kind), head.data + head.crc);
    HoldsSplit(m, p + 8, head.data, head.crc);
    hide Holds;
    HoldsBe(m, p + 4, head.kind);
    HoldsAt(m, p + 8, head.data, 8);
    HoldsAt(m, p + 8, head.data, 9);
    HoldsAt(m, p + 8, head.data, 12);
  }

  /** A file without a data chunk is refused. */
  lemma NoData(head: Chunk, w: u32, h: u32, ex: Extras, beyond: nat -> byte,
               first: bool, second: bool, junk: nat -> byte)
    requires WfExtras(ex) && WfChunk(head) && head.kind == IHDR && head.data == HeadData(w, h, ex)
    ensures var file := SIG + (ChunkBytes(head) + AfterData(ex.mid, ex.endCrc, ex.trailing));
      Decode(Memory(file, beyond), first, second, junk) == Failed
  {
    var after := AfterData(ex.mid, ex.endCrc, ex.trailing);
    var m := Memory(SIG + (ChunkBytes(head) + after), beyond);
    HeldWhole(m, SIG, ChunkBytes(head) + after);
    WalkNoData(m, |SIG|, head, w, h, ex);
    hide Walk, Holds, ChunkBytes, HeadData, AfterData, Inflate, Render, AllAncillary;
  }

  lemma WalkNoData(m: Memory, p: nat, head: Chunk, w: u32, h: u32, ex: Extras)
    requires WfExtras(ex) && WfChunk(head) && head.kind == IHDR && head.data == HeadData(w, h, ex)
    requires Holds(m, p, ChunkBytes(head) + AfterData(ex.mid, ex.endCrc, ex.trailing))
    ensures Walk(m, p, EMPTY) == Some(Header(w, h, false, 0, 0))
  {
    var after := AfterData(ex.mid, ex.endCrc, ex.trailing);
    hide *;
    HoldsSplit(m, p, ChunkBytes(head), after);
    WalkHeader(m, p, head, w, h, ex);
    WalkAfterData(m, p + |ChunkBytes(head)|, Header(w, h, false, 0, 0), ex.mid, ex.endCrc, ex.trailing);
  }

  /** Of several data chunks the last one counts, and the ones before it are as if they were not there. */
  lemma LastDataCounts(w: u32, h: u32, early: Chunk, pay: seq<byte>, ex: Extras, beyond: nat -> byte,
                       first: bool, second: bool, junk: nat -> byte)
    requires WfExtras(ex) && |pay| <= 0xFFFF && WfChunk(early) && early.kind == IDAT
    ensures var file := SIG + (ChunkBytes(IhdrChunk(w, h, ex)) + (ChunkBytes(early) + FileRest(pay, ex)));
      Decode(Memory(file, beyond), first, second, junk)
      == if first && IsStored(ex) && pay != [] then Render(pay, w, h, second, junk) else Failed
  {
    var ih, id := IhdrChunk(w, h, ex), IdatChunk(pay, ex);
    var rest := ChunkBytes(early) + FileRest(pay, ex);
    var m := Memory(SIG + (ChunkBytes(ih) + rest), beyond);
    HeldWhole(m, SIG, ChunkBytes(ih) + rest);
    var q := WalkTwoData(m, |SIG|, w, h, ih, early, id, ex);
    InflateRead(m, q, pay, ex);
    hide Walk, Inflate, Holds, Stored, Render, WfExtras, FileRest, ChunkBytes;
  }

  lemma WalkTwoData(m: Memory, p: nat, w: u32, h: u32, ih: Chunk, early: Chunk, id: Chunk, ex: Extras) returns (q: nat)
    requires WfExtras(ex) && WfChunk(ih) && ih.kind == IHDR && ih.data == HeadData(w, h, ex)
    requires WfChunk(early) && early.kind == IDAT && WfChunk(id) && id.kind == IDAT
    requires var after := AfterData(ex.post, ex.endCrc, ex.trailing);
      Holds(m, p, ChunkBytes(ih) + (ChunkBytes(early) + (ChunksBytes(ex.mid) + (ChunkBytes(id) + after))))
    ensures Holds(m, q, id.data)
    ensures Walk(m, p, EMPTY) == Some(Header(w, h, true, q, |id.data|))
  {
    var b := ChunksBytes(ex.mid) + (ChunkBytes(id) + AfterData(ex.post, ex.endCrc, ex.trailing));
    hide *;
    HoldsSplit(m, p, ChunkBytes(ih), ChunkBytes(early) + b);
    WalkHeader(m, p, ih, w, h, ex);
    q := WalkEarly(m, p + |ChunkBytes(ih)|, w, h, early, ex.mid, id, ex.post, ex.endCrc, ex.trailing);
  }

  lemma WalkEarly(m: Memory, p: nat, w: u32, h: u32, early: Chunk, mid: seq<Chunk>, id: Chunk,
                  post: seq<Chunk>, crc: seq<byte>, trailing: seq<byte>)
    returns (q: nat)
    requires AllAncillary(mid) && AllAncillary(post) && |crc| == 4
    requires WfChunk(early) && early.kind == IDAT && WfChunk(id) && id.kind == IDAT
    requires Holds(m, p, ChunkBytes(early) + (ChunksBytes(mid) + (ChunkBytes(id) + AfterData(post, crc, trailing))))
    ensures Holds(m, q, id.data)
    ensures Walk(m, p, Header(w, h, false, 0, 0)) == Some(Header(w, h, true, q, |id.data|))
  {
    hide *;
    DataSize(early);
    DataSize(id);
    HoldsSplit(m, p, ChunkBytes(early), ChunksBytes(mid) + (ChunkBytes(id) + AfterData(post, crc, trailing)));
    WalkData(m, p, Header(w, h, false, 0, 0), early);
    var next, hd := p + |ChunkBytes(early)|, Header(w, h, true, p + 8, |early.data|);
    WalkMid(m, next, hd, mid, id, post, crc, trailing);
    q := next + |ChunksBytes(mid)| + 8;
  }

  /** A file that stops after its data chunk, without an end chunk, is decoded all the same. */
  lemma EndIsOptional(w: u32, h: u32, pay: seq<byte>, ex: Extras, beyond: nat -> byte,
                      first: bool, second: bool, junk: nat -> byte)
    requires WfExtras(ex) && |pay| <= 0xFFFF
    ensures var file := SIG + (ChunkBytes(IhdrChunk(w, h, ex)) + ChunkBytes(IdatChunk(pay, ex)));
      Decode(Memory(file, beyond), first, second, junk)
      == if first && IsStored(ex) && pay != [] then Render(pay, w, h, second, junk) else Failed
  {
    var ih, id := IhdrChunk(w, h, ex), IdatChunk(pay, ex);
    var m := Memory(SIG + (ChunkBytes(ih) + ChunkBytes(id)), beyond);
    HeldWhole(m, SIG, ChunkBytes(ih) + ChunkBytes(id));
    var q := WalkToEnd(m, |SIG|, w, h, ih, id, ex);
    InflateRead(m, q, pay, ex);
    hide Walk, Inflate, Holds, Stored, Render, WfExtras, ChunkBytes;
  }

  lemma WalkToEnd(m: Memory, p: nat, w: u32, h: u32, ih: Chunk, id: Chunk, ex: Extras) returns (q: nat)
    requires WfChunk(ih) && ih.kind == IHDR && ih.data == HeadData(w, h, ex) && WfChunk(id) && id.kind == IDAT
    requires Holds(m, p, ChunkBytes(ih) + ChunkBytes(id)) && p + |ChunkBytes(ih)| + |ChunkBytes(id)| == |m.buffer|
    ensures Holds(m, q, id.data)
    ensures Walk(m, p, EMPTY) == Some(Header(w, h, true, q, |id.data|))
  {
    hide *;
    DataSize(id);
    HoldsSplit(m, p, ChunkBytes(ih), ChunkBytes(id));
    WalkHeader(m, p, ih, w, h, ex);
    var next := p + |ChunkBytes(ih)|;
    WalkData(m, next, Header(w, h, false, 0, 0), id);
    WalkStep(m, next + |ChunkBytes(id)|, Header(w, h, true, next + 8, |id.data|));
    q := next + 8;
  }

  /** A data chunk of fewer than six bytes is refused. */
  lemma TinyData(w: u32, h: u32, id: Chunk, ex: Extras, beyond: nat -> byte,
                 first: bool, second: bool, junk: nat -> byte)
    requires WfExtras(ex) && WfChunk(id) && id.kind == IDAT && |id.data| < 6
    ensures var rest := ChunksBytes(ex.mid) + (ChunkBytes(id) + AfterData(ex.post, ex.endCrc, ex.trailing));
      Decode(Memory(SIG + (ChunkBytes(IhdrChunk(w, h, ex)) + rest), beyond), first, second, junk) == Failed
  {
    var ih := IhdrChunk(w, h, ex);
    var rest := ChunksBytes(ex.mid) + (ChunkBytes(id) + AfterData(ex.post, ex.endCrc, ex.trailing));
    var m := Memory(SIG + (ChunkBytes(ih) + rest), beyond);
    HeldWhole(m, SIG, ChunkBytes(ih) + rest);
    var q := WalkEncoded(m, |SIG|, w, h, ih, id, ex);
    hide Walk, Holds, Render, WfExtras, ChunkBytes, ChunksBytes, AfterData;
  }
}
