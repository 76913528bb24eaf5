/** A temporary buffer: allocated, written only inside, and freed, it leaves the heap as it was. */
module HeapBorrow {
  import opened Bytes
  import opened HeapList
  import opened HeapMemory
  import opened HeapSpec
  import opened KernelHeap

  ghost predicate HeapOk(h: Heap)
    reads h, h.mem
  {
    h.Valid() && h.initialized && Inv(h.View(), h.base, h.End())
  }

  /** p is a buffer of the given size handed out in state s; since then only its own bytes were written. */
  ghost predicate Borrowed(base: nat, end: nat, s: State, m: seq<byte>, p: nat, size: u32, t: State, cur: seq<byte>)
  {
    && Inv(s, base, end) && p != 0 && (t, p) == Kmalloc(s, size)
    && |cur| == end - base && Represents(cur, base, t.blocks)
    && UsedKept(m, cur, base, UsedSet(s.blocks), -1)
    && base + HEADER <= p && p + size <= end
  }

  lemma BorrowRoom(base: nat, end: nat, s: State, size: u32) returns (i: nat)
    requires Inv(s, base, end) && Kmalloc(s, size).1 != 0 && size <= 0xFFFF_FFF8
    ensures var (t, p) := Kmalloc(s, size);
      && Tiled(t.blocks, base, end) && i < |t.blocks| && t.blocks[i].Payload() == p && size <= t.blocks[i].size
      && base + HEADER <= p && t.blocks[i].End() <= end
      && UsedSet(s.blocks) <= UsedSet(t.blocks)
      && forall b :: b in UsedSet(s.blocks) ==> b.addr != p - HEADER
  {
    assert s.blocks != [];
    hide Tiled, Kmalloc, UsedSet, AlignUp, Mult8, Wrap32;
    i := MallocGives(s, base, end, size);
    Inside(Kmalloc(s, size).0.blocks, base, end, i);
    assert size <= AlignUp(size);
  }

  /** Writing inside the buffer keeps the headers and every other live payload. */
  lemma WriteInside(base: nat, end: nat, s: State, m: seq<byte>, p: nat, size: u32, t: State, cur: seq<byte>,
                    new': seq<byte>)
    requires Borrowed(base, end, s, m, p, size, t, cur) && size <= 0xFFFF_FFF8
    requires SameOutside(cur, new', p - base, p - base + size)
    ensures Borrowed(base, end, s, m, p, size, t, new')
  {
    var i := BorrowRoom(base, end, s, size);
    hide Tiled, Kmalloc, UsedSet, Represents, UsedKept, Inv, HeaderAt;
    var bs := t.blocks;
    assert SameOutside(cur, new', bs[i].Payload() - base, bs[i].End() - base);
    PayloadWrite(cur, new', base, end, bs, i);
    OutsideKeepsOthers(cur, new', base, end, bs, i);
    OthersMeansUsed(cur, new', base, bs, i, p - HEADER);
    KeptTwice(m, cur, new', base, UsedSet(s.blocks), UsedSet(bs), p - HEADER);
  }

  /** With a buffer borrowed, the heap's own structure is intact. */
  lemma BorrowedValid(h: Heap, s: State, m: seq<byte>, p: nat, size: u32)
    requires h.Region() && h.initialized && h.heapStart == h.base && size <= 0xFFFF_FFF8
    requires Borrowed(h.base, h.End(), s, m, p, size, h.View(), h.mem[..])
    ensures h.Valid()
  {
    var i := BorrowRoom(h.base, h.End(), s, size);
  }

  method Borrow(h: Heap, size: u32) returns (p: nat)
    requires HeapOk(h) && 0 < size <= 0xFFFF_FFF8
    modifies h`hint, h`totalAlloc, h`blocks, h.mem
    ensures p == 0 ==> HeapOk(h) && h.blocks == old(h.blocks) && h.mem[..] == old(h.mem[..])
    ensures p == 0 <==> forall j :: 0 <= j < |old(h.blocks)| ==> !Fits(old(h.blocks)[j], AlignUp(size))
    ensures p != 0 ==>
      && h.Valid() && h.initialized
      && Borrowed(h.base, h.End(), old(h.View()), old(h.mem[..]), p, size, h.View(), h.mem[..])
  {
    ghost var s := h.View();
    hide Represents, Tiled, Kmalloc, UsedSet, UsedKept, HeaderAt, AlignUp, Mult8, Wrap32;
    p := h.Kmalloc(size);
    MallocNull(s, h.base, h.End(), size);
    MallocKeepsInv(s, h.base, h.End(), size);
    if p != 0 { ghost var i := BorrowRoom(h.base, h.End(), s, size); }
  }

  /** Freeing the buffer gives back exactly the block list from before the allocation. */
  method GiveBack(h: Heap, p: nat, ghost s: State, ghost m: seq<byte>, ghost size: u32)
    requires h.Valid() && h.initialized && size <= 0xFFFF_FFF8
    requires Borrowed(h.base, h.End(), s, m, p, size, h.View(), h.mem[..])
    modifies h`hint, h`totalFreed, h`blocks, h.mem
    ensures HeapOk(h) && h.blocks == s.blocks
    ensures UsedKept(m, h.mem[..], h.base, UsedSet(s.blocks), -1)
  {
    hide Represents, Tiled, Kmalloc, Kfree, UsedSet, UsedKept, HeaderAt, Mult8, Wrap32, Inv;
    ghost var t, cur := h.View(), h.mem[..];
    ghost var i := BorrowRoom(h.base, h.End(), s, size);
    h.Kfree(p);
    FreeRestores(s, h.base, h.End(), size);
    MallocKeepsInv(s, h.base, h.End(), size);
    FreeKeepsInv(t, h.base, h.End(), p);
    KeptTwice(m, cur, h.mem[..], h.base, UsedSet(s.blocks), UsedSet(t.blocks), -1);
  }
}
