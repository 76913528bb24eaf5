/** What kmalloc does when krealloc has left its search hint off the list. */
module HeapDangling {
  import opened Bytes
  import opened HeapList
  import opened HeapSpec
  import opened HeapMemory
  import opened HeapRealloc
  import opened KernelHeap

  /** What stands at the address is large enough to be cut. */
  predicate CutsAt(h: Heap, current: nat, size: u32)
    requires h.HasHeader(current)
    reads h.mem
  {
    h.SizeOf(current) >= size + HEADER + MIN_SPLIT
  }

  /** The search succeeds at its first stop: what stands there is cut, marked in use and handed out, block or not. */
  method TakeAt(h: Heap, current: nat, size: u32) returns (p: nat)
    requires h.HasHeader(current) && h.IsFree(current) && h.SizeOf(current) >= size
    requires CutsAt(h, current, size) ==> h.HasHeader(current + HEADER + size) && current + HEADER + size < TWO64
    modifies h.mem, h`hint, h`totalAlloc
    ensures p == current + HEADER
    ensures old(CutsAt(h, current, size)) ==>
      && HeaderAt(h.mem[..], current - h.base) == Header(size, 0, current + HEADER + size)
      && SameOutside(old(h.mem[..]), h.mem[..], current - h.base, current + HEADER + size + HEADER - h.base)
      && Same(old(h.mem[..]), h.mem[..], current + HEADER - h.base, current + HEADER + size - h.base)
    ensures !old(CutsAt(h, current, size)) ==>
      && HeaderAt(h.mem[..], current - h.base) == old(HeaderAt(h.mem[..], current - h.base)).(free := 0)
      && HeaderWrite(old(h.mem[..]), h.mem[..], current - h.base)
  {
    hide HeaderAt;
    if h.SizeOf(current) >= size + HEADER + MIN_SPLIT {
      var newBlock := current + HEADER + size;
      h.SetSize(newBlock, h.SizeOf(current) - size - HEADER);
      h.SetFreeFlag(newBlock, 1);
      h.SetNext(newBlock, h.NextOf(current));
      h.SetSize(current, size);
      h.SetNext(current, newBlock);
    }
    h.SetFreeFlag(current, 0);
    h.totalAlloc := Wrap32(h.totalAlloc + h.SizeOf(current));
    h.hint := if h.NextOf(current) != 0 then h.NextOf(current) else h.heapStart;
    p := current + HEADER;
  }

  lemma SameHeaderStart(m: seq<byte>, n: seq<byte>, lo: int, hi: int, off: nat)
    requires Same(m, n, lo, hi) && off + HEADER <= |m| && lo <= off && off + 8 <= hi
    ensures HeaderAt(n, off).size == HeaderAt(m, off).size && HeaderAt(n, off).free == HeaderAt(m, off).free
  {
  }

  /** Boot and a first allocation of 8 bytes. */
  method AllocFirst(h: Heap) returns (p: nat)
    requires h.Valid() && !h.initialized && h.mem.Length == REGION
    modifies h, h.mem
    ensures h.Valid() && h.initialized && (h.View(), p) == FirstMalloc(h.base, 8)
    ensures p == h.base + HEADER && h.hint == h.base + 24
    ensures HeaderAt(h.mem[..], 24) == Header(REGION - 2 * HEADER - 8, 1, 0)
  {
    hide HeaderAt, Tiled, Represents, UsedKept, UsedSet, Kmalloc;
    h.MemoryInit();
    p := h.Kmalloc(8);
    FirstMallocIs(h.base, 8);
    h.HeaderFacts(1);
  }

  /** That allocation resized to n: the old header of the rest of the heap still stands where the hint points. */
  method GrowFirst(h: Heap, n: u32) returns (p: nat)
    requires h.Valid() && !h.initialized && h.mem.Length == REGION && Mult8(n) && 16 <= n <= 200
    modifies h, h.mem
    ensures h.Valid() && h.initialized && p == h.base + HEADER
    ensures h.blocks == [Block(h.base, n, false), Block(h.base + HEADER + n, REGION - 2 * HEADER - n, true)]
    ensures h.hint == h.base + 24 && h.IsFree(h.hint) && h.SizeOf(h.hint) == REGION - 2 * HEADER - 8
  {
    hide HeaderAt, Tiled, Represents, UsedKept, UsedSet, Copied, FirstMalloc, Krealloc, GrewInPlace, MayRealloc;
    var q := AllocFirst(h);
    ghost var m := h.mem[..];
    FirstGrowth(h.base, n);
    p := h.Krealloc(q, n);
    AlignUpExact(n);
    SameHeaderStart(m, h.mem[..], q - h.base, q - h.base + n, 24);
  }

  /**
   * Boot, kmalloc(8), krealloc to n, kmalloc(8): the second allocation starts 40 bytes into the heap. For n of 32 and
   * more it lies inside the first one, which is still live. For n == 16 it starts inside the header of the free rest,
   * whose size and flag now hold an address.
   */
  method StaleHintExample(h: Heap, n: u32) returns (p: nat, q: nat)
    requires h.Valid() && !h.initialized && h.mem.Length == REGION && Mult8(n) && 16 <= n <= 200
    modifies h, h.mem
    ensures p == h.base + HEADER && q == h.base + 40
    ensures h.blocks == [Block(h.base, n, false), Block(h.base + HEADER + n, REGION - 2 * HEADER - n, true)]
    ensures n >= 32 ==> p <= q && q + 8 <= p + n
    ensures n == 16 ==> HeaderAt(h.mem[..], 32) == Header((h.base + 48) % TWO32, (h.base + 48) / TWO32, 0)
  {
    hide HeaderAt, Tiled, Represents, UsedKept, UsedSet, Copied;
    p := GrowFirst(h, n);
    h.HeaderFacts(1);
    ghost var m := h.mem[..];
    q := TakeAt(h, h.hint, 8);
    if n == 16 { Shifted(m, h.mem[..], h.base + 48); }
  }

  /** The header at 24 ends in the first half of the one at 32. */
  lemma Shifted(m: seq<byte>, n: seq<byte>, a: u64)
    requires |m| == |n| >= 64 && HeaderAt(m, 32).next == 0 && HeaderAt(n, 24).next == a && Same(m, n, 40, 48)
    ensures HeaderAt(n, 32) == Header(a % TWO32, a / TWO32, 0)
  {
    assert Le64(n, 32) == a && Le64(m, 40) == 0;
    assert Le64(n, 40) == Le64(m, 40);
  }
}
