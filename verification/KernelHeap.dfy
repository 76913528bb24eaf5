/** The heap of Memory_Main.c: a byte region with in-band headers, updated in place. */
module KernelHeap {
  import opened Bytes
  import opened HeapList
  import opened HeapSpec
  import Spec = HeapSpec
  import opened HeapMemory

  class Heap {
    const base: nat
    const mem: array<byte>
    var initialized: bool
    var heapStart: nat
    var hint: nat
    var totalAlloc: u32
    var totalFreed: u32
    ghost var blocks: seq<Block>

    ghost function End(): nat { base + mem.Length }

    ghost function View(): State
      reads this
    {
      State(blocks, hint, totalAlloc, totalFreed)
    }

    /** The region is a page-aligned range below 4 GB long. */
    ghost predicate Region()
    {
      && base > 0 && Mult8(base) && Mult8(mem.Length)
      && HEADER < mem.Length < TWO32 && base + mem.Length < TWO64
    }

    /** The bytes hold a list that tiles the region; nothing is said about hint or counters. */
    ghost predicate Valid()
      reads this, mem
    {
      && Region()
      && if initialized
         then heapStart == base && Tiled(blocks, base, End()) && Represents(mem[..], base, blocks)
         else heapStart == 0 && hint == 0 && blocks == []
    }

    // ----- header fields -----

    predicate HasHeader(a: nat) { base <= a && a + HEADER <= base + mem.Length }

    function SizeOf(a: nat): (v: u32)
      requires HasHeader(a)
      reads mem
      ensures v == HeaderAt(mem[..], a - base).size
    {
      var o := a - base;
      (mem[o] as int) + 0x100 * (mem[o + 1] as int) + 0x1_0000 * (mem[o + 2] as int) + 0x100_0000 * (mem[o + 3] as int)
    }

    function IsFree(a: nat): (v: bool)
      requires HasHeader(a)
      reads mem
      ensures v == (HeaderAt(mem[..], a - base).free != 0)
    {
      var o := a - base + 4;
      mem[o] != 0 || mem[o + 1] != 0 || mem[o + 2] != 0 || mem[o + 3] != 0
    }

    function NextOf(a: nat): (v: u64)
      requires HasHeader(a)
      reads mem
      ensures v == HeaderAt(mem[..], a - base).next
    {
      var o := a - base + 8;
      (mem[o] as int) + 0x100 * (mem[o + 1] as int) + 0x1_0000 * (mem[o + 2] as int) + 0x100_0000 * (mem[o + 3] as int)
      + 0x1_0000_0000 * ((mem[o + 4] as int) + 0x100 * (mem[o + 5] as int)
                         + 0x1_0000 * (mem[o + 6] as int) + 0x100_0000 * (mem[o + 7] as int))
    }

    method Store32(o: nat, v: u32)
      requires o + 4 <= mem.Length
      modifies mem
      ensures SameOutside(old(mem[..]), mem[..], o, o + 4)
      ensures Le32(mem[..], o) == v
    {
      Digits32(v);
      mem[o], mem[o + 1], mem[o + 2], mem[o + 3] := v % 0x100, v / 0x100 % 0x100, v / 0x1_0000 % 0x100, v / 0x100_0000;
    }

    method SetSize(a: nat, v: u32)
      requires HasHeader(a)
      modifies mem
      ensures HeaderWrite(old(mem[..]), mem[..], a - base) && OtherHeaders(old(mem[..]), mem[..], a - base)
      ensures HeaderAt(mem[..], a - base) == old(HeaderAt(mem[..], a - base)).(size := v)
    {
      Store32(a - base, v);
    }

    method SetFreeFlag(a: nat, v: u32)
      requires HasHeader(a)
      modifies mem
      ensures HeaderWrite(old(mem[..]), mem[..], a - base) && OtherHeaders(old(mem[..]), mem[..], a - base)
      ensures HeaderAt(mem[..], a - base) == old(HeaderAt(mem[..], a - base)).(free := v)
    {
      Store32(a - base + 4, v);
    }

    method SetNext(a: nat, v: u64)
      requires HasHeader(a)
      modifies mem
      ensures HeaderWrite(old(mem[..]), mem[..], a - base) && OtherHeaders(old(mem[..]), mem[..], a - base)
      ensures HeaderAt(mem[..], a - base) == old(HeaderAt(mem[..], a - base)).(next := v)
    {
      Store32(a - base + 8, v % TWO32);
      Store32(a - base + 12, v / TWO32);
    }

    // ----- initialisation -----

    /** Static storage before memory_init: nothing set up. */
    constructor (start: nat, length: nat)
      requires start > 0 && Mult8(start) && Mult8(length)
      requires HEADER < length < TWO32 && start + length < TWO64
      ensures Valid() && !initialized && base == start && mem.Length == length && fresh(mem)
    {
      base := start;
      mem := new byte[length];
      initialized, heapStart, hint, totalAlloc, totalFreed := false, 0, 0, 0, 0;
      blocks := [];
    }

    method MemoryInit()
      requires Valid()
      modifies this, mem
      ensures Valid() && initialized
      ensures !old(initialized) ==> View() == Boot(base, End())
      ensures old(initialized) ==> View() == old(View()) && mem[..] == old(mem[..])
    {
      hide SizeOf, IsFree, NextOf, HeaderAt;
      if initialized { return; }
      heapStart := base;
      SetSize(base, mem.Length - HEADER);
      SetFreeFlag(base, 1);
      SetNext(base, 0);
      hint := heapStart;
      initialized, totalAlloc, totalFreed := true, 0, 0;
      blocks := Boot(base, End()).blocks;
      assert HeaderOk(mem[..], base, blocks, 0);
    }

    // ----- list primitives -----

    lemma HeaderFacts(i: nat)
      requires Valid() && i < |blocks|
      ensures initialized && HasHeader(blocks[i].addr)
      ensures HeaderAt(mem[..], blocks[i].addr - base) == HeaderFor(blocks, i)
      ensures SizeOf(blocks[i].addr) == blocks[i].size
      ensures IsFree(blocks[i].addr) == blocks[i].free
      ensures NextOf(blocks[i].addr) == NextAddr(blocks, i)
      ensures base <= blocks[i].addr && blocks[i].End() <= End()
      ensures NextAddr(blocks, i) == 0 <==> i + 1 == |blocks|
      ensures blocks[0].addr == heapStart == base > 0
    {
      if i + 1 < |blocks| { Ordered(blocks, base, End(), i, i + 1); }
      Inside(blocks, base, End(), i);
      assert HeaderOk(mem[..], base, blocks, i);
    }

    method SplitBlockIfNeeded(block: nat, size: u32, ghost i: nat)
      requires Valid() && i < |blocks| && blocks[i].addr == block && Mult8(size)
      modifies this`blocks, mem
      ensures Valid() && blocks == Split(old(blocks), i, size)
      ensures SameOutside(old(mem[..]), mem[..], block - base, old(blocks[i].End()) - base)
      ensures Same(old(mem[..]), mem[..], block + HEADER - base, block + HEADER - base + Min(size, old(blocks[i].size)))
      ensures !Splits(old(blocks[i]), size) ==> mem[..] == old(mem[..])
    {
      hide SizeOf, IsFree, NextOf, HeaderAt, Split, Tiled, Mult8, Wrap32;
      HeaderFacts(i);
      SplitShape(blocks, i, size);
      if SizeOf(block) >= size + HEADER + MIN_SPLIT {
        ghost var bs, m := blocks, mem[..];
        ghost var cs := Split(bs, i, size);
        var newBlock := block + HEADER + size;
        SetSize(newBlock, SizeOf(block) - size - HEADER);
        SetFreeFlag(newBlock, 1);
        SetNext(newBlock, NextOf(block));
        SetSize(block, size);
        SetNext(block, newBlock);
        assert HeaderAt(mem[..], block - base) == HeaderFor(cs, i);
        assert HeaderAt(mem[..], newBlock - base) == HeaderFor(cs, i + 1);
        SplitRepresented(m, mem[..], base, End(), bs, i, size);
        SplitTiled(bs, base, End(), i, size);
        blocks := cs;
      }
    }

    /** The block takes over its successor's header and payload. */
    method Absorb(block: nat, ghost i: nat)
      requires Valid() && i + 1 < |blocks| && blocks[i].addr == block
      modifies this`blocks, mem
      ensures Valid() && blocks == Merge(old(blocks), i)
      ensures HeaderWrite(old(mem[..]), mem[..], block - base)
    {
      hide SizeOf, IsFree, NextOf, HeaderAt, Merge, Tiled, Mult8, Wrap32;
      HeaderFacts(i);
      HeaderFacts(i + 1);
      Ordered(blocks, base, End(), i, i + 1);
      var next := NextOf(block);
      ghost var bs, m := blocks, mem[..];
      MergeShape(bs, i);
      MergeTiled(bs, base, End(), i);
      Inside(Merge(bs, i), base, End(), i);
      SetSize(block, SizeOf(block) + HEADER + SizeOf(next));
      SetNext(block, NextOf(next));
      assert HeaderAt(mem[..], block - base) == HeaderFor(Merge(bs, i), i);
      MergeRepresented(m, mem[..], base, End(), bs, i);
      blocks := Merge(bs, i);
    }

    method Mark(block: nat, free: bool, ghost i: nat)
      requires Valid() && i < |blocks| && blocks[i].addr == block
      modifies this`blocks, mem
      ensures Valid() && blocks == SetFree(old(blocks), i, free)
      ensures HeaderWrite(old(mem[..]), mem[..], block - base)
    {
      hide SizeOf, IsFree, NextOf, HeaderAt, Mult8, Wrap32;
      HeaderFacts(i);
      ghost var bs, m := blocks, mem[..];
      SetFreeFlag(block, if free then 1 else 0);
      ghost var cs := SetFree(bs, i, free);
      assert HeaderAt(mem[..], block - base) == HeaderFor(cs, i);
      HeaderReplaced(m, mem[..], base, End(), bs, cs, i);
      SetFreeTiled(bs, base, End(), i, free);
      blocks := cs;
    }

    // ----- allocation -----

    method FindBlockByPayload(ptr: nat) returns (block: nat, prev: nat)
      requires Valid()
      ensures var k := Find(blocks, ptr - HEADER, 0);
        && block == (if k < 0 then 0 else blocks[k].addr)
        && prev == (if k <= 0 then 0 else blocks[k - 1].addr)
    {
      hide SizeOf, IsFree, NextOf, HeaderAt, Tiled, Represents, Mult8, Wrap32;
      prev, block := 0, heapStart;
      ghost var i := 0;
      if initialized { StartsAtBase(); }
      while block != 0
        invariant 0 <= i <= |blocks|
        invariant block == if i < |blocks| then blocks[i].addr else 0
        invariant i < |blocks| ==> prev == if i == 0 then 0 else blocks[i - 1].addr
        invariant Find(blocks, ptr - HEADER, i) == Find(blocks, ptr - HEADER, 0)
        decreases |blocks| - i
      {
        if block + HEADER == ptr { return; }
        HeaderFacts(i);
        if i + 1 < |blocks| { HeaderFacts(i + 1); }
        prev, block, i := block, NextOf(block), i + 1;
      }
      if i < |blocks| { HeaderFacts(i); }
      prev := 0;
    }

    lemma StartsAtBase()
      requires Valid() && initialized
      ensures |blocks| > 0 && blocks[0].addr == heapStart == base > 0
    {
    }

    /** The next-fit loop: from start to the end of the list, then from its head, back to start. */
    method Search(start: nat, size: u32) returns (found: nat)
      requires Valid() && initialized && OnList(blocks, start)
      ensures Find(blocks, start, 0) >= 0
      ensures var k := Scan(blocks, Find(blocks, start, 0), 0, size);
        found == (if k < 0 then 0 else blocks[k].addr) && (found == 0 <==> k < 0)
    {
      hide SizeOf, IsFree, NextOf, HeaderAt, Tiled, Represents, Mult8, Wrap32;
      var current, wrapped := start, false;
      ghost var h, k, n := Find(blocks, start, 0), 0, |blocks|;
      while current != 0
        invariant 0 <= h < n && 0 <= k < n && blocks[h].addr == start
        invariant current == blocks[Visit(n, h, k)].addr
        invariant wrapped <==> h + k >= n
        invariant Scan(blocks, h, k, size) == Scan(blocks, h, 0, size)
        decreases n - k
      {
        ghost var i := Visit(n, h, k);
        HeaderFacts(i);
        if IsFree(current) && SizeOf(current) >= size { return current; }
        if i + 1 < n { HeaderFacts(i + 1); }
        current, k := NextOf(current), k + 1;
        if current == 0 && !wrapped {
          StartsAtBase();
          current, wrapped := heapStart, true;
        }
        if k < n { DistinctAddrs(Visit(n, h, k), h); }
        if wrapped && current == start { break; }
      }
      if k < n { HeaderFacts(Visit(n, h, k)); }
      found := 0;
    }

    method KmallocLocked(size: u32) returns (p: nat)
      requires Valid() && initialized && HintOk(blocks, hint) && Mult8(size)
      modifies this`hint, this`totalAlloc, this`blocks, mem
      ensures Valid()
      ensures (View(), p) == MallocLocked(old(View()), size)
      ensures p == 0 ==> mem[..] == old(mem[..])
      ensures UsedKept(old(mem[..]), mem[..], base, UsedSet(old(blocks)), -1)
    {
      hide SizeOf, IsFree, NextOf, HeaderAt, Tiled, Represents, Mult8, Wrap32, Scan, Alloc, UsedSet, UsedKept,
           OthersKept;
      StartsAtBase();
      if hint == 0 { hint := heapStart; }
      NothingChanged(mem[..], base, UsedSet(blocks));
      ghost var bs, m := blocks, mem[..];
      var current := Search(hint, size);
      if current == 0 { return 0; }
      ghost var i := Scan(blocks, Find(blocks, hint, 0), 0, size);
      p := Carve(current, size, i);
      OthersMeansUsed(m, mem[..], base, bs, i, -1);
    }

    lemma DistinctAddrs(i: nat, j: nat)
      requires Valid() && i < |blocks| && j < |blocks|
      ensures blocks[i].addr == blocks[j].addr ==> i == j
    {
      AllOrdered(blocks, base, End());
    }

    /** The found block is split, marked in use and counted; the hint moves past it. */
    method Carve(current: nat, size: u32, ghost i: nat) returns (p: nat)
      requires Valid() && i < |blocks| && blocks[i].addr == current
      requires Fits(blocks[i], size) && Mult8(size)
      modifies this`hint, this`totalAlloc, this`blocks, mem
      ensures Valid() && initialized
      ensures View() == Take(old(View()), i, size) && p == old(blocks[i].Payload())
      ensures OthersKept(old(mem[..]), mem[..], base, old(blocks), i)
    {
      hide SizeOf, IsFree, NextOf, HeaderAt, Tiled, Represents, Split, SameOutside, Mult8, Wrap32;
      ghost var bs, m := blocks, mem[..];
      HeaderFacts(i);
      SplitShape(bs, i, size);
      SplitBlockIfNeeded(current, size, i);
      ghost var m1 := mem[..];
      Mark(current, false, i);
      CarveFrame(m, m1, mem[..], bs, i);
      HeaderFacts(i);
      totalAlloc := Wrap32(totalAlloc + SizeOf(current));
      hint := if NextOf(current) != 0 then NextOf(current) else heapStart;
      p := current + HEADER;
    }

    lemma CarveFrame(m: seq<byte>, m1: seq<byte>, m2: seq<byte>, bs: seq<Block>, i: nat)
      requires Tiled(bs, base, End()) && i < |bs|
      requires SameOutside(m, m1, bs[i].addr - base, bs[i].End() - base)
      requires HeaderWrite(m1, m2, bs[i].addr - base)
      ensures OthersKept(m, m2, base, bs, i)
    {
      OutsideKeepsOthers(m, m2, base, End(), bs, i);
    }

    /** Out of memory, size 0 and an uninitialised heap give NULL and leave list and bytes alone. */
    method Kmalloc(size: u32) returns (p: nat)
      requires Valid() && (initialized ==> MayMalloc(View(), size))
      modifies this`hint, this`totalAlloc, this`blocks, mem
      ensures Valid()
      ensures initialized ==> (View(), p) == Spec.Kmalloc(old(View()), size)
      ensures !initialized ==> View() == old(View()) && p == 0
      ensures p == 0 ==> mem[..] == old(mem[..])
      ensures UsedKept(old(mem[..]), mem[..], base, UsedSet(old(blocks)), -1)
    {
      hide HeaderAt, Tiled, Represents, Scan, Mult8, Wrap32;
      if !initialized || size == 0 { return 0; }
      StartsAtBase();
      p := KmallocLocked(AlignUp(size));
    }

    method Kfree(ptr: nat)
      requires Valid()
      modifies this`hint, this`totalFreed, this`blocks, mem
      ensures Valid()
      ensures View() == Spec.Kfree(old(View()), base, End(), ptr)
      ensures !initialized ==> View() == old(View())
      ensures UsedKept(old(mem[..]), mem[..], base, UsedSet(old(blocks)), -1)
      ensures OthersKept(old(mem[..]), mem[..], base, old(blocks), -1)
    {
      hide SizeOf, IsFree, NextOf, HeaderAt, Tiled, Represents, Merge, Mult8, Wrap32;
      if ptr == 0 || !initialized || heapStart == 0 { return; }
      if ptr < heapStart + HEADER || ptr >= heapStart + mem.Length { return; }
      ghost var i := Find(blocks, ptr - HEADER, 0);
      var block, prev := FindBlockByPayload(ptr);
      if block == 0 { return; }
      HeaderFacts(i);
      if IsFree(block) { return; }
      ghost var bs, m := blocks, mem[..];
      Mark(block, true, i);
      HeaderWriteKeepsAll(m, mem[..], base, End(), bs, i);
      HeaderFacts(i);
      totalFreed := Wrap32(totalFreed + SizeOf(block));
      ghost var m1 := mem[..];
      Coalesce(block, prev, bs, i);
      KeptTrans(m, m1, mem[..], base, bs, -1);
      OthersMeansUsed(m, mem[..], base, bs, -1, -1);
    }

    /** Merge a just-freed block with a free successor and into a free predecessor. */
    method Coalesce(block: nat, prev: nat, ghost bs: seq<Block>, ghost i: nat)
      requires Valid() && Tiled(bs, base, End()) && i < |bs| && bs[i].addr == block
      requires blocks == SetFree(bs, i, true) && prev == (if i == 0 then 0 else bs[i - 1].addr)
      modifies this`hint, this`blocks, mem
      ensures Valid()
      ensures blocks == Release(bs, i) && hint == bs[ReleasedAt(bs, i)].addr
      ensures OthersKept(old(mem[..]), mem[..], base, bs, -1)
    {
      hide SizeOf, IsFree, NextOf, HeaderAt, Tiled, Represents, Merge, Mult8, Wrap32;
      ghost var m := mem[..];
      HeaderFacts(i);
      if i + 1 < |bs| { HeaderFacts(i + 1); MergeShape(blocks, i); }
      if NextOf(block) != 0 && IsFree(NextOf(block)) {
        Absorb(block, i);
        HeaderWriteKeepsAll(m, mem[..], base, End(), bs, i);
      }
      ghost var n := mem[..];
      if i > 0 { HeaderFacts(i - 1); }
      if prev != 0 && IsFree(prev) {
        Absorb(prev, i - 1);
        HeaderWriteKeepsAll(n, mem[..], base, End(), bs, i - 1);
        hint := prev;
      } else {
        hint := block;
      }
      KeptTrans(m, n, mem[..], base, bs, -1);
    }

    /**
     * A product that would wrap is refused. Otherwise the requested bytes are zeroed one by one: inside the block
     * if rounding the product up does not wrap, and else over everything up to the end of the heap and beyond it.
     */
    method Kcalloc(num: u32, size: u32) returns (p: nat, inside: bool)
      requires Valid() && (initialized ==> MayMalloc(View(), CallocSize(num, size)))
      modifies this`hint, this`totalAlloc, this`blocks, mem
      ensures initialized ==> (View(), p) == Spec.Kcalloc(old(View()), num, size)
      ensures !initialized ==> View() == old(View()) && p == 0
      ensures p == 0 ==> mem[..] == old(mem[..])
      ensures inside <==> p == 0 || num * size <= 0xFFFF_FFF8
      ensures p != 0 ==> base + HEADER <= p <= End() && (inside <==> p + num * size <= End())
      ensures p != 0 ==> forall k :: p - base <= k < mem.Length && k < p - base + num * size ==> mem[k] == 0
      ensures inside ==> Valid() && UsedKept(old(mem[..]), mem[..], base, UsedSet(old(blocks)), -1)
    {
      hide HeaderAt, Tiled, Represents, OthersKept, Spec.Kmalloc, Mult8, Wrap32;
      CallocFits(num, size);
      NothingChanged(mem[..], base, UsedSet(blocks));
      if num != 0 && size > 0xFFFF_FFFF / num { return 0, true; }
      p, inside := KmallocZeroed(num * size);
    }

    method KmallocZeroed(total: u32) returns (p: nat, inside: bool)
      requires Valid() && (initialized ==> MayMalloc(View(), total))
      modifies this`hint, this`totalAlloc, this`blocks, mem
      ensures initialized ==> (View(), p) == Spec.Kmalloc(old(View()), total)
      ensures !initialized ==> View() == old(View()) && p == 0
      ensures p == 0 ==> mem[..] == old(mem[..])
      ensures inside <==> p == 0 || total <= 0xFFFF_FFF8
      ensures p != 0 ==> base + HEADER <= p <= End() && (inside <==> p + total <= End())
      ensures p != 0 ==> forall k :: p - base <= k < mem.Length && k < p - base + total ==> mem[k] == 0
      ensures inside ==> Valid() && UsedKept(old(mem[..]), mem[..], base, UsedSet(old(blocks)), -1)
    {
      hide HeaderAt, Tiled, Represents, Spec.Kmalloc, UsedKept, UsedSet, Mult8, Wrap32;
      ghost var s, m := View(), mem[..];
      p := Kmalloc(total);
      inside := true;
      if p != 0 {
        StartsAtBase();
        ghost var i := MallocGives(s, base, End(), total);
        HeaderFacts(i);
        ghost var n := mem[..];
        inside := Zero(p - base, total);
        if inside {
          WithinPayload(n, i, total);
          KeptTwice(m, n, mem[..], base, UsedSet(s.blocks), UsedSet(blocks), p - HEADER);
        }
      }
    }

    /** A write that stays inside block i keeps the list and every other payload. */
    lemma WithinPayload(n: seq<byte>, i: nat, len: nat)
      requires Region() && initialized && heapStart == base && Tiled(blocks, base, End()) && |n| == mem.Length
      requires Represents(n, base, blocks) && i < |blocks| && len <= blocks[i].size
      requires SameOutside(n, mem[..], blocks[i].Payload() - base, blocks[i].Payload() - base + len)
      ensures Valid() && UsedKept(n, mem[..], base, UsedSet(blocks), blocks[i].addr)
    {
      hide HeaderAt, Tiled, Represents, UsedSet, Mult8, Wrap32;
      PayloadWrite(n, mem[..], base, End(), blocks, i);
      OutsideKeepsOthers(n, mem[..], base, End(), blocks, i);
      OthersMeansUsed(n, mem[..], base, blocks, i, blocks[i].addr);
    }

    /** Zeroes upwards from offset o; false once the loop leaves the heap region. */
    method Zero(o: nat, total: u32) returns (inside: bool)
      requires o <= mem.Length
      modifies mem
      ensures inside <==> o + total <= mem.Length
      ensures SameOutside(old(mem[..]), mem[..], o, o + total)
      ensures forall k :: o <= k < mem.Length && k < o + total ==> mem[k] == 0
    {
      ghost var m := mem[..];
      for k := 0 to total
        invariant o + k <= mem.Length && SameOutside(m, mem[..], o, o + k)
        invariant forall j :: o <= j < o + k ==> mem[j] == 0
      {
        if o + k == mem.Length { return false; }
        mem[o + k] := 0;
      }
      inside := true;
    }

    method GetFreeMemory() returns (r: u32)
      requires Valid()
      ensures r == FreeSum(blocks)
      ensures initialized ==> r + UsedSum(blocks) + HEADER * |blocks| == mem.Length
    {
      hide SizeOf, IsFree, NextOf, HeaderAt, Tiled, Represents, Mult8, Wrap32;
      r := 0;
      if !initialized { return; }
      Conservation(blocks, base, End());
      var current := heapStart;
      ghost var i := 0;
      StartsAtBase();
      assert blocks[0..] == blocks;
      while current != 0
        invariant 0 <= i <= |blocks|
        invariant current == if i < |blocks| then blocks[i].addr else 0
        invariant r + FreeSum(blocks[i..]) == FreeSum(blocks)
        decreases |blocks| - i
      {
        HeaderFacts(i);
        if i + 1 < |blocks| { HeaderFacts(i + 1); }
        assert blocks[i..][1..] == blocks[i + 1..];
        if IsFree(current) { r := r + SizeOf(current); }
        current, i := NextOf(current), i + 1;
      }
      if i < |blocks| { HeaderFacts(i); }
      assert blocks[|blocks|..] == [];
    }

    /** Under the invariant, which every run of kmalloc, kfree and kcalloc keeps, the counters give the used bytes. */
    method GetUsedMemory() returns (r: u32)
      ensures r == Wrap32(totalAlloc - totalFreed)
      ensures Inv(View(), base, End()) ==> r == UsedSum(blocks) && FreeSum(blocks) + r + HEADER * |blocks| == mem.Length
    {
      r := Wrap32(totalAlloc - totalFreed);
      if Inv(View(), base, End()) { Conservation(blocks, base, End()); }
    }

    // ----- krealloc -----

    /**
     * The block list, the result, the kept bytes and the other payloads. Hint and counters are
     * exactly those of the specification, which in-place resizing leaves alone.
     */
    method Krealloc(ptr: nat, newSize: u32) returns (p: nat)
      requires Valid() && (initialized ==> MayRealloc(View(), ptr, newSize))
      modifies this`hint, this`totalAlloc, this`totalFreed, this`blocks, mem
      ensures Valid()
      ensures initialized ==> (View(), p) == Spec.Krealloc(old(View()), base, End(), ptr, newSize)
      ensures !initialized ==> View() == old(View()) && p == 0
      ensures UsedKept(old(mem[..]), mem[..], base, UsedSet(old(blocks)), if p == 0 then -1 else ptr - HEADER)
      ensures p != 0 && ptr != 0 ==>
        var i := Find(old(blocks), ptr - HEADER, 0);
        && i >= 0
        && Copied(old(mem[..]), ptr - base, mem[..], p - base, KeptBytes(old(blocks)[i].size, AlignUp(newSize)))
        && (KeepsBytes(old(blocks)[i].size, newSize) ==>
              Copied(old(mem[..]), ptr - base, mem[..], p - base, Min(old(blocks)[i].size, newSize)))
      ensures initialized && GrewInPlace(old(View()), ptr, newSize) ==>
        Same(old(mem[..]), mem[..], ptr - base, ptr - base + AlignUp(newSize))
    {
      hide SizeOf, IsFree, NextOf, HeaderAt, Tiled, Represents, Spec.Kmalloc, Spec.Kfree, Spec.Resize, UsedKept,
           UsedSet, Copied, KeepsBytes, KeptBytes, Find, Mult8, Wrap32;
      ghost var bs, m := blocks, mem[..];
      if ptr == 0 {
        p := Kmalloc(newSize);
        AllMeansOthers(m, mem[..], base, UsedSet(bs), ptr - HEADER);
        return;
      }
      if newSize == 0 {
        Kfree(ptr);
        return 0;
      }
      var n := AlignUp(newSize);
      ghost var i := Find(blocks, ptr - HEADER, 0);
      var block, prev := FindBlockByPayload(ptr);
      if i >= 0 { HeaderFacts(i); }
      NothingChanged(m, base, UsedSet(bs));
      if block == 0 || IsFree(block) { return 0; }
      p := ResizeBlock(ptr, block, n, i);
      KeptBytesExact(bs[i].size, newSize);
      if p != 0 && KeepsBytes(bs[i].size, newSize) {
        CopiedLess(m, ptr - base, mem[..], p - base, KeptBytes(bs[i].size, n), Min(bs[i].size, newSize));
      }
    }

    /** The three ways to resize a block in use. */
    method ResizeBlock(ptr: nat, block: nat, n: u32, ghost i: nat) returns (p: nat)
      requires Valid() && i < |blocks| && blocks[i].addr == block && !blocks[i].free
      requires MustMove(blocks, i, n) ==> HintOk(blocks, hint)
      requires ptr == block + HEADER && Mult8(n)
      modifies this`hint, this`totalAlloc, this`totalFreed, this`blocks, mem
      ensures Valid() && initialized
      ensures (View(), p) == Spec.Resize(old(View()), base, End(), ptr, i, n)
      ensures UsedKept(old(mem[..]), mem[..], base, UsedSet(old(blocks)), if p == 0 then -1 else block)
      ensures p != 0 ==> Copied(old(mem[..]), ptr - base, mem[..], p - base, KeptBytes(old(blocks)[i].size, n))
      ensures GrowsInPlace(old(blocks), i, n) ==> Same(old(mem[..]), mem[..], ptr - base, ptr - base + n)
    {
      hide SizeOf, IsFree, NextOf, HeaderAt, Tiled, Represents, Spec.Kmalloc, Spec.Kfree, Split, Merge, UsedKept,
           UsedSet, Copied, Mult8, Wrap32;
      ghost var bs, m := blocks, mem[..];
      HeaderFacts(i);
      if i + 1 < |blocks| { HeaderFacts(i + 1); }
      var oldSize := SizeOf(block);
      if n <= oldSize {
        ShrinkBlock(block, n, i);
        return ptr;
      }
      if NextOf(block) != 0 && IsFree(NextOf(block)) && oldSize + HEADER + SizeOf(NextOf(block)) >= n {
        GrowBlock(block, n, i);
        return ptr;
      }
      p := Move(ptr, oldSize, n, i);
      AllMeansOthers(m, mem[..], base, UsedSet(bs), block);
    }

    method ShrinkBlock(block: nat, n: u32, ghost i: nat)
      requires Valid() && i < |blocks| && blocks[i].addr == block && Mult8(n) && n <= blocks[i].size
      modifies this`blocks, mem
      ensures Valid() && blocks == Split(old(blocks), i, n)
      ensures UsedKept(old(mem[..]), mem[..], base, UsedSet(old(blocks)), block)
      ensures var o, k := block + HEADER - base, KeptBytes(old(blocks[i].size), n);
        Copied(old(mem[..]), o, mem[..], o, k)
    {
      hide HeaderAt, Tiled, Represents, Split, Mult8, Wrap32;
      ghost var bs, m := blocks, mem[..];
      HeaderFacts(i);
      SplitBlockIfNeeded(block, n, i);
      OutsideKeepsOthers(m, mem[..], base, End(), bs, i);
      OthersMeansUsed(m, mem[..], base, bs, i, block);
    }

    method GrowBlock(block: nat, n: u32, ghost i: nat)
      requires Valid() && i < |blocks| && blocks[i].addr == block && Mult8(n)
      requires GrowsInPlace(blocks, i, n)
      modifies this`blocks, mem
      ensures Valid() && blocks == Grow(old(blocks), i, n)
      ensures UsedKept(old(mem[..]), mem[..], base, UsedSet(old(blocks)), block)
      ensures Same(old(mem[..]), mem[..], block + HEADER - base, block + HEADER - base + n)
      ensures Copied(old(mem[..]), block + HEADER - base, mem[..], block + HEADER - base, old(blocks[i].size))
    {
      hide SizeOf, IsFree, NextOf, HeaderAt, Tiled, Represents, Split, Merge, Mult8, Wrap32;
      ghost var bs, m := blocks, mem[..];
      HeaderFacts(i);
      MergeShape(bs, i);
      Absorb(block, i);
      ghost var m1 := mem[..];
      HeaderFacts(i);
      SplitBlockIfNeeded(block, n, i);
      AllOrdered(bs, base, End());
    }

    method Move(ptr: nat, oldSize: u32, n: u32, ghost i: nat) returns (p: nat)
      requires Valid() && HintOk(blocks, hint)
      requires i < |blocks| && !blocks[i].free && blocks[i].Payload() == ptr && blocks[i].size == oldSize < n
      requires Mult8(n)
      modifies this`hint, this`totalAlloc, this`totalFreed, this`blocks, mem
      ensures Valid() && initialized
      ensures var (t, q) := Spec.Kmalloc(old(View()), n);
        p == q && View() == if q == 0 then t else Spec.Kfree(t, base, End(), ptr)
      ensures UsedKept(old(mem[..]), mem[..], base, UsedSet(old(blocks)), -1)
      ensures p != 0 ==> Copied(old(mem[..]), ptr - base, mem[..], p - base, oldSize)
    {
      ghost var b, used, m, s := blocks[i], UsedSet(blocks), mem[..], View();
      assert b in used;
      hide SizeOf, IsFree, NextOf, HeaderAt, Tiled, Represents, Spec.Kmalloc, Spec.Kfree, UsedKept, UsedSet, Mult8,
           Wrap32, AlignUp;
      HeaderFacts(i);
      p := Kmalloc(n);
      if p != 0 {
        AlignUpExact(n);
        ghost var j := MallocGives(s, base, End(), n);
        MoveInto(ptr, p, oldSize, used, m, b, j);
      }
    }

    /** The second half of a move: block j is the new one, and b still holds its bytes. */
    method MoveInto(ptr: nat, p: nat, oldSize: u32, ghost used: set<Block>, ghost m: seq<byte>, ghost b: Block,
                    ghost j: nat)
      requires Valid() && j < |blocks| && blocks[j].Payload() == p && oldSize <= blocks[j].size
      requires b in used && b.Payload() == ptr && b.size == oldSize
      requires used <= UsedSet(blocks) && forall c :: c in used ==> c.addr != blocks[j].addr
      requires UsedKept(m, mem[..], base, used, -1)
      modifies this`hint, this`totalFreed, this`blocks, mem
      ensures Valid() && initialized
      ensures View() == Spec.Kfree(old(View()), base, End(), ptr)
      ensures UsedKept(m, mem[..], base, used, -1)
      ensures Copied(m, ptr - base, mem[..], p - base, oldSize)
    {
      hide SizeOf, IsFree, NextOf, HeaderAt, Tiled, Represents, Spec.Kfree, UsedKept, UsedSet, Mult8, Wrap32, Copied;
      ghost var more, m1 := UsedSet(blocks), mem[..];
      CopyAndFree(ptr, p, oldSize, IndexIn(blocks, b), j);
      MovedCopy(m, m1, mem[..], base, used, more, b, p, oldSize);
    }

    ghost function IndexIn(bs: seq<Block>, b: Block): (i: nat)
      requires b in UsedSet(bs)
      ensures i < |bs| && bs[i] == b && !b.free
    {
      var i :| 0 <= i < |bs| && bs[i] == b;
      i
    }

    lemma MovedCopy(m: seq<byte>, m1: seq<byte>, m2: seq<byte>, lo: nat, used: set<Block>, more: set<Block>, b: Block,
                    p: int, len: nat)
      requires UsedKept(m, m1, lo, used, -1) && UsedKept(m1, m2, lo, more, p - HEADER)
      requires used <= more && (forall c :: c in used ==> c.addr != p - HEADER)
      requires b in used && len <= b.size && Copied(m1, b.Payload() - lo, m2, p - lo, len)
      ensures UsedKept(m, m2, lo, used, -1)
      ensures Copied(m, b.Payload() - lo, m2, p - lo, len)
    {
      Kept(m, m1, lo, used, -1, b);
      KeptTwice(m, m1, m2, lo, used, more, p - HEADER);
    }

    method CopyAndFree(src: nat, dst: nat, len: u32, ghost i: nat, ghost j: nat)
      requires Valid() && i < |blocks| && j < |blocks| && i != j
      requires blocks[i].Payload() == src && blocks[j].Payload() == dst && len <= blocks[i].size
      requires len <= blocks[j].size
      modifies this`hint, this`totalFreed, this`blocks, mem
      ensures Valid() && initialized
      ensures View() == Spec.Kfree(old(View()), base, End(), src)
      ensures UsedKept(old(mem[..]), mem[..], base, UsedSet(old(blocks)), dst - HEADER)
      ensures Copied(old(mem[..]), src - base, mem[..], dst - base, len)
    {
      hide HeaderAt, Tiled, Represents, Spec.Kfree, UsedKept, UsedSet, Copied, OthersKept, Mult8, Wrap32;
      ghost var bs, m := blocks, mem[..];
      HeaderFacts(i);
      CopyPayload(src, dst, len, i, j);
      ghost var m1 := mem[..];
      Kfree(src);
      KeptAt(m1, mem[..], base, bs, j);
      CopiedThrough(m, m, m1, mem[..], base, bs[i], bs[j], len);
      KeptThenAll(m, m1, mem[..], base, UsedSet(bs), dst - HEADER);
    }

    lemma KeptAt(m: seq<byte>, n: seq<byte>, lo: nat, bs: seq<Block>, j: nat)
      requires OthersKept(m, n, lo, bs, -1) && j < |bs|
      ensures SamePayload(m, n, lo, bs[j])
    {
    }

    method CopyPayload(src: nat, dst: nat, len: u32, ghost i: nat, ghost j: nat)
      requires Valid() && i < |blocks| && j < |blocks| && i != j
      requires blocks[i].Payload() == src && blocks[j].Payload() == dst && len <= blocks[i].size
      requires len <= blocks[j].size
      modifies mem
      ensures Valid()
      ensures UsedKept(old(mem[..]), mem[..], base, UsedSet(blocks), dst - HEADER)
      ensures Copied(old(mem[..]), src - base, mem[..], dst - base, len)
    {
      hide HeaderAt, Tiled, Represents, Mult8, Wrap32, Copied, UsedSet, UsedKept, OthersKept;
      HeaderFacts(i);
      HeaderFacts(j);
      if i < j { Ordered(blocks, base, End(), i, j); } else { Ordered(blocks, base, End(), j, i); }
      ghost var m := mem[..];
      CopyBytes(src - base, dst - base, len);
      PayloadWrite(m, mem[..], base, End(), blocks, j);
      OutsideKeepsOthers(m, mem[..], base, End(), blocks, j);
      OthersMeansUsed(m, mem[..], base, blocks, j, dst - HEADER);
    }

    method CopyBytes(s: nat, d: nat, len: u32)
      requires s + len <= mem.Length && d + len <= mem.Length && (s + len <= d || d + len <= s)
      modifies mem
      ensures SameOutside(old(mem[..]), mem[..], d, d + len)
      ensures Copied(old(mem[..]), s, mem[..], d, len)
    {
      ghost var m := mem[..];
      for k := 0 to len
        invariant SameOutside(m, mem[..], d, d + k)
        invariant forall o :: d <= o < d + k ==> mem[o] == m[o - d + s]
      {
        mem[d + k] := mem[s + k];
      }
    }
  }
}
