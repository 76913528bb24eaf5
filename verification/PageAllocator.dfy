/** The page bitmap as the kernel keeps it: an array updated in place. */
module PageAllocator {
  import opened Bytes
  import Spec = PageSpec

  /** The heap's first page: the kernel image's end, rounded up, in 64- then 32-bit arithmetic. */
  function StartPage(kernelEnd: u64): (p: u32)
  {
    ((kernelEnd as int) + Spec.PAGE_SIZE - 1) % TWO64 / Spec.PAGE_SIZE % TWO32
  }

  /** The heap starts at or above the kernel's end exactly when the page number fits 32 bits. */
  lemma StartAboveKernel(kernelEnd: u64)
    ensures StartPage(kernelEnd) * Spec.PAGE_SIZE >= kernelEnd <==> kernelEnd <= (TWO32 - 1) * Spec.PAGE_SIZE
  {
  }

  /** And then it starts in the first page that the kernel does not reach. */
  lemma StartExact(kernelEnd: u64)
    requires kernelEnd <= 0xFFFF_FFFF * 4096
    ensures kernelEnd <= StartPage(kernelEnd) * 4096 < kernelEnd + 4096
  {
  }

  /** One byte past the last page whose number fits 32 bits, the heap is placed at page 0. */
  lemma HighKernelExample()
    ensures StartPage((TWO32 - 1) * Spec.PAGE_SIZE + 1) == 0
  {
  }

  class PageAllocator {
    const bitmap: array<byte>
    const kernelEnd: u64
    var hint: nat
    var heapStartPage: u32

    ghost predicate Valid()
      reads this
    {
      bitmap.Length == Spec.MAX_PAGES && hint < Spec.MAX_PAGES
    }

    ghost function View(): (s: Spec.Pages)
      requires Valid()
      reads this, bitmap
      ensures Spec.Wf(s)
    {
      Spec.Pages(bitmap[..], hint)
    }

    /** Static storage: every byte zero, no heap page computed yet. */
    constructor (end: u64)
      ensures Valid() && kernelEnd == end && heapStartPage == 0 && hint == 0 && fresh(bitmap)
      ensures forall i :: 0 <= i < bitmap.Length ==> bitmap[i] == 0
    {
      bitmap := new byte[Spec.MAX_PAGES](_ => 0);
      kernelEnd := end;
      hint := 0;
      heapStartPage := 0;
    }

    ghost function HeapPage(): (p: u32)
      reads this
    {
      if heapStartPage != 0 then heapStartPage else StartPage(kernelEnd)
    }

    method CalcHeapStartPage() returns (p: u32)
      requires Valid()
      modifies this`heapStartPage
      ensures Valid() && p == heapStartPage == old(HeapPage())
    {
      if heapStartPage != 0 { return heapStartPage; }
      heapStartPage := StartPage(kernelEnd);
      p := heapStartPage;
    }

    method MarkPages(start: u64, count: u64, used: byte)
      requires Valid()
      modifies bitmap
      ensures bitmap[..] == Spec.Mark(old(bitmap[..]), start, count, used)
    {
      if start < Spec.MAX_PAGES {
        var end := ((start as int) + (count as int)) % TWO64;
        if end > Spec.MAX_PAGES { end := Spec.MAX_PAGES; }
        var i: nat := start;
        while i < end
          invariant start <= i && (i <= end || i == start)
          invariant forall k :: 0 <= k < bitmap.Length ==> bitmap[k] == if start <= k < i then used else old(bitmap[k])
        {
          bitmap[i] := used;
          i := i + 1;
        }
      }
      assert forall k :: 0 <= k < bitmap.Length ==> bitmap[k] == Spec.Mark(old(bitmap[..]), start, count, used)[k];
    }

    /** The memory map as its descriptors in order; a NULL map or a zero descriptor size is the empty one. */
    method InitPhysicalMemory(ds: seq<Spec.Descriptor>)
      requires Valid()
      modifies this`heapStartPage, bitmap
      ensures Valid() && heapStartPage == old(HeapPage())
      ensures View() == Spec.Pages(Spec.InitMap(ds, heapStartPage), old(hint))
    {
      var i := 0;
      while i < bitmap.Length
        invariant 0 <= i <= bitmap.Length && heapStartPage == old(heapStartPage)
        invariant forall k :: 0 <= k < i ==> bitmap[k] == 1
      {
        bitmap[i] := 1;
        i := i + 1;
      }
      assert bitmap[..] == Spec.AllUsed();
      var k := 0;
      while k < |ds|
        invariant 0 <= k <= |ds| && heapStartPage == old(heapStartPage)
        invariant bitmap[..] == Spec.MarkUsable(Spec.AllUsed(), ds[..k])
      {
        assert ds[..k + 1][..k] == ds[..k];
        if Spec.Usable(ds[k].kind) {
          MarkPages(ds[k].start / Spec.PAGE_SIZE, ds[k].count, 0);
        }
        k := k + 1;
      }
      assert ds[..k] == ds;
      var start := CalcHeapStartPage();
      MarkPages(0, (start as int) + Spec.HEAP_PAGE_COUNT, 1);
    }

    /** The part of memory_init that concerns pages: the search starts over. */
    method ResetHint()
      requires Valid()
      modifies this`hint
      ensures Valid() && View() == old(View()).(hint := 0) && Spec.Inv(View())
    {
      hint := 0;
    }

    /** NULL, which is 0, when no page is free. */
    method AllocPage() returns (addr: nat)
      requires Valid()
      modifies this`hint, bitmap
      ensures Valid() && View() == Spec.AllocPage(old(View())).0
      ensures addr == match Spec.AllocPage(old(View())).1 { case None => 0 case Some(a) => a }
    {
      ghost var s := View();
      var offset := 0;
      while offset < Spec.MAX_PAGES
        invariant 0 <= offset <= Spec.MAX_PAGES && View() == s
        invariant Spec.Scan(s, 0) == Spec.Scan(s, offset)
      {
        var i := Spec.Position(hint, offset);
        if bitmap[i] == 0 {
          assert Spec.Scan(s, offset) == Some(i);
          bitmap[i] := 1;
          hint := Spec.Position(i, 1);
          return i * Spec.PAGE_SIZE;
        }
        offset := offset + 1;
      }
      addr := 0;
    }

    method FreePage(addr: u64)
      requires Valid()
      modifies this`hint, bitmap
      ensures Valid() && View() == Spec.FreePage(old(View()), addr)
    {
      if addr == 0 { return; }
      var i := addr / Spec.PAGE_SIZE;
      if i < Spec.MAX_PAGES {
        bitmap[i] := 0;
        if i < hint { hint := i; }
      }
    }

    /** Any sequence of calls on the real bitmap answers as the specification's run does. */
    method Serve(ops: seq<Spec.Call>) returns (addrs: seq<nat>)
      requires Valid()
      modifies this`hint, bitmap
      ensures Valid() && View() == Spec.Run(old(View()), ops).0 && |addrs| == |ops|
      ensures forall k :: 0 <= k < |ops| ==>
        addrs[k] == match Spec.Run(old(View()), ops).1[k] { case None => 0 case Some(a) => a }
      decreases |ops|
    {
      addrs := [];
      if ops != [] {
        var a := 0;
        if ops[0].Alloc? { a := AllocPage(); } else { FreePage(ops[0].addr); }
        var rest := Serve(ops[1..]);
        addrs := [a] + rest;
      }
    }
  }
}
