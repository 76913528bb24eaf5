/** The page tables as the kernel keeps them: static arrays filled in place. */
module PageTables {
  import opened Bytes
  import Spec = PagingSpec

  method Clear(a: array<u64>)
    modifies a
    ensures forall i :: 0 <= i < a.Length ==> a[i] == 0
  {
    var i := 0;
    while i < a.Length
      invariant 0 <= i <= a.Length && forall k :: 0 <= k < i ==> a[k] == 0
    {
      a[i] := 0;
      i := i + 1;
    }
  }

  class PageTables {
    const layout: Spec.Layout
    const pml4: array<u64>
    const pdpt: array<u64>
    const pd: array<u64>
    const mmioBase: array<u64>
    var used: nat

    ghost predicate Valid()
      reads this
    {
      && Spec.WfLayout(layout) && pml4.Length == 512 && pdpt.Length == 512 && pd.Length == Spec.PD_ENTRIES
      && mmioBase.Length == Spec.WINDOW_SLOTS && used <= Spec.WINDOW_SLOTS
      && pml4 != pdpt && pml4 != pd && pml4 != mmioBase && pdpt != pd && pdpt != mmioBase && pd != mmioBase
    }

    ghost function View(): (t: Spec.Tables)
      requires Valid()
      reads this, pml4, pdpt, pd, mmioBase
      ensures Spec.Sized(t)
    {
      Spec.Tables(pml4[..], pdpt[..], pd[..], mmioBase[..used])
    }

    constructor (l: Spec.Layout)
      requires Spec.WfLayout(l)
      ensures Valid() && layout == l && used == 0 && fresh(pml4) && fresh(pdpt) && fresh(pd) && fresh(mmioBase)
    {
      layout := l;
      pml4 := new u64[512](_ => 0);
      pdpt := new u64[512](_ => 0);
      pd := new u64[Spec.PD_ENTRIES](_ => 0);
      mmioBase := new u64[Spec.WINDOW_SLOTS](_ => 0);
      used := 0;
    }

    method InitPaging(fbBase: u64, fbSize: u32)
      requires Valid()
      modifies this`used, pml4, pdpt, pd, mmioBase
      ensures Valid() && View() == Spec.Init(layout, Spec.RequiredEntries(fbBase, fbSize))
    {
      Clear(pml4);
      Clear(pdpt);
      Clear(pd);
      Clear(mmioBase);
      used := 0;
      var n := Spec.RequiredEntries(fbBase, fbSize);
      pml4[0] := Spec.TableEntry(layout.pdpt);
      Identity(n);
      assert pml4[..] == Spec.Init(layout, n).pml4;
      assert pdpt[..] == Spec.Init(layout, n).pdpt;
      assert pd[..] == Spec.Init(layout, n).pd;
    }

    /** The first n gigabytes, as 2 MB pages. */
    method Identity(n: nat)
      requires Valid() && n <= Spec.MAX_PDPT_ENTRIES
      requires forall i :: 0 <= i < 512 ==> pdpt[i] == 0
      requires forall k :: 0 <= k < Spec.PD_ENTRIES ==> pd[k] == 0
      modifies pdpt, pd
      ensures forall i :: 0 <= i < 512 ==> pdpt[i] == if i < n then Spec.TableEntry(layout.pd + 4096 * i) else 0
      ensures forall k :: 0 <= k < Spec.PD_ENTRIES ==> pd[k] == if k < 512 * n then Spec.PageEntry(k * Spec.MB2) else 0
    {
      var i := 0;
      while i < n
        invariant 0 <= i <= n
        invariant forall m :: 0 <= m < 512 ==> pdpt[m] == if m < i then Spec.TableEntry(layout.pd + 4096 * m) else 0
        invariant forall k :: 0 <= k < Spec.PD_ENTRIES ==>
          pd[k] == if k < 512 * i then Spec.PageEntry(k * Spec.MB2) else 0
      {
        pdpt[i] := Spec.TableEntry(layout.pd + 4096 * i);
        var base := i * Spec.GB;
        var j := 0;
        while j < 512
          invariant 0 <= j <= 512
          invariant forall m :: 0 <= m < 512 ==> pdpt[m] == if m <= i then Spec.TableEntry(layout.pd + 4096 * m) else 0
          invariant forall k :: 0 <= k < Spec.PD_ENTRIES ==>
            pd[k] == if k < 512 * i + j then Spec.PageEntry(k * Spec.MB2) else 0
        {
          pd[512 * i + j] := Spec.PageEntry(base + j * Spec.MB2);
          j := j + 1;
        }
        i := i + 1;
      }
    }

    /** The window address for a physical address at or above 4 GB, or 0 when the window is full. */
    method MapMmioVirt(p: u64) returns (v: nat)
      requires Valid()
      modifies this`used, pdpt, pd, mmioBase
      ensures Valid() && View() == Spec.MapMmio(layout, old(View()), p).0 && v == Spec.MapMmio(layout, old(View()), p).1
    {
      if p < 4 * Spec.GB { return p; }
      ghost var t := View();
      var base := Spec.FrameOf(p);
      var i := 0;
      while i < used
        invariant 0 <= i <= used && View() == t && used == old(used)
        invariant Spec.FindSlot(t.slots, base, 0) == Spec.FindSlot(t.slots, base, i)
      {
        if mmioBase[i] == base {
          assert t.slots[i] == base;
          return Spec.WindowAddr(i, p);
        }
        i := i + 1;
      }
      if used >= Spec.WINDOW_SLOTS { return 0; }
      var virtBase := Spec.WINDOW_BASE + used * Spec.MB2;
      var pdptIndex, pdIndex := virtBase / Spec.GB % 512, virtBase / Spec.MB2 % 512;
      assert pdptIndex == 3 && pdIndex == 384 + used;
      pdpt[pdptIndex] := Spec.TableEntry(layout.pd + 4096 * pdptIndex);
      pd[512 * pdptIndex + pdIndex] := Spec.PageEntry(base);
      mmioBase[used] := base;
      used := used + 1;
      assert mmioBase[..used] == t.slots + [base];
      return virtBase + (p - base);
    }
  }
}
