/** What krealloc keeps, and exactly when it breaks the search hint, the counters or coalescing. */
module HeapRealloc {
  import opened Bytes
  import opened HeapList
  import opened HeapSpec

  lemma ReallocKeepsTiling(s: State, lo: nat, hi: nat, p: nat, size: u32)
    requires lo > 0 && Tiled(s.blocks, lo, hi) && MayRealloc(s, p, size)
    ensures Tiled(Krealloc(s, lo, hi, p, size).0.blocks, lo, hi)
  {
    assert s.blocks != [];
    hide Tiled, Kmalloc, Kfree, Split, Merge, AlignUp, Find, OnList, Mult8, Wrap32;
    var n, i := AlignUp(size), Find(s.blocks, p - HEADER, 0);
    if p == 0 { MallocTiled(s, lo, hi, size); }
    else if size == 0 { FreeTiled(s, lo, hi, p); }
    else if i < 0 || s.blocks[i].free { }
    else if n <= s.blocks[i].size { SplitTiled(s.blocks, lo, hi, i, n); }
    else if GrowsInPlace(s.blocks, i, n) {
      MergeTiled(s.blocks, lo, hi, i);
      MergeShape(s.blocks, i);
      SplitTiled(Merge(s.blocks, i), lo, hi, i, n);
    } else {
      MallocTiled(s, lo, hi, n);
      FreeTiled(Kmalloc(s, n).0, lo, hi, p);
    }
  }

  lemma MallocTiled(s: State, lo: nat, hi: nat, size: u32)
    requires lo > 0 && Tiled(s.blocks, lo, hi) && MayMalloc(s, size)
    ensures Tiled(Kmalloc(s, size).0.blocks, lo, hi)
  {
    assert s.blocks != [];
    hide Tiled, Kmalloc, Mult8, Wrap32;
    MallocNull(s, lo, hi, size);
    if Kmalloc(s, size).1 != 0 { var i := MallocGives(s, lo, hi, size); }
  }

  lemma FreeTiled(s: State, lo: nat, hi: nat, p: nat)
    requires Tiled(s.blocks, lo, hi)
    ensures Tiled(Kfree(s, lo, hi, p).blocks, lo, hi)
  {
    var i := Freeable(s, lo, hi, p);
    if i >= 0 { ReleaseTiled(s.blocks, lo, hi, i); }
  }

  /** The hint stays on the list exactly unless it named the successor absorbed by in-place growth. */
  lemma ReallocHint(s: State, lo: nat, hi: nat, p: nat, size: u32)
    requires lo > 0 && Tiled(s.blocks, lo, hi) && OnList(s.blocks, s.hint)
    ensures var t := Krealloc(s, lo, hi, p, size).0;
      OnList(t.blocks, t.hint) <==>
        !(GrewInPlace(s, p, size) && s.hint == s.blocks[Find(s.blocks, p - HEADER, 0) + 1].addr)
  {
    assert s.blocks != [];
    hide Tiled, Kmalloc, Kfree, Split, Merge, AlignUp, Find, OnList, Mult8, Wrap32;
    var n, i := AlignUp(size), Find(s.blocks, p - HEADER, 0);
    var r := Krealloc(s, lo, hi, p, size);
    HintAfterMalloc(s, lo, hi, size);
    HintAfterFree(s, lo, hi, p);
    HintAfterMalloc(s, lo, hi, n);
    MallocTiled(s, lo, hi, n);
    HintAfterFree(Kmalloc(s, n).0, lo, hi, p);
    if p != 0 && size != 0 && i >= 0 && !s.blocks[i].free {
      if n <= s.blocks[i].size { SplitKeepsAddr(s.blocks, i, n, s.hint); }
      else if GrowsInPlace(s.blocks, i, n) { GrowAddrs(s.blocks, lo, hi, i, n, s.hint); }
    }
  }

  lemma SplitKeepsAddr(bs: seq<Block>, i: nat, n: nat, a: nat)
    requires i < |bs| && OnList(bs, a)
    ensures OnList(Split(bs, i, n), a)
  {
    hide Split;
    var k :| 0 <= k < |bs| && bs[k].addr == a;
    SplitShape(bs, i, n);
    var r := Split(bs, i, n);
    assert r[if k > i && Splits(bs[i], n) then k + 1 else k].addr == a;
  }

  lemma GrowAddrs(bs: seq<Block>, lo: nat, hi: nat, i: nat, n: nat, a: nat)
    requires Tiled(bs, lo, hi) && i < |bs| && GrowsInPlace(bs, i, n) && OnList(bs, a)
    ensures OnList(Grow(bs, i, n), a) <==> a != bs[i + 1].addr
  {
    hide Grow, Tiled, OnList;
    if a != bs[i + 1].addr { GrowKeepsAddr(bs, i, n, a); } else { GrowDropsAddr(bs, lo, hi, i, n); }
  }

  lemma GrowKeepsAddr(bs: seq<Block>, i: nat, n: nat, a: nat)
    requires i < |bs| && GrowsInPlace(bs, i, n) && OnList(bs, a) && a != bs[i + 1].addr
    ensures OnList(Grow(bs, i, n), a)
  {
    hide Split, Merge;
    var m := Merge(bs, i);
    MergeShape(bs, i);
    var k :| 0 <= k < |bs| && bs[k].addr == a;
    assert m[if k > i then k - 1 else k].addr == a;
    SplitKeepsAddr(m, i, n, a);
  }

  lemma GrowDropsAddr(bs: seq<Block>, lo: nat, hi: nat, i: nat, n: nat)
    requires Tiled(bs, lo, hi) && i < |bs| && GrowsInPlace(bs, i, n)
    ensures !OnList(Grow(bs, i, n), bs[i + 1].addr)
  {
    hide Split, Merge, Tiled, Mult8;
    var a, m, r := bs[i + 1].addr, Merge(bs, i), Grow(bs, i, n);
    MergeShape(bs, i);
    SplitShape(m, i, n);
    TiledIsLinked(bs, lo, hi);
    assert bs[i].End() == a;
    forall k | 0 <= k < |r| ensures r[k].addr != a {
      var shift := if Splits(m[i], n) then 1 else 0;
      if k < i { Ordered(bs, lo, hi, k, i); }
      else if k > i + shift { Ordered(bs, lo, hi, i + 1, k - shift + 1); }
    }
  }

  lemma HintAfterMalloc(s: State, lo: nat, hi: nat, size: u32)
    requires lo > 0 && Tiled(s.blocks, lo, hi) && OnList(s.blocks, s.hint)
    ensures OnList(Kmalloc(s, size).0.blocks, Kmalloc(s, size).0.hint)
  {
  }

  lemma HintAfterFree(s: State, lo: nat, hi: nat, p: nat)
    requires Tiled(s.blocks, lo, hi) && OnList(s.blocks, s.hint)
    ensures OnList(Kfree(s, lo, hi, p).blocks, Kfree(s, lo, hi, p).hint)
  {
    var i := Freeable(s, lo, hi, p);
    if i >= 0 {
      ReleaseShape(s.blocks, i);
      assert Release(s.blocks, i)[ReleasedAt(s.blocks, i)].addr == Kfree(s, lo, hi, p).hint;
    }
  }

  // ----- three states krealloc reaches right after boot, in a region of 4096 bytes -----

  const REGION: nat := 0x1000

  /** The state and pointer after the first kmalloc. */
  function FirstMalloc(lo: nat, size: u32): (r: (State, nat))
    requires lo > 0 && Mult8(lo)
  {
    Kmalloc(Boot(lo, lo + REGION), size)
  }

  lemma FirstMallocIs(lo: nat, size: u32)
    requires lo > 0 && Mult8(lo) && Mult8(size) && 0 < size <= 200
    ensures var (t, p) := FirstMalloc(lo, size);
      && p == lo + HEADER
      && t.blocks == [Block(lo, size, false), Block(lo + HEADER + size, REGION - 2 * HEADER - size, true)]
      && t.hint == lo + HEADER + size && Inv(t, lo, lo + REGION) && Find(t.blocks, lo, 0) == 0
  {
    var s := Boot(lo, lo + REGION);
    AlignUpExact(size);
    assert s.blocks == [Block(lo, REGION - HEADER, true)];
    MallocKeepsInv(s, lo, lo + REGION, size);
  }

  lemma FirstGrowth(lo: nat, n: u32)
    requires lo > 0 && Mult8(lo) && Mult8(n) && 16 <= n <= 200
    ensures var (t, p) := FirstMalloc(lo, 8); MayRealloc(t, p, n)
    ensures var (t, p) := FirstMalloc(lo, 8);
      var (u, q) := Krealloc(t, lo, lo + REGION, p, n);
      && GrewInPlace(t, p, n) && q == p && u.hint == t.hint
      && u.blocks == [Block(lo, n, false), Block(lo + HEADER + n, REGION - 2 * HEADER - n, true)]
  {
    FirstMallocIs(lo, 8);
    var (t, p) := FirstMalloc(lo, 8);
    AlignUpExact(n);
    assert Merge(t.blocks, 0) == [Block(lo, REGION - HEADER, false)];
    assert Grow(t.blocks, 0, n) == [Block(lo, n, false), Block(lo + HEADER + n, REGION - 2 * HEADER - n, true)];
  }

  /**
   * kmalloc leaves a remainder under the hint, so growing that very allocation leaves the hint dangling and the
   * counters wrong.
   */
  lemma GrowExample(lo: nat)
    requires lo > 0 && Mult8(lo)
    ensures var (t, p) := FirstMalloc(lo, 8);
      var u := Krealloc(t, lo, lo + REGION, p, 16).0;
      Inv(t, lo, lo + REGION) && !OnList(u.blocks, u.hint) && !Counted(u)
  {
    FirstMallocIs(lo, 8);
    FirstGrowth(lo, 16);
    ResizeCount(FirstMalloc(lo, 8).0, lo, lo + REGION, 0, 16);
    AlignUpExact(16);
  }

  /** The dangling hint does not stop the allocation from growing again: no search is made. */
  lemma GrowAgainExample(lo: nat)
    requires lo > 0 && Mult8(lo)
    ensures var (t, p) := FirstMalloc(lo, 8);
      var u := Krealloc(t, lo, lo + REGION, p, 16).0;
      && !OnList(u.blocks, u.hint) && MayRealloc(u, p, 24) && GrewInPlace(u, p, 24)
      && Krealloc(u, lo, lo + REGION, p, 24).1 == p
  {
    FirstMallocIs(lo, 8);
    FirstGrowth(lo, 16);
    AlignUpExact(24);
  }

  /** Shrinking the first allocation cuts off a free block next to the free rest of the heap. */
  lemma ShrinkExample(lo: nat)
    requires lo > 0 && Mult8(lo)
    ensures var (t, p) := FirstMalloc(lo, 200);
      var u := Krealloc(t, lo, lo + REGION, p, 8).0;
      Inv(t, lo, lo + REGION) && !Coalesced(u.blocks) && !Counted(u)
  {
    FirstMallocIs(lo, 200);
    var (t, p) := FirstMalloc(lo, 200);
    AlignUpExact(8);
    ShrinkCoalesced(t.blocks, 0, 8);
    ResizeCount(t, lo, lo + REGION, 0, 8);
  }

  /** A size that wraps is granted in place: the block is empty and a new header stands where its bytes were. */
  lemma WrappedReallocExample(lo: nat)
    requires lo > 0 && Mult8(lo)
    ensures var (t, p) := FirstMalloc(lo, 200);
      var (u, q) := Krealloc(t, lo, lo + REGION, p, 0xFFFF_FFFF);
      q == p && |u.blocks| == 3 && u.blocks[0] == Block(lo, 0, false) && u.blocks[1].addr == p && u.blocks[1].free
  {
    FirstMallocIs(lo, 200);
    assert AlignUp(0xFFFF_FFFF) == 0;
  }

  // ----- what the caller gets -----

  lemma SplitUsed(bs: seq<Block>, lo: nat, hi: nat, i: nat, n: nat)
    requires Tiled(bs, lo, hi) && i < |bs| && !bs[i].free
    ensures i < |Split(bs, i, n)| && UsedSet(Split(bs, i, n)) == UsedSet(bs) - {bs[i]} + {Split(bs, i, n)[i]}
  {
    var r := Split(bs, i, n);
    SplitShape(bs, i, n);
    hide Split, Tiled;
    if !Splits(bs[i], n) { assert bs[i] in UsedSet(bs); return; }
    forall b | b in UsedSet(bs) && b != bs[i] ensures b in UsedSet(r) {
      var k :| 0 <= k < |bs| && bs[k] == b;
      assert r[if k < i then k else k + 1] == b;
    }
    forall c | c in UsedSet(r) && c != r[i] ensures c in UsedSet(bs) && c != bs[i] {
      var k :| 0 <= k < |r| && r[k] == c;
      var o := if k < i then k else k - 1;
      assert bs[o] == c;
      if o < i { Ordered(bs, lo, hi, o, i); } else { Ordered(bs, lo, hi, i, o); }
    }
  }

  lemma MergeUsed(bs: seq<Block>, lo: nat, hi: nat, i: nat)
    requires Tiled(bs, lo, hi) && i + 1 < |bs| && !bs[i].free && bs[i + 1].free
    ensures UsedSet(Merge(bs, i)) == UsedSet(bs) - {bs[i]} + {Merge(bs, i)[i]}
  {
    var r := Merge(bs, i);
    MergeShape(bs, i);
    hide Merge, Tiled;
    forall b | b in UsedSet(bs) && b != bs[i] ensures b in UsedSet(r) {
      var k :| 0 <= k < |bs| && bs[k] == b;
      assert r[if k < i then k else k - 1] == b;
    }
    forall c | c in UsedSet(r) && c != r[i] ensures c in UsedSet(bs) && c != bs[i] {
      var k :| 0 <= k < |r| && r[k] == c;
      var o := if k < i then k else k + 1;
      assert bs[o] == c;
      if o < i { Ordered(bs, lo, hi, o, i); } else { Ordered(bs, lo, hi, i, o); }
    }
  }

  lemma GrowUsed(bs: seq<Block>, lo: nat, hi: nat, i: nat, n: nat)
    requires Tiled(bs, lo, hi) && i < |bs| && !bs[i].free && GrowsInPlace(bs, i, n)
    ensures var r := Grow(bs, i, n);
      && i < |r| && r[i].addr == bs[i].addr && r[i].size >= n && !r[i].free
      && UsedSet(r) == UsedSet(bs) - {bs[i]} + {r[i]}
  {
    var m := Merge(bs, i);
    MergeShape(bs, i);
    MergeUsed(bs, lo, hi, i);
    MergeTiled(bs, lo, hi, i);
    SplitShape(m, i, n);
    SplitUsed(m, lo, hi, i, n);
    hide Merge, Split, Tiled, UsedSet;
    var r := Split(m, i, n);
    assert m[i] !in UsedSet(bs) - {bs[i]} by { UsedAddrs(bs, lo, hi, i, m[i]); }
  }

  lemma UsedApart(bs: seq<Block>, lo: nat, hi: nat, i: nat)
    requires Tiled(bs, lo, hi) && i < |bs| && !bs[i].free
    ensures bs[i] in UsedSet(bs) && forall b :: b in UsedSet(bs) - {bs[i]} ==> b.addr != bs[i].addr
  {
    AllOrdered(bs, lo, hi);
  }

  lemma UsedAddrs(bs: seq<Block>, lo: nat, hi: nat, i: nat, c: Block)
    requires Tiled(bs, lo, hi) && i < |bs| && c.addr == bs[i].addr
    ensures c !in UsedSet(bs) - {bs[i]}
  {
    AllOrdered(bs, lo, hi);
  }

  /**
   * A successful krealloc of p leaves exactly one more block in use, at the returned address and at
   * least as large as the aligned request, in place of the old one; all other blocks in use stay.
   */
  lemma ReallocGives(s: State, lo: nat, hi: nat, p: nat, size: u32) returns (b: Block, c: Block)
    requires lo > 0 && Tiled(s.blocks, lo, hi) && EndsInSpace(s.blocks) && MayRealloc(s, p, size)
    requires p != 0 && Krealloc(s, lo, hi, p, size).1 != 0
    ensures var (t, q) := Krealloc(s, lo, hi, p, size);
      && b in UsedSet(s.blocks) && b.Payload() == p
      && c.Payload() == q && AlignUp(size) <= c.size
      && UsedSet(t.blocks) == UsedSet(s.blocks) - {b} + {c}
      && (AlignUp(size) == 0 ==> c.size == KeptBytes(b.size, 0))
    ensures forall a :: a in UsedSet(s.blocks) - {b} ==> a.addr != b.addr && a.addr != c.addr
  {
    assert s.blocks != [];
    var n, i := AlignUp(size), Find(s.blocks, p - HEADER, 0);
    b := s.blocks[i];
    UsedApart(s.blocks, lo, hi, i);
    hide Tiled, Kmalloc, Kfree, Split, Merge, Find, OnList, UsedSet, AlignUp;
    if n <= b.size {
      SplitShape(s.blocks, i, n);
      SplitUsed(s.blocks, lo, hi, i, n);
      c := Split(s.blocks, i, n)[i];
    } else if GrowsInPlace(s.blocks, i, n) {
      GrowUsed(s.blocks, lo, hi, i, n);
      c := Grow(s.blocks, i, n)[i];
    } else {
      AlignUpExact(n);
      c := MoveGives(s, lo, hi, p, n, b);
    }
  }

  /**
   * The returned block has room for the size asked for exactly when that size does not wrap when rounded up. It
   * still has room for the first bytes of the old block, as many as fit the new size, exactly when the size does
   * not wrap or the old block was too small to be split.
   */
  lemma ReallocRoom(s: State, lo: nat, hi: nat, p: nat, size: u32) returns (b: Block, c: Block)
    requires Sound(s, lo, hi) && MayRealloc(s, p, size) && p != 0 && Krealloc(s, lo, hi, p, size).1 != 0
    ensures var (t, q) := Krealloc(s, lo, hi, p, size);
      && b in UsedSet(s.blocks) && b.Payload() == p && c in UsedSet(t.blocks) && c.Payload() == q
      && (size <= c.size <==> size <= 0xFFFF_FFF8)
      && (Min(b.size, size) <= c.size <==> KeepsBytes(b.size, size))
  {
    assert s.blocks != [];
    hide Tiled, Krealloc, MayRealloc, UsedSet, Mult8, Wrap32;
    b, c := ReallocGives(s, lo, hi, p, size);
    ReallocKeepsTiling(s, lo, hi, p, size);
    UsedFits(s.blocks, lo, hi, b);
    UsedFits(Krealloc(s, lo, hi, p, size).0.blocks, lo, hi, c);
  }

  lemma UsedFits(bs: seq<Block>, lo: nat, hi: nat, b: Block)
    requires Tiled(bs, lo, hi) && b in UsedSet(bs)
    ensures lo + HEADER + b.size <= hi
  {
    var i :| 0 <= i < |bs| && bs[i] == b;
    Inside(bs, lo, hi, i);
  }

  lemma MoveGives(s: State, lo: nat, hi: nat, p: nat, n: u32, b: Block) returns (c: Block)
    requires lo > 0 && Tiled(s.blocks, lo, hi) && EndsInSpace(s.blocks) && HintOk(s.blocks, s.hint)
    requires b in UsedSet(s.blocks) && b.Payload() == p && Kmalloc(s, n).1 != 0
    ensures var (t, q) := Kmalloc(s, n);
      && c.Payload() == q && AlignUp(n) <= c.size
      && UsedSet(Kfree(t, lo, hi, p).blocks) == UsedSet(s.blocks) - {b} + {c}
    ensures forall a :: a in UsedSet(s.blocks) ==> a.addr != c.addr
  {
    assert s.blocks != [];
    var t := Kmalloc(s, n).0;
    TailAfterMalloc(s, n);
    hide Tiled, Kmalloc, Release, UsedSet, AlignUp, Find;
    var j := MallocGives(s, lo, hi, n);
    c := t.blocks[j];
    UsedIsFreeable(t, lo, hi, b);
    var i := Freeable(t, lo, hi, p);
    ReleaseEffect(t.blocks, lo, hi, i);
  }

  lemma TailAfterMalloc(s: State, n: u32)
    requires EndsInSpace(s.blocks) && MayMalloc(s, n)
    ensures EndsInSpace(Kmalloc(s, n).0.blocks)
  {
  }

  lemma SplitKeepsTail(bs: seq<Block>, i: nat, n: nat)
    requires i < |bs| && EndsInSpace(bs)
    ensures EndsInSpace(Split(bs, i, n))
  {
  }

  lemma GrowKeepsTail(bs: seq<Block>, i: nat, n: nat)
    requires i + 1 < |bs| && EndsInSpace(bs)
    ensures EndsInSpace(Grow(bs, i, n))
  {
    MergeShape(bs, i);
    var cs := Merge(bs, i);
    assert EndsInSpace(cs);
    hide Merge, Split;
    SplitKeepsTail(cs, i, n);
  }

  lemma FreeKeepsTail(s: State, lo: nat, hi: nat, p: nat)
    requires EndsInSpace(s.blocks)
    ensures EndsInSpace(Kfree(s, lo, hi, p).blocks)
  {
    var i := Freeable(s, lo, hi, p);
    if i >= 0 { ReleaseKeepsTail(s.blocks, i); }
  }

  lemma ReallocKeepsTail(s: State, lo: nat, hi: nat, p: nat, size: u32)
    requires MayRealloc(s, p, size) && EndsInSpace(s.blocks)
    ensures EndsInSpace(Krealloc(s, lo, hi, p, size).0.blocks)
  {
    var n, i := AlignUp(size), Find(s.blocks, p - HEADER, 0);
    hide Kmalloc, Kfree, Split, Grow, AlignUp, Find, EndsInSpace, HintOk, Mult8, Wrap32;
    if p == 0 { TailAfterMalloc(s, size); }
    else if size == 0 { FreeKeepsTail(s, lo, hi, p); }
    else if i < 0 || s.blocks[i].free { }
    else if n <= s.blocks[i].size { SplitKeepsTail(s.blocks, i, n); }
    else if GrowsInPlace(s.blocks, i, n) { GrowKeepsTail(s.blocks, i, n); }
    else {
      TailAfterMalloc(s, n);
      FreeKeepsTail(Kmalloc(s, n).0, lo, hi, p);
    }
  }

  /** krealloc keeps the list sound on every path, whatever becomes of hint, counters and coalescing. */
  lemma ReallocKeepsSound(s: State, lo: nat, hi: nat, p: nat, size: u32)
    requires Sound(s, lo, hi) && MayRealloc(s, p, size)
    ensures Sound(Krealloc(s, lo, hi, p, size).0, lo, hi)
  {
    hide Krealloc, Tiled, EndsInSpace, MayRealloc, Mult8;
    ReallocKeepsTiling(s, lo, hi, p, size);
    ReallocKeepsTail(s, lo, hi, p, size);
  }

  /** A krealloc that fails to resize leaves the list alone. */
  lemma ReallocNull(s: State, lo: nat, hi: nat, p: nat, size: u32)
    requires Sound(s, lo, hi) && MayRealloc(s, p, size)
    requires p != 0 && size != 0 && Krealloc(s, lo, hi, p, size).1 == 0
    ensures Krealloc(s, lo, hi, p, size).0.blocks == s.blocks
  {
    var n, i := AlignUp(size), Find(s.blocks, p - HEADER, 0);
    hide Kmalloc, Kfree, Split, Grow, AlignUp, Find, Tiled, EndsInSpace, HintOk, Mult8, Wrap32;
    if i >= 0 && !s.blocks[i].free && n > s.blocks[i].size && !GrowsInPlace(s.blocks, i, n) {
      MallocNull(s, lo, hi, n);
    }
  }

  // ----- counters and coalescing -----

  /** Resizing block i in place bypasses the counters: they stay exact only if the size did not change. */
  lemma ResizeCount(s: State, lo: nat, hi: nat, i: nat, n: nat)
    requires Tiled(s.blocks, lo, hi) && hi - lo < TWO32 && Counted(s) && i < |s.blocks| && !s.blocks[i].free && Mult8(n)
    ensures Counted(s.(blocks := Split(s.blocks, i, n))) <==> !(Splits(s.blocks[i], n))
    ensures GrowsInPlace(s.blocks, i, n) ==> !Counted(s.(blocks := Grow(s.blocks, i, n)))
  {
    var bs := s.blocks;
    SplitShape(bs, i, n);
    SplitUsedSum(bs, i, n);
    if GrowsInPlace(bs, i, n) {
      MergeShape(bs, i);
      MergeUsedSum(bs, i);
      SplitShape(Merge(bs, i), i, n);
      SplitUsedSum(Merge(bs, i), i, n);
    }
  }

  /** krealloc cut a block in place or grew it over its successor. */
  predicate ResizedInPlace(s: State, p: nat, size: u32)
  {
    var n, i := AlignUp(size), Find(s.blocks, p - HEADER, 0);
    p != 0 && size != 0 && i >= 0 && !s.blocks[i].free && (Splits(s.blocks[i], n) || GrowsInPlace(s.blocks, i, n))
  }

  /** krealloc keeps the heap invariant exactly when it did not change a block's size in place. */
  lemma ReallocKeepsInv(s: State, lo: nat, hi: nat, p: nat, size: u32)
    requires Inv(s, lo, hi)
    ensures Inv(Krealloc(s, lo, hi, p, size).0, lo, hi) <==> !ResizedInPlace(s, p, size)
  {
    assert s.blocks != [] && HintOk(s.blocks, s.hint);
    var n, i := AlignUp(size), Find(s.blocks, p - HEADER, 0);
    hide Inv, Kmalloc, Kfree, Find, AlignUp, Resize;
    if p == 0 {
      MallocKeepsInv(s, lo, hi, size);
    } else if size == 0 {
      FreeKeepsInv(s, lo, hi, p);
    } else if i >= 0 && !s.blocks[i].free {
      ResizeKeepsInv(s, lo, hi, p, i, n);
    }
  }

  lemma ResizeKeepsInv(s: State, lo: nat, hi: nat, p: nat, i: nat, n: u32)
    requires Inv(s, lo, hi) && i < |s.blocks| && !s.blocks[i].free && Mult8(n)
    ensures Inv(Resize(s, lo, hi, p, i, n).0, lo, hi) <==> !(Splits(s.blocks[i], n) || GrowsInPlace(s.blocks, i, n))
  {
    ResizeCount(s, lo, hi, i, n);
    hide Tiled, Coalesced, OnList, Kmalloc, Kfree, Merge, Counted, EndsInSpace, Mult8, Wrap32;
    if n > s.blocks[i].size && !GrowsInPlace(s.blocks, i, n) {
      MallocKeepsInv(s, lo, hi, n);
      FreeKeepsInv(Kmalloc(s, n).0, lo, hi, p);
    }
  }

  /** Shrinking leaves two free neighbours exactly when it splits next to a free block. */
  lemma ShrinkCoalesced(bs: seq<Block>, i: nat, n: nat)
    requires Coalesced(bs) && i < |bs| && !bs[i].free
    ensures Coalesced(Split(bs, i, n)) <==> !(Splits(bs[i], n) && FreeAt(bs, i + 1))
  {
    var r := Split(bs, i, n);
    SplitShape(bs, i, n);
    hide Split;
    if Splits(bs[i], n) {
      if i + 1 < |bs| { assert r[i + 2] == bs[i + 1]; }
      if !FreeAt(bs, i + 1) {
        forall k, l | 0 <= k < l < |r| && l == k + 1 ensures !(r[k].free && r[l].free) {
          if l < i { assert !(bs[k].free && bs[l].free); }
          else if k > i + 1 { assert !(bs[k - 1].free && bs[l - 1].free); }
        }
      }
    }
  }

  lemma GrowCoalesced(bs: seq<Block>, i: nat, n: nat)
    requires Coalesced(bs) && i < |bs| && !bs[i].free && GrowsInPlace(bs, i, n)
    ensures Coalesced(Grow(bs, i, n))
  {
  }
}
