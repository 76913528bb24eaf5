/**
 * The kernel heap as a list of blocks: splitting, merging, releasing and the next-fit scan,
 * with the shape of the list and the sums over it.
 */
module HeapList {
  import opened Bytes

  const HEADER: nat := 16
  const MIN_SPLIT: nat := 64

  datatype Block = Block(addr: nat, size: nat, free: bool) {
    function Payload(): nat { addr + HEADER }
    function End(): nat { addr + HEADER + size }
  }

  // ----- shape -----

  /** The blocks cover [lo, hi) exactly, one after the other, and every size is a multiple of 8. */
  ghost predicate Tiled(bs: seq<Block>, lo: nat, hi: nat)
  {
    && |bs| > 0 && bs[0].addr == lo && Mult8(bs[0].size)
    && if |bs| == 1 then bs[0].End() == hi else Tiled(bs[1..], bs[0].End(), hi)
  }

  /** The same, index by index. */
  ghost predicate Linked(bs: seq<Block>, lo: nat, hi: nat)
  {
    && |bs| > 0
    && bs[0].addr == lo
    && bs[|bs| - 1].End() == hi
    && (forall i :: 0 <= i < |bs| ==> Mult8(bs[i].size))
    && (forall i, j :: 0 <= i < j < |bs| && j == i + 1 ==> bs[i].End() == bs[j].addr)
  }

  lemma {:induction false} TiledIsLinked(bs: seq<Block>, lo: nat, hi: nat)
    ensures Tiled(bs, lo, hi) <==> Linked(bs, lo, hi)
  {
    if |bs| > 1 {
      var t, mid := bs[1..], bs[0].End();
      TiledIsLinked(t, mid, hi);
      if Linked(bs, lo, hi) {
        assert bs[0].End() == bs[1].addr;
        forall i, j | 0 <= i < j < |t| && j == i + 1
          ensures t[i].End() == t[j].addr
        {
          assert bs[i + 1].End() == bs[j + 1].addr;
        }
        assert Linked(t, mid, hi);
      }
      if Tiled(bs, lo, hi) {
        forall i, j | 0 <= i < j < |bs| && j == i + 1 ensures bs[i].End() == bs[j].addr {
          if i > 0 { assert t[i - 1].End() == t[j - 1].addr; }
        }
        forall i | 0 <= i < |bs| ensures Mult8(bs[i].size) { if i > 0 { assert Mult8(t[i - 1].size); } }
      }
    }
  }

  /** No two neighbours are both free. */
  ghost predicate Coalesced(bs: seq<Block>)
  {
    forall i, j :: 0 <= i < j < |bs| && j == i + 1 ==> !(bs[i].free && bs[j].free)
  }

  ghost predicate OnList(bs: seq<Block>, a: nat)
  {
    exists i :: 0 <= i < |bs| && bs[i].addr == a
  }

  /** Earlier blocks end before later ones start, so the list has no cycle and payloads are disjoint. */
  lemma {:induction false} Ordered(bs: seq<Block>, lo: nat, hi: nat, i: nat, j: nat)
    requires Tiled(bs, lo, hi)
    requires i < j < |bs|
    ensures bs[i].End() <= bs[j].addr
    decreases j
  {
    TiledIsLinked(bs, lo, hi);
    if i < j - 1 {
      Ordered(bs, lo, hi, i, j - 1);
      assert bs[j - 1].End() == bs[j].addr;
    }
  }

  lemma {:induction false} Inside(bs: seq<Block>, lo: nat, hi: nat, i: nat)
    requires Tiled(bs, lo, hi)
    requires i < |bs|
    ensures lo <= bs[i].addr && bs[i].End() <= hi
    ensures Mult8(lo) ==> Mult8(bs[i].Payload())
    ensures Mult8(bs[i].size)
  {
    TiledIsLinked(bs, lo, hi);
    if i > 0 { Ordered(bs, lo, hi, 0, i); }
    if i < |bs| - 1 { Ordered(bs, lo, hi, i, |bs| - 1); }
    if Mult8(lo) { Aligned(bs, lo, hi, i); }
  }

  lemma {:induction false} Aligned(bs: seq<Block>, lo: nat, hi: nat, i: nat)
    requires Tiled(bs, lo, hi)
    requires Mult8(lo) && i < |bs|
    ensures Mult8(bs[i].addr)
  {
    TiledIsLinked(bs, lo, hi);
    hide Tiled, Mult8;
    if i > 0 {
      Aligned(bs, lo, hi, i - 1);
      assert bs[i - 1].End() == bs[i].addr;
      Mult8Sum(bs[i - 1].addr, bs[i - 1].size);
    }
  }

  lemma AllOrdered(bs: seq<Block>, lo: nat, hi: nat)
    requires Tiled(bs, lo, hi)
    ensures forall i, j :: 0 <= i < j < |bs| ==> bs[i].End() <= bs[j].addr
    ensures forall i :: 0 <= i < |bs| ==> lo <= bs[i].addr && bs[i].End() <= hi
  {
  }

  /** The blocks in use. */
  ghost function UsedSet(bs: seq<Block>): set<Block> { set b | b in bs && !b.free }

  // ----- list operations -----

  predicate Splits(b: Block, size: nat) { b.size >= size + HEADER + MIN_SPLIT }

  function Split(bs: seq<Block>, i: nat, size: nat): (r: seq<Block>)
    requires i < |bs|
  {
    var b := bs[i];
    if Splits(b, size)
    then bs[..i]
         + [Block(b.addr, size, b.free), Block(b.addr + HEADER + size, b.size - size - HEADER, true)]
         + bs[i + 1..]
    else bs
  }

  /** Block i absorbs its successor. */
  function Merge(bs: seq<Block>, i: nat): (r: seq<Block>)
    requires i + 1 < |bs|
  {
    bs[..i] + [Block(bs[i].addr, bs[i].size + HEADER + bs[i + 1].size, bs[i].free)] + bs[i + 2..]
  }

  function SetFree(bs: seq<Block>, i: nat, free: bool): (r: seq<Block>)
    requires i < |bs|
  {
    bs[i := bs[i].(free := free)]
  }

  function Alloc(bs: seq<Block>, i: nat, size: nat): (r: seq<Block>)
    requires i < |bs|
  {
    SetFree(Split(bs, i, size), i, false)
  }

  predicate FreeAt(bs: seq<Block>, i: int) { 0 <= i < |bs| && bs[i].free }

  function MergeIfFree(bs: seq<Block>, i: nat): (r: seq<Block>)
    requires i < |bs|
  {
    if FreeAt(bs, i + 1) then Merge(bs, i) else bs
  }

  /** Free block i, absorb a free successor, then let a free predecessor absorb the result. */
  function Release(bs: seq<Block>, i: nat): (r: seq<Block>)
    requires i < |bs|
  {
    var freed := MergeIfFree(SetFree(bs, i, true), i);
    if FreeAt(bs, i - 1) then Merge(freed, i - 1) else freed
  }

  /** Index of the block that holds the released space. */
  function ReleasedAt(bs: seq<Block>, i: nat): nat
    requires i < |bs|
  {
    if FreeAt(bs, i - 1) then i - 1 else i
  }

  function Gone(bs: seq<Block>, i: nat): nat
    requires i < |bs|
  {
    (if FreeAt(bs, i - 1) then 1 else 0) + (if FreeAt(bs, i + 1) then 1 else 0)
  }

  /** Release in one piece: the blocks around the released space are those of the old list. */
  lemma ReleaseShape(bs: seq<Block>, i: nat)
    requires i < |bs|
    ensures var r, j := Release(bs, i), ReleasedAt(bs, i);
      && |r| == |bs| - Gone(bs, i)
      && r[j].addr == bs[j].addr && r[j].free
      && r[j].size >= bs[i].size + Gone(bs, i) * HEADER
      && r[..j] == bs[..j]
      && r[j + 1..] == bs[j + 1 + Gone(bs, i)..]
  {
    var marked := SetFree(bs, i, true);
    var m := MergeIfFree(marked, i);
    var g := if FreeAt(bs, i + 1) then 1 else 0;
    assert m[..i] == bs[..i] && m[i + 1..] == bs[i + 1 + g..];
    if FreeAt(bs, i - 1) {
      var r := Merge(m, i - 1);
      assert r[..i - 1] == m[..i - 1] == bs[..i - 1];
      assert r[i..] == m[i + 1..];
    }
  }

  lemma SplitShape(bs: seq<Block>, i: nat, size: nat)
    requires i < |bs|
    ensures !Splits(bs[i], size) ==> Split(bs, i, size) == bs
    ensures Splits(bs[i], size) ==> var r := Split(bs, i, size);
      && |r| == |bs| + 1
      && r[i] == Block(bs[i].addr, size, bs[i].free)
      && r[i + 1] == Block(bs[i].addr + HEADER + size, bs[i].size - size - HEADER, true)
      && (forall k :: 0 <= k < i ==> r[k] == bs[k])
      && (forall k :: i + 1 < k < |r| ==> r[k] == bs[k - 1])
  {
  }

  lemma MergeShape(bs: seq<Block>, i: nat)
    requires i + 1 < |bs|
    ensures var r := Merge(bs, i);
      && |r| == |bs| - 1
      && r[i] == Block(bs[i].addr, bs[i].size + HEADER + bs[i + 1].size, bs[i].free)
      && (forall k :: 0 <= k < i ==> r[k] == bs[k])
      && (forall k :: i < k < |r| ==> r[k] == bs[k + 1])
  {
  }

  lemma MergeUndoesSplit(bs: seq<Block>, i: nat, size: nat)
    requires i < |bs| && Splits(bs[i], size)
    ensures Merge(Split(bs, i, size), i) == bs
  {
  }

  lemma SplitTiled(bs: seq<Block>, lo: nat, hi: nat, i: nat, size: nat)
    requires Tiled(bs, lo, hi) && i < |bs| && Mult8(size)
    ensures Tiled(Split(bs, i, size), lo, hi)
  {
    hide Split, Tiled, Mult8;
    var r := Split(bs, i, size);
    SplitShape(bs, i, size);
    TiledIsLinked(bs, lo, hi);
    if Splits(bs[i], size) {
      Mult8Sum(bs[i].size, size);
      assert bs[i].size - HEADER - size == r[i + 1].size;
      forall k, l | 0 <= k < l < |r| && l == k + 1 ensures r[k].End() == r[l].addr {
        if k < i { assert bs[k].End() == bs[l].addr; }
        else if k > i { assert bs[k - 1].End() == bs[l - 1].addr; }
      }
      TiledIsLinked(r, lo, hi);
    }
  }

  lemma MergeTiled(bs: seq<Block>, lo: nat, hi: nat, i: nat)
    requires Tiled(bs, lo, hi) && i + 1 < |bs|
    ensures Tiled(Merge(bs, i), lo, hi)
  {
    hide Merge, Tiled, Mult8;
    var r := Merge(bs, i);
    MergeShape(bs, i);
    TiledIsLinked(bs, lo, hi);
    Mult8Sum(bs[i].size, bs[i + 1].size);
    assert bs[i].End() == bs[i + 1].addr;
    forall k, l | 0 <= k < l < |r| && l == k + 1 ensures r[k].End() == r[l].addr {
      assert bs[if k < i then k else k + 1].End() == bs[if k < i then k + 1 else k + 2].addr;
    }
    TiledIsLinked(r, lo, hi);
  }

  lemma Mult8Sum(x: int, y: int)
    requires Mult8(x) && Mult8(y)
    ensures Mult8(x + HEADER + y) && Mult8(x - HEADER - y)
  {
  }

  lemma SetFreeTiled(bs: seq<Block>, lo: nat, hi: nat, i: nat, free: bool)
    requires Tiled(bs, lo, hi) && i < |bs|
    ensures Tiled(SetFree(bs, i, free), lo, hi)
  {
    var r := SetFree(bs, i, free);
    TiledIsLinked(bs, lo, hi);
    TiledIsLinked(r, lo, hi);
  }

  lemma AllocTiled(bs: seq<Block>, lo: nat, hi: nat, i: nat, size: nat)
    requires Tiled(bs, lo, hi) && i < |bs| && Mult8(size)
    ensures Tiled(Alloc(bs, i, size), lo, hi)
  {
    SplitTiled(bs, lo, hi, i, size);
    SetFreeTiled(Split(bs, i, size), lo, hi, i, false);
  }

  lemma ReleaseTiled(bs: seq<Block>, lo: nat, hi: nat, i: nat)
    requires Tiled(bs, lo, hi) && i < |bs|
    ensures Tiled(Release(bs, i), lo, hi)
  {
    var marked := SetFree(bs, i, true);
    SetFreeTiled(bs, lo, hi, i, true);
    if FreeAt(marked, i + 1) { MergeTiled(marked, lo, hi, i); }
    if FreeAt(bs, i - 1) { MergeTiled(MergeIfFree(marked, i), lo, hi, i - 1); }
  }

  lemma AllocCoalesced(bs: seq<Block>, i: nat, size: nat)
    requires Coalesced(bs) && i < |bs| && bs[i].free
    ensures Coalesced(Alloc(bs, i, size))
  {
  }

  lemma ReleaseCoalesced(bs: seq<Block>, i: nat)
    requires Coalesced(bs) && i < |bs| && !bs[i].free
    ensures Coalesced(Release(bs, i))
  {
    var r, j, g := Release(bs, i), ReleasedAt(bs, i), Gone(bs, i);
    ReleaseShape(bs, i);
    forall k | 0 <= k < |r| - 1 ensures !(r[k].free && r[k + 1].free) {
      if k < j { assert r[k] == r[..j][k] == bs[k]; }
      if k + 1 < j { assert r[k + 1] == r[..j][k + 1] == bs[k + 1]; }
      if k >= j { assert r[k + 1] == r[j + 1..][k - j] == bs[k + 1 + g]; }
      if k > j { assert r[k] == r[j + 1..][k - j - 1] == bs[k + g]; }
    }
  }

  /**
   * Releasing what was just allocated restores the list exactly when no neighbour of the chosen
   * block was free (a free successor is harmless when the block was split).
   */
  lemma ReleaseUndoesAlloc(bs: seq<Block>, i: nat, size: nat)
    requires i < |bs| && bs[i].free
    ensures Release(Alloc(bs, i, size), i) == bs
       <==> !FreeAt(bs, i - 1) && (Splits(bs[i], size) || !FreeAt(bs, i + 1))
  {
  }

  lemma CoalescedMeansNoFreeNeighbour(bs: seq<Block>, i: nat)
    requires Coalesced(bs) && i < |bs| && bs[i].free
    ensures !FreeAt(bs, i - 1) && !FreeAt(bs, i + 1)
  {
  }

  // ----- sums -----

  function Used(b: Block): nat { if b.free then 0 else b.size }

  function UsedSum(bs: seq<Block>): nat
  {
    if bs == [] then 0 else Used(bs[0]) + UsedSum(bs[1..])
  }

  function FreeSum(bs: seq<Block>): nat
  {
    if bs == [] then 0 else (if bs[0].free then bs[0].size else 0) + FreeSum(bs[1..])
  }

  lemma {:induction false} UsedSumAppend(a: seq<Block>, b: seq<Block>)
    ensures UsedSum(a + b) == UsedSum(a) + UsedSum(b)
  {
    if a == [] { assert a + b == b; }
    else {
      assert (a + b)[1..] == a[1..] + b;
      UsedSumAppend(a[1..], b);
    }
  }

  lemma UsedSumAt(bs: seq<Block>, i: nat)
    requires i < |bs|
    ensures UsedSum(bs) == UsedSum(bs[..i]) + Used(bs[i]) + UsedSum(bs[i + 1..])
  {
    UsedSumAppend(bs[..i], bs[i..]);
    assert bs == bs[..i] + bs[i..];
    assert bs[i..][1..] == bs[i + 1..];
  }

  /** Free bytes, used bytes and the headers together are the whole region. */
  lemma {:induction false} Conservation(bs: seq<Block>, lo: nat, hi: nat)
    requires Tiled(bs, lo, hi)
    ensures FreeSum(bs) + UsedSum(bs) + HEADER * |bs| == hi - lo
  {
    if |bs| > 1 {
      Conservation(bs[1..], bs[0].End(), hi);
    } else {
      assert bs[1..] == [];
    }
  }

  lemma SetFreeUsedSum(bs: seq<Block>, i: nat, free: bool)
    requires i < |bs|
    ensures UsedSum(SetFree(bs, i, free)) + Used(bs[i]) == UsedSum(bs) + (if free then 0 else bs[i].size)
  {
    var r := SetFree(bs, i, free);
    UsedSumAt(bs, i);
    UsedSumAt(r, i);
    assert r[..i] == bs[..i] && r[i + 1..] == bs[i + 1..];
  }

  lemma MergeUsedSum(bs: seq<Block>, i: nat)
    requires i + 1 < |bs|
    ensures UsedSum(Merge(bs, i)) + Used(bs[i]) + Used(bs[i + 1]) == UsedSum(bs) + Used(Merge(bs, i)[i])
  {
    var r := Merge(bs, i);
    UsedSumAt(bs, i);
    UsedSumAt(bs[i + 1..], 0);
    UsedSumAt(r, i);
    assert r[..i] == bs[..i] && r[i + 1..] == bs[i + 2..] == bs[i + 1..][1..];
  }

  lemma SplitUsedSum(bs: seq<Block>, i: nat, size: nat)
    requires i < |bs|
    ensures UsedSum(Split(bs, i, size)) + Used(bs[i]) == UsedSum(bs) + Used(Split(bs, i, size)[i])
  {
    var r := Split(bs, i, size);
    if Splits(bs[i], size) {
      MergeUndoesSplit(bs, i, size);
      MergeUsedSum(r, i);
    }
  }

  lemma AllocUsedSum(bs: seq<Block>, i: nat, size: nat)
    requires i < |bs| && bs[i].free
    ensures UsedSum(Alloc(bs, i, size)) == UsedSum(bs) + Alloc(bs, i, size)[i].size
  {
    SplitUsedSum(bs, i, size);
    SetFreeUsedSum(Split(bs, i, size), i, false);
  }

  lemma ReleaseUsedSum(bs: seq<Block>, i: nat)
    requires i < |bs| && !bs[i].free
    ensures UsedSum(Release(bs, i)) + bs[i].size == UsedSum(bs)
  {
    var marked := SetFree(bs, i, true);
    SetFreeUsedSum(bs, i, true);
    if FreeAt(marked, i + 1) { MergeUsedSum(marked, i); }
    if FreeAt(bs, i - 1) { MergeUsedSum(MergeIfFree(marked, i), i - 1); }
  }

  // ----- next-fit scan -----

  predicate Fits(b: Block, size: nat) { b.free && b.size >= size }

  /** The k-th block visited when the scan starts at index h and wraps once. */
  function Visit(n: nat, h: nat, k: nat): (j: nat)
    requires h < n && k < n
    ensures j < n
  {
    if h + k < n then h + k else h + k - n
  }

  /** Index chosen by the scan from its k-th visit on, or -1. */
  function Scan(bs: seq<Block>, h: nat, k: nat, size: nat): (i: int)
    requires h < |bs| && k <= |bs|
    ensures -1 <= i < |bs|
    ensures i >= 0 ==> Fits(bs[i], size)
    decreases |bs| - k
  {
    if k == |bs| then -1
    else if Fits(bs[Visit(|bs|, h, k)], size) then Visit(|bs|, h, k)
    else Scan(bs, h, k + 1, size)
  }

  lemma {:induction false} ScanSkips(bs: seq<Block>, h: nat, k: nat, size: nat)
    requires h < |bs| && k <= |bs|
    ensures Scan(bs, h, k, size) == -1 ==> forall q :: k <= q < |bs| ==> !Fits(bs[Visit(|bs|, h, q)], size)
    ensures Scan(bs, h, k, size) >= 0 ==>
      exists v :: k <= v < |bs| && Scan(bs, h, k, size) == Visit(|bs|, h, v)
               && forall q :: k <= q < v ==> !Fits(bs[Visit(|bs|, h, q)], size)
    decreases |bs| - k
  {
    if k < |bs| && !Fits(bs[Visit(|bs|, h, k)], size) {
      ScanSkips(bs, h, k + 1, size);
    }
  }

  /**
   * From any start the scan reaches every block: it reports failure exactly when nothing on the
   * list fits, and otherwise picks the first fitting block in circular order.
   */
  lemma ScanComplete(bs: seq<Block>, h: nat, size: nat)
    requires h < |bs|
    ensures Scan(bs, h, 0, size) == -1 <==> forall j :: 0 <= j < |bs| ==> !Fits(bs[j], size)
    ensures Scan(bs, h, 0, size) >= 0 ==>
      exists v :: 0 <= v < |bs| && Scan(bs, h, 0, size) == Visit(|bs|, h, v)
               && forall q :: 0 <= q < v ==> !Fits(bs[Visit(|bs|, h, q)], size)
  {
    ScanSkips(bs, h, 0, size);
    if Scan(bs, h, 0, size) == -1 {
      forall j | 0 <= j < |bs| ensures !Fits(bs[j], size) {
        var q := if j >= h then j - h else j - h + |bs|;
        assert Visit(|bs|, h, q) == j;
      }
    }
  }
}
