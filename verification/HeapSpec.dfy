/** The heap operations as functions on the block list, the search hint and the two counters. */
module HeapSpec {
  import opened Bytes
  import opened HeapList

  datatype State = State(blocks: seq<Block>, hint: nat, totalAlloc: u32, totalFreed: u32)

  /** Round up to a multiple of 8 in 32-bit arithmetic: the sum wraps for values above 0xFFFFFFF8. */
  function AlignUp(v: u32): (r: u32)
    ensures Mult8(r)
    ensures v <= r <==> v <= 0xFFFF_FFF8
    ensures v <= 0xFFFF_FFF8 ==> r < v + 8
    ensures v > 0xFFFF_FFF8 ==> r == 0
  {
    (Wrap32(v as int + 7)) / 8 * 8
  }

  lemma AlignUpExact(n: u32)
    requires Mult8(n)
    ensures AlignUp(n) == n
  {
  }

  /** Index of the first block from k on whose header is at address a, or -1. */
  function Find(bs: seq<Block>, a: int, k: nat): (i: int)
    requires k <= |bs|
    ensures i == -1 || (k <= i < |bs| && bs[i].addr == a)
    ensures i == -1 ==> forall j :: k <= j < |bs| ==> bs[j].addr != a
    decreases |bs| - k
  {
    if k == |bs| then -1 else if bs[k].addr == a then k else Find(bs, a, k + 1)
  }

  lemma FindUnique(bs: seq<Block>, lo: nat, hi: nat, i: nat)
    requires Tiled(bs, lo, hi) && i < |bs|
    ensures Find(bs, bs[i].addr, 0) == i
  {
    AllOrdered(bs, lo, hi);
  }

  /** A null hint stands for the start of the list. */
  ghost predicate HintOk(bs: seq<Block>, hint: nat) { hint == 0 || OnList(bs, hint) }

  function Start(s: State): (a: nat)
    requires s.blocks != []
  {
    if s.hint == 0 then s.blocks[0].addr else s.hint
  }

  function MallocLocked(s: State, size: nat): (r: (State, nat))
    requires s.blocks != [] && HintOk(s.blocks, s.hint)
  {
    var h := Find(s.blocks, Start(s), 0);
    assert h >= 0 by {
      if s.hint != 0 { var i :| 0 <= i < |s.blocks| && s.blocks[i].addr == s.hint; }
    }
    var i := Scan(s.blocks, h, 0, size);
    if i < 0 then (s.(hint := Start(s)), 0)
    else
      (Take(s, i, size), s.blocks[i].Payload())
  }

  /** Block i is handed out and the hint moves to its successor. */
  function Take(s: State, i: nat, size: nat): (r: State)
    requires i < |s.blocks|
  {
    var bs := Alloc(s.blocks, i, size);
    State(bs, if i + 1 < |bs| then bs[i + 1].addr else bs[0].addr,
          Wrap32(s.totalAlloc + bs[i].size), s.totalFreed)
  }

  /** Block i is given back and the hint moves to the block that now holds it. */
  function Give(s: State, i: nat): (r: State)
    requires i < |s.blocks|
  {
    State(Release(s.blocks, i), s.blocks[ReleasedAt(s.blocks, i)].addr,
          s.totalAlloc, Wrap32(s.totalFreed + s.blocks[i].size))
  }

  /** kmalloc reads the hint only when it has a block to look for, and then needs it on the list. */
  ghost predicate MayMalloc(s: State, size: u32) { s.blocks != [] && (size != 0 ==> HintOk(s.blocks, s.hint)) }

  function Kmalloc(s: State, size: u32): (r: (State, nat))
    requires MayMalloc(s, size)
  {
    if size == 0 then (s, 0) else MallocLocked(s, AlignUp(size))
  }

  /** The block a pointer can be freed through: in range, tracked, in use. */
  function Freeable(s: State, lo: nat, hi: nat, p: nat): (i: int)
    ensures i == -1 || (0 <= i < |s.blocks| && s.blocks[i].Payload() == p && !s.blocks[i].free)
  {
    if p < lo + HEADER || p >= hi then -1
    else
      var i := Find(s.blocks, p - HEADER, 0);
      if i >= 0 && !s.blocks[i].free then i else -1
  }

  function Kfree(s: State, lo: nat, hi: nat, p: nat): (r: State)
  {
    var i := Freeable(s, lo, hi, p);
    if i < 0 then s else Give(s, i)
  }

  predicate CallocOverflows(num: u32, size: u32) { num != 0 && size > 0xFFFF_FFFF / num }

  /** The size kcalloc asks kmalloc for, 0 when it refuses. */
  function CallocSize(num: u32, size: u32): (r: u32)
  {
    CallocFits(num, size);
    if CallocOverflows(num, size) then 0 else num * size
  }

  function Kcalloc(s: State, num: u32, size: u32): (r: (State, nat))
    requires MayMalloc(s, CallocSize(num, size))
  {
    if CallocOverflows(num, size) then (s, 0) else Kmalloc(s, CallocSize(num, size))
  }

  /** The overflow test of kcalloc is exact. */
  lemma CallocFits(num: u32, size: u32)
    ensures CallocOverflows(num, size) <==> num * size >= TWO32
  {
    if num != 0 {
      var q := 0xFFFF_FFFF / num;
      var r := 0xFFFF_FFFF % num;
      assert num * q + r == 0xFFFF_FFFF;
      if size <= q { Mono(num, size, q); } else { Mono(num, q + 1, size); assert num * (q + 1) == num * q + num; }
    }
  }

  lemma Mono(a: nat, x: int, y: int)
    requires x <= y
    ensures a * x <= a * y
  {
  }

  // ----- krealloc -----

  /** Block i can grow over its free successor to hold n bytes. */
  predicate GrowsInPlace(bs: seq<Block>, i: nat, n: nat)
    requires i < |bs|
  {
    bs[i].size < n && FreeAt(bs, i + 1) && bs[i].size + HEADER + bs[i + 1].size >= n
  }

  /** krealloc grows the block at p over its free successor. */
  predicate GrewInPlace(s: State, p: nat, size: u32)
  {
    var i := Find(s.blocks, p - HEADER, 0);
    p != 0 && size != 0 && i >= 0 && !s.blocks[i].free && GrowsInPlace(s.blocks, i, AlignUp(size))
  }

  function Grow(bs: seq<Block>, i: nat, n: nat): (r: seq<Block>)
    requires i + 1 < |bs|
  {
    Split(Merge(bs, i), i, n)
  }

  /** How many of its first bytes a block of the given size keeps when it is resized to n, a multiple of 8. */
  function KeptBytes(size: nat, n: nat): (k: nat) { if size >= n + HEADER + MIN_SPLIT then n else size }

  /**
   * When a resized block still holds the first bytes of the old one, as many as fit the new size. A size above
   * 0xFFFFFFF8 is rounded up to 0, so that a block large enough to split is cut down to nothing.
   */
  predicate KeepsBytes(size: nat, newSize: u32) { newSize <= 0xFFFF_FFF8 || size < HEADER + MIN_SPLIT }

  lemma KeptBytesExact(size: nat, newSize: u32)
    ensures Min(size, newSize) <= KeptBytes(size, AlignUp(newSize)) <==> KeepsBytes(size, newSize)
  {
  }

  /** Block i can neither be cut to n bytes nor grown to them: it has to be moved. */
  predicate MustMove(bs: seq<Block>, i: nat, n: nat)
    requires i < |bs|
  {
    n > bs[i].size && !GrowsInPlace(bs, i, n)
  }

  /** krealloc looks for another block: for a NULL pointer, and for a block in use that has to be moved. */
  predicate ReallocSearches(s: State, p: nat, size: u32)
  {
    var i := Find(s.blocks, p - HEADER, 0);
    size != 0 && (p == 0 || (i >= 0 && !s.blocks[i].free && MustMove(s.blocks, i, AlignUp(size))))
  }

  /** Only then does krealloc read the hint; refusing, freeing, shrinking and growing in place leave it alone. */
  ghost predicate MayRealloc(s: State, p: nat, size: u32)
  {
    s.blocks != [] && (ReallocSearches(s, p, size) ==> HintOk(s.blocks, s.hint))
  }

  function Krealloc(s: State, lo: nat, hi: nat, p: nat, size: u32): (r: (State, nat))
    requires MayRealloc(s, p, size)
  {
    if p == 0 then Kmalloc(s, size)
    else if size == 0 then (Kfree(s, lo, hi, p), 0)
    else
      var n, i := AlignUp(size), Find(s.blocks, p - HEADER, 0);
      if i < 0 || s.blocks[i].free then (s, 0) else Resize(s, lo, hi, p, i, n)
  }

  /** Block i, whose payload is p, is shrunk, grown over its successor, or moved. */
  function Resize(s: State, lo: nat, hi: nat, p: nat, i: nat, n: u32): (r: (State, nat))
    requires i < |s.blocks| && (MustMove(s.blocks, i, n) ==> HintOk(s.blocks, s.hint))
  {
    if n <= s.blocks[i].size then (s.(blocks := Split(s.blocks, i, n)), p)
    else if GrowsInPlace(s.blocks, i, n) then (s.(blocks := Grow(s.blocks, i, n)), p)
    else
      var (t, q) := Kmalloc(s, n);
      if q == 0 then (t, 0) else (Kfree(t, lo, hi, p), q)
  }

  // ----- the invariant -----

  ghost predicate Counted(s: State) { Wrap32(s.totalAlloc - s.totalFreed) == UsedSum(s.blocks) }

  /** The last block has room for at least one byte, so every payload address is inside the region. */
  predicate EndsInSpace(bs: seq<Block>) { |bs| > 0 && bs[|bs| - 1].size > 0 }

  ghost predicate Inv(s: State, lo: nat, hi: nat)
  {
    && 0 < lo && Mult8(lo) && hi - lo < TWO32
    && Tiled(s.blocks, lo, hi)
    && EndsInSpace(s.blocks)
    && Coalesced(s.blocks)
    && OnList(s.blocks, s.hint)
    && Counted(s)
  }

  /** What krealloc keeps as well: the list tiles the region. */
  ghost predicate Sound(s: State, lo: nat, hi: nat)
  {
    0 < lo && Mult8(lo) && hi - lo < TWO32 && Tiled(s.blocks, lo, hi) && EndsInSpace(s.blocks)
  }

  lemma InvIsSound(s: State, lo: nat, hi: nat)
    requires Inv(s, lo, hi)
    ensures Sound(s, lo, hi) && s.blocks != [] && HintOk(s.blocks, s.hint)
  {
  }

  /** State left by memory_init. */
  function Boot(lo: nat, hi: nat): (s: State)
    requires 0 < lo && Mult8(lo) && Mult8(hi) && lo + HEADER < hi < lo + TWO32
    ensures Inv(s, lo, hi)
  {
    var bs := [Block(lo, hi - lo - HEADER, true)];
    assert bs[0].addr == lo;
    State(bs, lo, 0, 0)
  }

  lemma AllocEffect(bs: seq<Block>, i: nat, size: nat)
    requires i < |bs| && Fits(bs[i], size)
    ensures var cs := Alloc(bs, i, size);
      && i < |cs|
      && UsedSet(cs) == UsedSet(bs) + {cs[i]}
      && cs[i].addr == bs[i].addr && cs[i].size >= size && !cs[i].free
  {
    var cs, shift := Alloc(bs, i, size), if Splits(bs[i], size) then 1 else 0;
    AllocShape(bs, i, size);
    hide Alloc, Splits;
    forall b | b in UsedSet(bs) ensures b in UsedSet(cs) {
      var k :| 0 <= k < |bs| && bs[k] == b;
      assert cs[if k < i then k else k + shift] == b;
    }
    forall c | c in UsedSet(cs) && c != cs[i] ensures c in UsedSet(bs) {
      var k :| 0 <= k < |cs| && cs[k] == c;
      if k > i { assert bs[k - shift] == c; }
    }
  }

  lemma AllocShape(bs: seq<Block>, i: nat, size: nat)
    requires i < |bs|
    ensures var cs, shift := Alloc(bs, i, size), if Splits(bs[i], size) then 1 else 0;
      && |cs| == |bs| + shift
      && cs[i] == Block(bs[i].addr, if Splits(bs[i], size) then size else bs[i].size, false)
      && (shift == 1 ==> cs[i + 1].free)
      && (forall k :: 0 <= k < i ==> cs[k] == bs[k])
      && (forall k :: i + shift < k < |cs| ==> cs[k] == bs[k - shift])
  {
    SplitShape(bs, i, size);
    hide Split, Splits;
    var r, cs := Split(bs, i, size), Alloc(bs, i, size);
    assert cs == r[i := r[i].(free := false)];
    hide Alloc;
  }

  /** A free block shares no address with the blocks in use. */
  lemma FreeApart(bs: seq<Block>, lo: nat, hi: nat, k: nat)
    requires Tiled(bs, lo, hi) && k < |bs| && bs[k].free
    ensures forall b :: b in UsedSet(bs) ==> b.addr != bs[k].addr
  {
    AllOrdered(bs, lo, hi);
  }

  /** kmalloc returns NULL exactly when nothing on the whole list fits, and then changes no block. */
  lemma MallocNull(s: State, lo: nat, hi: nat, size: u32)
    requires lo > 0 && Tiled(s.blocks, lo, hi) && MayMalloc(s, size)
    ensures Kmalloc(s, size).1 == 0
       <==> size == 0 || forall j :: 0 <= j < |s.blocks| ==> !Fits(s.blocks[j], AlignUp(size))
    ensures Kmalloc(s, size).1 == 0 ==> Kmalloc(s, size).0.blocks == s.blocks
  {
    if size != 0 {
      ScanComplete(s.blocks, Find(s.blocks, Start(s), 0), AlignUp(size));
    }
  }

  /** What a successful kmalloc hands out: a free block of the old list, now in use and big enough. */
  lemma MallocGives(s: State, lo: nat, hi: nat, size: u32) returns (i: nat)
    requires lo > 0 && Tiled(s.blocks, lo, hi) && MayMalloc(s, size)
    requires Kmalloc(s, size).1 != 0
    ensures var (t, p) := Kmalloc(s, size);
      && Tiled(t.blocks, lo, hi) && OnList(t.blocks, t.hint)
      && i < |s.blocks| && s.blocks[i].free && s.blocks[i].Payload() == p
      && i < |t.blocks| && !t.blocks[i].free && t.blocks[i].Payload() == p
      && AlignUp(size) <= t.blocks[i].size
      && UsedSet(t.blocks) == UsedSet(s.blocks) + {t.blocks[i]}
      && (forall b :: b in UsedSet(s.blocks) ==> b.addr != t.blocks[i].addr)
  {
    var n := AlignUp(size);
    i := Scan(s.blocks, Find(s.blocks, Start(s), 0), 0, n);
    var bs := Alloc(s.blocks, i, n);
    hide Alloc, Tiled, Scan, UsedSet, Mult8, Wrap32, AlignUp;
    AllocTiled(s.blocks, lo, hi, i, n);
    AllocEffect(s.blocks, i, n);
    FreeApart(s.blocks, lo, hi, i);
    assert Kmalloc(s, size).0.hint == bs[if i + 1 < |bs| then i + 1 else 0].addr;
  }

  lemma ReleaseEffect(bs: seq<Block>, lo: nat, hi: nat, i: nat)
    requires Tiled(bs, lo, hi) && i < |bs| && !bs[i].free
    ensures UsedSet(Release(bs, i)) == UsedSet(bs) - {bs[i]}
  {
    var cs := Release(bs, i);
    forall b | b in UsedSet(bs) && b != bs[i] ensures b in UsedSet(cs) { ReleaseLeaves(bs, i, b); }
    forall c | c in UsedSet(cs) ensures c in UsedSet(bs) && c != bs[i] { ReleaseAddsNone(bs, lo, hi, i, c); }
  }

  /** Around the block that holds the released space, the blocks are those of the old list. */
  lemma ReleaseIndex(bs: seq<Block>, i: nat, k: nat)
    requires i < |bs| && k < |Release(bs, i)|
    ensures k < ReleasedAt(bs, i) ==> k < |bs| && Release(bs, i)[k] == bs[k]
    ensures k > ReleasedAt(bs, i) ==> k + Gone(bs, i) < |bs| && Release(bs, i)[k] == bs[k + Gone(bs, i)]
  {
    var cs, j, g := Release(bs, i), ReleasedAt(bs, i), Gone(bs, i);
    ReleaseShape(bs, i);
    hide Release, Gone, ReleasedAt, FreeAt;
    if k < j { assert cs[..j][k] == bs[..j][k]; }
    if k > j { assert cs[j + 1..][k - j - 1] == bs[j + 1 + g..][k - j - 1]; }
  }

  lemma ReleaseSize(bs: seq<Block>, i: nat)
    requires i < |bs|
    ensures |Release(bs, i)| == |bs| - Gone(bs, i) && ReleasedAt(bs, i) < |Release(bs, i)|
    ensures Release(bs, i)[ReleasedAt(bs, i)].free
  {
    ReleaseShape(bs, i);
    hide *;
  }

  /** The released block and the free neighbours it is merged with. */
  lemma ReleaseSpan(bs: seq<Block>, i: nat)
    requires i < |bs|
    ensures ReleasedAt(bs, i) <= i <= ReleasedAt(bs, i) + Gone(bs, i) < |bs|
    ensures forall k :: ReleasedAt(bs, i) <= k <= ReleasedAt(bs, i) + Gone(bs, i) && k != i ==> bs[k].free
  {
  }

  lemma ReleaseLeaves(bs: seq<Block>, i: nat, b: Block)
    requires i < |bs| && b in bs && !b.free && b != bs[i]
    ensures b in Release(bs, i)
  {
    var j, g := ReleasedAt(bs, i), Gone(bs, i);
    ReleaseSize(bs, i);
    ReleaseSpan(bs, i);
    hide Release, Gone, ReleasedAt;
    var k :| 0 <= k < |bs| && bs[k] == b;
    ReleaseIndex(bs, i, if k < j then k else k - g);
  }

  lemma ReleaseAddsNone(bs: seq<Block>, lo: nat, hi: nat, i: nat, c: Block)
    requires Tiled(bs, lo, hi) && i < |bs| && c in Release(bs, i) && !c.free
    ensures c in bs && c != bs[i]
  {
    var j, g := ReleasedAt(bs, i), Gone(bs, i);
    ReleaseSize(bs, i);
    ReleaseSpan(bs, i);
    hide Release, Tiled, Gone, ReleasedAt;
    var k :| 0 <= k < |Release(bs, i)| && Release(bs, i)[k] == c;
    ReleaseIndex(bs, i, k);
    if k < j { Ordered(bs, lo, hi, k, i); } else { Ordered(bs, lo, hi, i, k + g); }
  }

  lemma AllocKeepsTail(bs: seq<Block>, i: nat, size: nat)
    requires i < |bs| && EndsInSpace(bs)
    ensures EndsInSpace(Alloc(bs, i, size))
  {
  }

  lemma ReleaseKeepsTail(bs: seq<Block>, i: nat)
    requires i < |bs| && EndsInSpace(bs)
    ensures EndsInSpace(Release(bs, i))
  {
    var cs, j, g := Release(bs, i), ReleasedAt(bs, i), Gone(bs, i);
    ReleaseShape(bs, i);
    if |cs| - 1 > j { assert cs[|cs| - 1] == cs[j + 1..][|cs| - j - 2] == bs[j + 1 + g..][|cs| - j - 2]; }
  }

  lemma CountUp(a: u32, f: u32, used: nat, d: nat)
    requires Wrap32(a - f) == used && used + d < TWO32
    ensures Wrap32(Wrap32(a + d) - f) == used + d
  {
  }

  lemma CountDown(a: u32, f: u32, used: nat, d: nat)
    requires Wrap32(a - f) == used && d <= used
    ensures Wrap32(a - Wrap32(f + d)) == used - d
  {
  }

  lemma TakeKeepsInv(s: State, lo: nat, hi: nat, i: nat, n: nat)
    requires Inv(s, lo, hi)
    requires i < |s.blocks| && Fits(s.blocks[i], n) && Mult8(n)
    ensures Inv(Take(s, i, n), lo, hi)
  {
    var t := Take(s, i, n);
    assert Tiled(t.blocks, lo, hi) by { AllocTiled(s.blocks, lo, hi, i, n); }
    assert Coalesced(t.blocks) by { AllocCoalesced(s.blocks, i, n); }
    assert Counted(t) by { TakeKeepsCount(s, lo, hi, i, n); }
    assert EndsInSpace(t.blocks) by { AllocKeepsTail(s.blocks, i, n); }
    assert OnList(t.blocks, t.hint) by { assert t.hint == t.blocks[if i + 1 < |t.blocks| then i + 1 else 0].addr; }
  }

  lemma TakeKeepsCount(s: State, lo: nat, hi: nat, i: nat, n: nat)
    requires Counted(s) && Tiled(s.blocks, lo, hi) && hi - lo < TWO32
    requires i < |s.blocks| && Fits(s.blocks[i], n) && Mult8(n)
    ensures Counted(Take(s, i, n))
  {
    var t := Take(s, i, n);
    assert i < |t.blocks|;
    hide Tiled, Alloc, UsedSum, FreeSum, Mult8, Wrap32;
    AllocTiled(s.blocks, lo, hi, i, n);
    AllocUsedSum(s.blocks, i, n);
    Conservation(t.blocks, lo, hi);
    CountUp(s.totalAlloc, s.totalFreed, UsedSum(s.blocks), t.blocks[i].size);
  }

  lemma MallocKeepsInv(s: State, lo: nat, hi: nat, size: u32)
    requires Inv(s, lo, hi)
    ensures Inv(Kmalloc(s, size).0, lo, hi)
  {
    var k :| 0 <= k < |s.blocks| && s.blocks[k].addr == s.hint;
    Inside(s.blocks, lo, hi, k);
    if size != 0 {
      var i := Scan(s.blocks, Find(s.blocks, Start(s), 0), 0, AlignUp(size));
      if i >= 0 { TakeKeepsInv(s, lo, hi, i, AlignUp(size)); }
    }
  }

  lemma GiveKeepsInv(s: State, lo: nat, hi: nat, i: nat)
    requires Inv(s, lo, hi)
    requires i < |s.blocks| && !s.blocks[i].free
    ensures Inv(Give(s, i), lo, hi)
  {
    var t := Give(s, i);
    assert Tiled(t.blocks, lo, hi) by { ReleaseTiled(s.blocks, lo, hi, i); }
    assert Coalesced(t.blocks) by { ReleaseCoalesced(s.blocks, i); }
    assert Counted(t) by {
      ReleaseUsedSum(s.blocks, i);
      CountDown(s.totalAlloc, s.totalFreed, UsedSum(s.blocks), s.blocks[i].size);
    }
    assert EndsInSpace(t.blocks) by { ReleaseKeepsTail(s.blocks, i); }
    assert OnList(t.blocks, t.hint) by {
      ReleaseShape(s.blocks, i);
      assert t.blocks[ReleasedAt(s.blocks, i)].addr == t.hint;
    }
  }

  lemma FreeKeepsInv(s: State, lo: nat, hi: nat, p: nat)
    requires Inv(s, lo, hi)
    ensures Inv(Kfree(s, lo, hi, p), lo, hi)
  {
    var i := Freeable(s, lo, hi, p);
    if i >= 0 { GiveKeepsInv(s, lo, hi, i); }
  }

  lemma AllocAt(bs: seq<Block>, i: nat, n: nat)
    requires i < |bs|
    ensures i < |Alloc(bs, i, n)| && Alloc(bs, i, n)[i].addr == bs[i].addr && !Alloc(bs, i, n)[i].free
  {
    AllocShape(bs, i, n);
  }

  /** Freeing the block that was just taken out of a coalesced list. */
  lemma FreeAfterTake(s: State, t: State, lo: nat, hi: nat, i: nat, n: nat)
    requires Tiled(s.blocks, lo, hi) && Coalesced(s.blocks) && i < |s.blocks| && s.blocks[i].free
    requires Tiled(t.blocks, lo, hi) && EndsInSpace(t.blocks) && t.blocks == Alloc(s.blocks, i, n)
    ensures Kfree(t, lo, hi, s.blocks[i].Payload()).blocks == s.blocks
  {
    AllocAt(s.blocks, i, n);
    hide Splits, Alloc, Release, Tiled, Coalesced, EndsInSpace, Freeable, FreeAt, Wrap32;
    FreeableAt(t, lo, hi, i);
    CoalescedMeansNoFreeNeighbour(s.blocks, i);
    ReleaseUndoesAlloc(s.blocks, i, n);
  }

  /** kmalloc then kfree of the result gives back the same block list. */
  lemma FreeRestores(s: State, lo: nat, hi: nat, size: u32)
    requires Inv(s, lo, hi)
    ensures var (t, p) := Kmalloc(s, size); Kfree(t, lo, hi, p).blocks == s.blocks
  {
    var (t, p) := Kmalloc(s, size);
    if p != 0 {
      MallocKeepsInv(s, lo, hi, size);
      hide Tiled, Coalesced, Counted, EndsInSpace, Alloc, Kfree, AlignUp, Mult8, Wrap32;
      FreeAfterTake(s, t, lo, hi, Scan(s.blocks, Find(s.blocks, Start(s), 0), 0, AlignUp(size)), AlignUp(size));
    }
  }

  /** A block in use passes the range test and is found by its payload pointer. */
  lemma FreeableAt(s: State, lo: nat, hi: nat, i: nat)
    requires Tiled(s.blocks, lo, hi) && EndsInSpace(s.blocks) && i < |s.blocks| && !s.blocks[i].free
    ensures Freeable(s, lo, hi, s.blocks[i].Payload()) == i
  {
    hide Tiled, Mult8;
    FindUnique(s.blocks, lo, hi, i);
    Inside(s.blocks, lo, hi, i);
    if i < |s.blocks| - 1 { Ordered(s.blocks, lo, hi, i, |s.blocks| - 1); }
    Inside(s.blocks, lo, hi, |s.blocks| - 1);
  }

  lemma UsedIsFreeable(s: State, lo: nat, hi: nat, b: Block)
    requires Tiled(s.blocks, lo, hi) && EndsInSpace(s.blocks) && b in UsedSet(s.blocks)
    ensures var i := Freeable(s, lo, hi, b.Payload()); i >= 0 && s.blocks[i] == b
  {
    var i :| 0 <= i < |s.blocks| && s.blocks[i] == b;
    FreeableAt(s, lo, hi, i);
  }
}
