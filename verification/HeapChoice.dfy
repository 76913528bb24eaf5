/** Which block each heap call chooses and what it leaves behind, said by addresses and sizes alone. */
module HeapChoice {
  import opened Bytes
  import opened HeapList
  import opened HeapSpec
  import opened HeapRealloc

  /** No free block on the list has n bytes. */
  ghost predicate NothingFits(bs: seq<Block>, n: nat) { forall j :: 0 <= j < |bs| ==> !(bs[j].free && bs[j].size >= n) }

  /** Going up from address h and around, a comes no later than c. */
  predicate NoLater(h: nat, a: nat, c: nat) { if a >= h then c < h || a <= c else a <= c < h }

  // ----- kmalloc -----

  /**
   * kmalloc takes the first free block that is large enough, going up from the hint, or from the start of the heap if
   * there is none, and around.
   */
  lemma MallocPicks(s: State, lo: nat, hi: nat, size: u32) returns (i: nat)
    requires lo > 0 && Tiled(s.blocks, lo, hi) && MayMalloc(s, size) && Kmalloc(s, size).1 != 0
    ensures i < |s.blocks| && s.blocks[i].Payload() == Kmalloc(s, size).1
    ensures s.blocks[i].free && s.blocks[i].size >= AlignUp(size)
    ensures forall j :: 0 <= j < |s.blocks| && s.blocks[j].free && s.blocks[j].size >= AlignUp(size) ==>
      NoLater(if s.hint == 0 then lo else s.hint, s.blocks[i].addr, s.blocks[j].addr)
    ensures Kmalloc(s, size).0 == Take(s, i, AlignUp(size))
  {
    var bs, n, h := s.blocks, AlignUp(size), Find(s.blocks, Start(s), 0);
    assert bs[0].addr == lo;
    i := Scan(bs, h, 0, n);
    ScanComplete(bs, h, n);
    AllOrdered(bs, lo, hi);
    hide Tiled, Scan, Take, AlignUp, Mult8, Wrap32;
    var v :| 0 <= v < |bs| && i == Visit(|bs|, h, v) && forall q :: 0 <= q < v ==> !Fits(bs[Visit(|bs|, h, q)], n);
    forall j | 0 <= j < |bs| && bs[j].free && bs[j].size >= n
      ensures NoLater(bs[h].addr, bs[i].addr, bs[j].addr)
    {
      FirstInOrder(bs, lo, hi, h, v, n, j);
    }
  }

  lemma FirstInOrder(bs: seq<Block>, lo: nat, hi: nat, h: nat, v: nat, n: nat, j: nat)
    requires Tiled(bs, lo, hi) && h < |bs| && v < |bs| && j < |bs| && Fits(bs[j], n)
    requires forall q :: 0 <= q < v ==> !Fits(bs[Visit(|bs|, h, q)], n)
    ensures NoLater(bs[h].addr, bs[Visit(|bs|, h, v)].addr, bs[j].addr)
  {
    var q := if j >= h then j - h else j - h + |bs|;
    assert Visit(|bs|, h, q) == j;
    assert q >= v;
    hide Tiled;
    var i := Visit(|bs|, h, v);
    AddrOrder(bs, lo, hi, h, i);
    AddrOrder(bs, lo, hi, h, j);
    AddrOrder(bs, lo, hi, i, j);
  }

  /** Addresses on a tiling list grow with the index. */
  lemma AddrOrder(bs: seq<Block>, lo: nat, hi: nat, i: nat, j: nat)
    requires Tiled(bs, lo, hi) && i < |bs| && j < |bs|
    ensures i < j ==> bs[i].addr < bs[j].addr
    ensures j < i ==> bs[j].addr < bs[i].addr
    ensures i == j ==> bs[i].addr == bs[j].addr
  {
    if i < j { Ordered(bs, lo, hi, i, j); }
    if j < i { Ordered(bs, lo, hi, j, i); }
  }

  /**
   * The block is cut to the aligned size when at least 80 bytes more are there, and handed out whole otherwise. The
   * hint moves to the address after it, or to the start of the heap after the last block.
   */
  lemma MallocLeaves(s: State, lo: nat, hi: nat, size: u32) returns (i: nat)
    requires lo > 0 && Tiled(s.blocks, lo, hi) && MayMalloc(s, size) && Kmalloc(s, size).1 != 0
    ensures i < |s.blocks| && s.blocks[i].Payload() == Kmalloc(s, size).1
    ensures var (t, b, n) := (Kmalloc(s, size).0, s.blocks[i], AlignUp(size));
      var end := b.addr + 16 + Cut(b.addr, b.size, n, false)[0].size;
      && t.blocks == s.blocks[..i] + Cut(b.addr, b.size, n, false) + s.blocks[i + 1..]
      && t.hint == (if end < hi then end else lo)
      && t.totalAlloc == (s.totalAlloc + end - b.addr - 16) % 0x1_0000_0000 && t.totalFreed == s.totalFreed
  {
    i := MallocPicks(s, lo, hi, size);
    var n := AlignUp(size);
    hide Kmalloc, AlignUp, MayMalloc, Tiled, Mult8;
    TakeLeaves(s, lo, hi, i, n);
  }

  lemma TakeLeaves(s: State, lo: nat, hi: nat, i: nat, n: u32)
    requires lo > 0 && Tiled(s.blocks, lo, hi) && i < |s.blocks|
    ensures var (t, b) := (Take(s, i, n), s.blocks[i]);
      var end := b.addr + 16 + Cut(b.addr, b.size, n, false)[0].size;
      && t.blocks == s.blocks[..i] + Cut(b.addr, b.size, n, false) + s.blocks[i + 1..]
      && t.hint == (if end < hi then end else lo)
      && t.totalAlloc == (s.totalAlloc + end - b.addr - 16) % 0x1_0000_0000 && t.totalFreed == s.totalFreed
  {
    var bs, b := s.blocks, s.blocks[i];
    var cut := Cut(b.addr, b.size, n, false);
    AllocIs(bs, i, n);
    NextPlace(bs, lo, hi, i);
    CutFits(b, n);
    assert bs[0].addr == lo;
    hide Tiled, Alloc, Cut;
    Around(bs, i, cut);
  }

  lemma CutFits(b: Block, n: nat)
    ensures var c := Cut(b.addr, b.size, n, false);
      && 1 <= |c| <= 2 && c[0].addr == b.addr
      && (|c| == 1 ==> c[0].size == b.size)
      && (|c| == 2 ==> c[1].addr == b.addr + 16 + c[0].size < b.End())
  {
  }

  /** The blocks next to a piece of the list that was replaced. */
  lemma Around(bs: seq<Block>, i: nat, cut: seq<Block>)
    requires i < |bs| && 1 <= |cut| <= 2
    ensures var after := bs[..i] + cut + bs[i + 1..];
      && |after| == |bs| + |cut| - 1 && after[i] == cut[0] && (i > 0 ==> after[0] == bs[0])
      && (|cut| == 2 ==> after[i + 1] == cut[1])
      && (|cut| == 1 && i + 1 < |bs| ==> after[i + 1] == bs[i + 1])
  {
  }

  /** What is left of a block of the given size cut to n bytes. */
  function Cut(addr: nat, size: nat, n: nat, free: bool): (r: seq<Block>)
  {
    if size >= n + 80 then [Block(addr, n, free), Block(addr + 16 + n, size - n - 16, true)]
    else [Block(addr, size, free)]
  }

  lemma SplitIs(bs: seq<Block>, i: nat, n: nat)
    requires i < |bs|
    ensures Split(bs, i, n) == bs[..i] + Cut(bs[i].addr, bs[i].size, n, bs[i].free) + bs[i + 1..]
  {
    if !Splits(bs[i], n) { assert bs == bs[..i] + [bs[i]] + bs[i + 1..]; }
  }

  lemma AllocIs(bs: seq<Block>, i: nat, n: nat)
    requires i < |bs|
    ensures Alloc(bs, i, n) == bs[..i] + Cut(bs[i].addr, bs[i].size, n, false) + bs[i + 1..]
  {
    SplitIs(bs, i, n);
    var c := Cut(bs[i].addr, bs[i].size, n, bs[i].free);
    Replace(bs[..i], c, bs[i + 1..], c[0].(free := false));
    hide Split;
    assert c[0 := c[0].(free := false)] == Cut(bs[i].addr, bs[i].size, n, false);
  }

  lemma Replace(x: seq<Block>, c: seq<Block>, y: seq<Block>, b: Block)
    requires c != []
    ensures (x + c + y)[|x| := b] == x + c[0 := b] + y
  {
  }

  /** The next block stands where this one ends, and the last one ends with the heap. */
  lemma NextPlace(bs: seq<Block>, lo: nat, hi: nat, i: nat)
    requires Tiled(bs, lo, hi) && i < |bs|
    ensures bs[i].End() == if i + 1 < |bs| then bs[i + 1].addr else hi
    ensures i + 1 < |bs| ==> bs[i + 1].addr < hi
  {
    TiledIsLinked(bs, lo, hi);
    if i + 1 < |bs| { Inside(bs, lo, hi, i + 1); }
  }

  /** A kmalloc that fails changes nothing, except that a search gives an unset hint the start of the heap. */
  lemma MallocFails(s: State, lo: nat, hi: nat, size: u32)
    requires lo > 0 && Tiled(s.blocks, lo, hi) && MayMalloc(s, size) && Kmalloc(s, size).1 == 0
    ensures Kmalloc(s, size).0 == if size != 0 && s.hint == 0 then s.(hint := lo) else s
  {
  }

  // ----- kcalloc -----

  /** kcalloc refuses exactly the products of 2^32 and more, and 0, and what no free block holds; else it is kmalloc. */
  lemma CallocNull(s: State, lo: nat, hi: nat, num: u32, size: u32)
    requires lo > 0 && Tiled(s.blocks, lo, hi) && MayMalloc(s, CallocSize(num, size))
    ensures Kcalloc(s, num, size).1 == 0 <==>
      num * size >= 0x1_0000_0000 || num * size == 0 || NothingFits(s.blocks, AlignUp(num * size))
    ensures num * size < 0x1_0000_0000 ==> MayMalloc(s, num * size) && Kcalloc(s, num, size) == Kmalloc(s, num * size)
  {
    CallocFits(num, size);
    if num * size < 0x1_0000_0000 {
      hide Kmalloc, Tiled, AlignUp;
      MallocNull(s, lo, hi, num * size);
    }
  }

  // ----- kfree -----

  /** Block i is in use and its payload is at p. */
  predicate Holds(bs: seq<Block>, i: nat, p: nat) { i < |bs| && !bs[i].free && bs[i].addr + 16 == p }

  /** Bytes of free neighbour i and of its header, 0 if there is none. */
  function Gained(bs: seq<Block>, i: int): nat { if 0 <= i < |bs| && bs[i].free then bs[i].size + 16 else 0 }

  /**
   * Freeing p turns the block in use at p and its free neighbours into one free block, to which the hint moves. A
   * pointer to anything else changes nothing.
   */
  lemma FreeLeaves(s: State, lo: nat, hi: nat, p: nat, i: nat)
    requires Sound(s, lo, hi) && Holds(s.blocks, i, p)
    ensures var bs := s.blocks;
      var a := if i > 0 && bs[i - 1].free then i - 1 else i;
      var z := if i + 1 < |bs| && bs[i + 1].free then i + 2 else i + 1;
      var size := Gained(bs, i - 1) + bs[i].size + Gained(bs, i + 1);
      Kfree(s, lo, hi, p) == State(bs[..a] + [Block(bs[a].addr, size, true)] + bs[z..], bs[a].addr,
                                   s.totalAlloc, (s.totalFreed + bs[i].size) % 0x1_0000_0000)
  {
    FreeableAt(s, lo, hi, i);
    hide Tiled, Freeable, Release;
    ReleaseIs(s.blocks, i);
  }

  lemma ReleaseIs(bs: seq<Block>, i: nat)
    requires i < |bs|
    ensures var a := if i > 0 && bs[i - 1].free then i - 1 else i;
      var z := if i + 1 < |bs| && bs[i + 1].free then i + 2 else i + 1;
      var size := Gained(bs, i - 1) + bs[i].size + Gained(bs, i + 1);
      Release(bs, i) == bs[..a] + [Block(bs[a].addr, size, true)] + bs[z..]
  {
    hide *;
    ForwardIs(bs, i);
    ReleaseDef(bs, i);
    if i > 0 && bs[i - 1].free {
      var z := if i + 1 < |bs| && bs[i + 1].free then i + 2 else i + 1;
      BackwardIs(bs[..i], Block(bs[i].addr, bs[i].size + Gained(bs, i + 1), true), bs[z..]);
      LastOf(bs, i);
      GainedIs(bs, i - 1);
    } else {
      GainedIs(bs, i - 1);
    }
  }

  lemma ReleaseDef(bs: seq<Block>, i: nat)
    requires i < |bs|
    ensures var freed := MergeIfFree(SetFree(bs, i, true), i);
      Release(bs, i) == if i > 0 && bs[i - 1].free then Merge(freed, i - 1) else freed
  {
  }

  lemma LastOf(bs: seq<Block>, i: nat)
    requires 0 < i <= |bs|
    ensures bs[..i] != [] && |bs[..i]| == i && bs[..i][i - 1] == bs[i - 1] && bs[..i][..i - 1] == bs[..i - 1]
  {
  }

  lemma GainedIs(bs: seq<Block>, i: int)
    ensures Gained(bs, i) == if 0 <= i < |bs| && bs[i].free then bs[i].size + 16 else 0
  {
  }

  /** The freed block and a free successor. */
  lemma ForwardIs(bs: seq<Block>, i: nat)
    requires i < |bs|
    ensures var z := if i + 1 < |bs| && bs[i + 1].free then i + 2 else i + 1;
      MergeIfFree(SetFree(bs, i, true), i)
      == bs[..i] + [Block(bs[i].addr, bs[i].size + Gained(bs, i + 1), true)] + bs[z..]
  {
    var z := if i + 1 < |bs| && bs[i + 1].free then i + 2 else i + 1;
    var marked := SetFree(bs, i, true);
    assert marked[..i] == bs[..i] && marked[z..] == bs[z..];
  }

  /** The last block before b absorbs it. */
  lemma BackwardIs(x: seq<Block>, b: Block, y: seq<Block>)
    requires x != [] && x[|x| - 1].free
    ensures var a := x[|x| - 1];
      Merge(x + [b] + y, |x| - 1) == x[..|x| - 1] + [Block(a.addr, a.size + 16 + b.size, true)] + y
  {
    var s, k := x + [b] + y, |x| - 1;
    assert s[..k] == x[..k] && s[k] == x[k] && s[k + 1] == b && s[k + 2..] == y;
  }

  lemma FreeRefuses(s: State, lo: nat, hi: nat, p: nat)
    requires forall i: nat :: !Holds(s.blocks, i, p)
    ensures Kfree(s, lo, hi, p) == s
  {
    var i := Freeable(s, lo, hi, p);
    if i >= 0 { assert Holds(s.blocks, i, p); }
  }

  // ----- krealloc -----

  /** The block in use at p is too small for n bytes and cannot take them from a free neighbour behind it. */
  predicate Stuck(bs: seq<Block>, i: nat, n: nat)
    requires i < |bs|
  {
    bs[i].size < n && !(i + 1 < |bs| && bs[i + 1].free && bs[i].size + 16 + bs[i + 1].size >= n)
  }

  /**
   * krealloc returns NULL exactly for a size of 0, for a NULL pointer when no free block is large enough, for a pointer
   * to no block in use, and for a block that has to move when no free block is large enough.
   */
  lemma ReallocFails(s: State, lo: nat, hi: nat, p: nat, size: u32)
    requires Sound(s, lo, hi) && MayRealloc(s, p, size)
    ensures Krealloc(s, lo, hi, p, size).1 == 0 <==>
      || size == 0
      || (p == 0 && NothingFits(s.blocks, AlignUp(size)))
      || (p != 0 && forall i: nat :: Holds(s.blocks, i, p) ==>
            Stuck(s.blocks, i, AlignUp(size)) && NothingFits(s.blocks, AlignUp(size)))
  {
    if size == 0 {
    } else if p == 0 {
      MallocNull(s, lo, hi, size);
    } else {
      FoundHolds(s.blocks, lo, hi, p);
      AlignUpExact(AlignUp(size));
      var i := Find(s.blocks, p - HEADER, 0);
      hide Tiled, Kmalloc, Kfree, AlignUp, Split, Grow, Find, Mult8, Wrap32;
      if i >= 0 && !s.blocks[i].free && MustMove(s.blocks, i, AlignUp(size)) { MallocNull(s, lo, hi, AlignUp(size)); }
    }
  }

  /** Of NULL krealloc is kmalloc, and to size 0 it is kfree. */
  lemma ReallocEdges(s: State, lo: nat, hi: nat, p: nat, size: u32)
    requires MayRealloc(s, p, size)
    ensures p == 0 ==> MayMalloc(s, size) && Krealloc(s, lo, hi, p, size) == Kmalloc(s, size)
    ensures p != 0 && size == 0 ==> Krealloc(s, lo, hi, p, size) == (Kfree(s, lo, hi, p), 0)
  {
  }

  /** The search by payload finds the one block in use at p, if there is one. */
  lemma FoundHolds(bs: seq<Block>, lo: nat, hi: nat, p: nat)
    requires Tiled(bs, lo, hi) && p != 0
    ensures var f := Find(bs, p - HEADER, 0);
      forall i: nat :: Holds(bs, i, p) <==> f == i && !bs[i].free
  {
    AllOrdered(bs, lo, hi);
  }

  /**
   * A block large enough is cut in place, if 80 bytes more are there; one that can take them grows over its neighbour
   * and gives back what is too much; any other is moved by kmalloc and kfree. In place hint and counters stay.
   */
  lemma ReallocLeaves(s: State, lo: nat, hi: nat, p: nat, size: u32, i: nat)
    requires Sound(s, lo, hi) && MayRealloc(s, p, size) && size != 0 && p != 0 && Holds(s.blocks, i, p)
    ensures var (t, q) := Krealloc(s, lo, hi, p, size);
      var (bs, n) := (s.blocks, AlignUp(size));
      if n <= bs[i].size then
        q == p && t == s.(blocks := bs[..i] + Cut(bs[i].addr, bs[i].size, n, false) + bs[i + 1..])
      else if !Stuck(bs, i, n) then
        && q == p
        && t == s.(blocks := bs[..i] + Cut(bs[i].addr, bs[i].size + 16 + bs[i + 1].size, n, false) + bs[i + 2..])
      else
        && MayMalloc(s, n) && q == Kmalloc(s, n).1
        && t == if q == 0 then Kmalloc(s, n).0 else Kfree(Kmalloc(s, n).0, lo, hi, p)
  {
    var bs, n := s.blocks, AlignUp(size);
    hide *;
    ReallocIsResize(s, lo, hi, p, size, i);
    ResizeLeaves(s, lo, hi, p, i, n);
  }

  lemma ReallocIsResize(s: State, lo: nat, hi: nat, p: nat, size: u32, i: nat)
    requires Sound(s, lo, hi) && MayRealloc(s, p, size) && size != 0 && p != 0 && Holds(s.blocks, i, p)
    ensures i < |s.blocks| && !s.blocks[i].free
    ensures MustMove(s.blocks, i, AlignUp(size)) ==> HintOk(s.blocks, s.hint)
    ensures Krealloc(s, lo, hi, p, size) == Resize(s, lo, hi, p, i, AlignUp(size))
  {
    FoundHolds(s.blocks, lo, hi, p);
    hide Tiled, Resize, AlignUp, Find;
  }

  lemma ResizeLeaves(s: State, lo: nat, hi: nat, p: nat, i: nat, n: u32)
    requires i < |s.blocks| && !s.blocks[i].free && (MustMove(s.blocks, i, n) ==> HintOk(s.blocks, s.hint))
    ensures var (t, q) := Resize(s, lo, hi, p, i, n);
      var bs := s.blocks;
      if n <= bs[i].size then
        q == p && t == s.(blocks := bs[..i] + Cut(bs[i].addr, bs[i].size, n, false) + bs[i + 1..])
      else if !Stuck(bs, i, n) then
        && q == p
        && t == s.(blocks := bs[..i] + Cut(bs[i].addr, bs[i].size + 16 + bs[i + 1].size, n, false) + bs[i + 2..])
      else
        && MayMalloc(s, n) && q == Kmalloc(s, n).1
        && t == if q == 0 then Kmalloc(s, n).0 else Kfree(Kmalloc(s, n).0, lo, hi, p)
  {
    hide Kmalloc, Kfree, Split, Grow, Cut, HintOk;
    SplitIs(s.blocks, i, n);
    if s.blocks[i].size < n && !Stuck(s.blocks, i, n) { GrowIs(s.blocks, i, n); }
  }

  lemma GrowIs(bs: seq<Block>, i: nat, n: nat)
    requires i + 1 < |bs|
    ensures Grow(bs, i, n) == bs[..i] + Cut(bs[i].addr, bs[i].size + 16 + bs[i + 1].size, n, bs[i].free) + bs[i + 2..]
  {
    var b := Block(bs[i].addr, bs[i].size + HEADER + bs[i + 1].size, bs[i].free);
    var m := bs[..i] + [b] + bs[i + 2..];
    assert Merge(bs, i) == m && m[..i] == bs[..i] && m[i] == b && m[i + 1..] == bs[i + 2..];
    hide Merge, Split, Cut;
    SplitIs(m, i, n);
  }
}
