/** Physical page allocation: one byte per page and a search hint. */
module PageSpec {
  import opened Bytes

  const PAGE_SIZE: nat := 4096
  const MAX_PAGES: nat := 262144
  const HEAP_PAGE_COUNT: nat := 4096

  /** A page is free when its byte is zero. */
  datatype Pages = Pages(bitmap: seq<byte>, hint: nat)

  predicate Wf(s: Pages) { |s.bitmap| == MAX_PAGES && s.hint < MAX_PAGES }

  /** Every page below the hint is in use. */
  ghost predicate Inv(s: Pages) { Wf(s) && forall i :: 0 <= i < s.hint ==> s.bitmap[i] != 0 }

  // ----- marking ranges and the memory map -----

  /** Whether marking count pages from start reaches page i; the 64-bit end may wrap. */
  predicate Covers(start: u64, count: u64, i: nat)
  {
    start <= i < MAX_PAGES && i < ((start as int) + (count as int)) % TWO64
  }

  function Mark(b: seq<byte>, start: u64, count: u64, v: byte): (r: seq<byte>)
    ensures |r| == |b|
  {
    seq<byte>(|b|, i requires 0 <= i < |b| => if Covers(start, count, i) then v else b[i])
  }

  /** A range is marked in full, up to the last page, exactly when its end does not wrap. */
  lemma CoversExact(start: u64, count: u64)
    ensures (forall i: nat :: i < MAX_PAGES ==>
               (Covers(start, count, i) <==> start <= i < (start as int) + (count as int)))
       <==> (start >= MAX_PAGES || (start as int) + (count as int) < TWO64)
  {
    if start < MAX_PAGES && (start as int) + (count as int) >= TWO64 {
      assert !Covers(start, count, start);
    }
  }

  /** A range of 2^64 - 1 pages from page 1 on: its end wraps to 0 and not one page is marked. */
  lemma WrappedRangeExample(i: nat)
    ensures !Covers(1, 0xFFFF_FFFF_FFFF_FFFF, i)
  {
  }

  datatype Descriptor = Descriptor(kind: u32, start: u64, count: u64)

  predicate Usable(kind: u32) { kind == 1 || kind == 2 || kind == 3 || kind == 4 || kind == 7 }

  /** The map's descriptors applied in order to bitmap b. */
  function MarkUsable(b: seq<byte>, ds: seq<Descriptor>): (r: seq<byte>)
    ensures |r| == |b|
  {
    if ds == [] then b
    else
      var d, b' := ds[|ds| - 1], MarkUsable(b, ds[..|ds| - 1]);
      if Usable(d.kind) then Mark(b', d.start / PAGE_SIZE, d.count, 0) else b'
  }

  function AllUsed(): (b: seq<byte>)
    ensures |b| == MAX_PAGES
  {
    seq<byte>(MAX_PAGES, i => 1)
  }

  function InitMap(ds: seq<Descriptor>, startPage: u32): (b: seq<byte>)
    ensures |b| == MAX_PAGES
  {
    Mark(MarkUsable(AllUsed(), ds), 0, (startPage as int) + HEAP_PAGE_COUNT, 1)
  }

  ghost predicate Covered(ds: seq<Descriptor>, i: nat)
  {
    exists k :: 0 <= k < |ds| && Usable(ds[k].kind) && Covers(ds[k].start / PAGE_SIZE, ds[k].count, i)
  }

  /** The pages that may ever be handed out: usable, and not below the end of the kernel heap. */
  ghost function Available(ds: seq<Descriptor>, startPage: u32): (r: set<nat>)
  {
    set i: nat | i < MAX_PAGES && i >= startPage + HEAP_PAGE_COUNT && Covered(ds, i)
  }

  lemma {:induction false} UsableIsFree(ds: seq<Descriptor>, i: nat)
    requires i < MAX_PAGES
    ensures MarkUsable(AllUsed(), ds)[i] == 0 <==> Covered(ds, i)
  {
    if ds != [] {
      var n := |ds| - 1;
      UsableIsFree(ds[..n], i);
      CoveredStep(ds, i);
    }
  }

  lemma CoveredStep(ds: seq<Descriptor>, i: nat)
    requires ds != []
    ensures var n := |ds| - 1;
      Covered(ds, i) <==> Covered(ds[..n], i) || (Usable(ds[n].kind) && Covers(ds[n].start / PAGE_SIZE, ds[n].count, i))
  {
  }

  /** After set-up the free pages are exactly the available ones. */
  lemma InitFree(ds: seq<Descriptor>, startPage: u32, i: nat)
    requires i < MAX_PAGES
    ensures InitMap(ds, startPage)[i] == 0 <==> i in Available(ds, startPage)
  {
    UsableIsFree(ds, i);
  }

  /** Descriptor types 1 to 4 and 7: loader code and data, boot-services code and data, conventional memory. */
  predicate Frees(d: Descriptor, i: nat)
  {
    d.kind in {1, 2, 3, 4, 7} && d.start / 4096 <= i < (d.start / 4096 + (d.count as int)) % 0x1_0000_0000_0000_0000
  }

  /**
   * Page i is free after set-up exactly when it is 4096 pages or more above the heap's start and a descriptor frees it.
   */
  lemma InitFreeExact(ds: seq<Descriptor>, startPage: u32, i: nat)
    requires i < 262144
    ensures InitMap(ds, startPage)[i] == 0 <==> i >= startPage + 4096 && exists k :: 0 <= k < |ds| && Frees(ds[k], i)
  {
    InitFree(ds, startPage, i);
    hide InitMap;
    if k :| 0 <= k < |ds| && Frees(ds[k], i) {
      assert Usable(ds[k].kind) && Covers(ds[k].start / PAGE_SIZE, ds[k].count, i);
    }
    if Covered(ds, i) {
      var k :| 0 <= k < |ds| && Usable(ds[k].kind) && Covers(ds[k].start / PAGE_SIZE, ds[k].count, i);
      assert Frees(ds[k], i);
    }
  }

  // ----- allocation -----

  function Position(hint: nat, offset: nat): (i: nat)
    requires hint < MAX_PAGES && offset < MAX_PAGES
    ensures i == if hint + offset < MAX_PAGES then hint + offset else hint + offset - MAX_PAGES
  {
    (hint + offset) % MAX_PAGES
  }

  /** The circular scan from the hint, after offset pages were found in use. */
  function Scan(s: Pages, offset: nat): (r: Option<nat>)
    requires Wf(s) && offset <= MAX_PAGES
    decreases MAX_PAGES - offset
  {
    if offset == MAX_PAGES then None
    else if s.bitmap[Position(s.hint, offset)] == 0 then Some(Position(s.hint, offset))
    else Scan(s, offset + 1)
  }

  function Grant(s: Pages, i: nat): (t: Pages)
    requires Wf(s) && i < MAX_PAGES
  {
    Pages(s.bitmap[i := 1], Position(i, 1))
  }

  function AllocPage(s: Pages): (r: (Pages, Option<nat>))
    requires Wf(s)
    ensures Wf(r.0)
  {
    match Scan(s, 0)
    case None => (s, None)
    case Some(i) => if i < MAX_PAGES then (Grant(s, i), Some(PAGE_SIZE * i)) else (s, None)
  }

  function FreePage(s: Pages, addr: u64): (t: Pages)
    requires Wf(s)
    ensures Wf(t)
  {
    var i := addr / PAGE_SIZE;
    if addr == 0 || i >= MAX_PAGES then s
    else Pages(s.bitmap[i := 0], if i < s.hint then i else s.hint)
  }

  /**
   * Any address in a page frees that page and nothing else; NULL, and what is past the first gigabyte, frees nothing.
   */
  lemma FreeEffect(s: Pages, addr: u64)
    requires Wf(s)
    ensures var t := FreePage(s, addr);
      && (addr == 0 || addr >= 0x4000_0000 ==> t == s)
      && (0 < addr < 0x4000_0000 ==>
            && |t.bitmap| == |s.bitmap| && t.hint == Min(s.hint, addr / 4096)
            && forall i :: 0 <= i < |s.bitmap| ==> t.bitmap[i] == if i == addr / 4096 then 0 else s.bitmap[i])
  {
  }

  ghost predicate NoFree(b: seq<byte>) { forall i :: 0 <= i < |b| ==> b[i] != 0 }

  ghost predicate LowestFree(b: seq<byte>, i: nat) { i < |b| && b[i] == 0 && forall j :: 0 <= j < i ==> b[j] != 0 }

  /** From whatever hint, the scan misses no free page. */
  lemma {:induction false} ScanComplete(s: Pages, offset: nat, i: nat)
    requires Wf(s) && offset <= MAX_PAGES && i < MAX_PAGES
    requires Scan(s, offset) == None && forall k: nat :: k < offset ==> s.bitmap[Position(s.hint, k)] != 0
    ensures s.bitmap[i] != 0
    decreases MAX_PAGES - offset
  {
    if offset == MAX_PAGES {
      assert i == Position(s.hint, if i >= s.hint then i - s.hint else i + MAX_PAGES - s.hint);
    } else {
      ScanComplete(s, offset + 1, i);
    }
  }

  /** Past the wrap everything is in use. */
  lemma {:induction false} ScanWrapped(s: Pages, offset: nat)
    requires Inv(s) && MAX_PAGES - s.hint <= offset <= MAX_PAGES
    ensures Scan(s, offset) == None
    decreases MAX_PAGES - offset
  {
    if offset < MAX_PAGES {
      ScanWrapped(s, offset + 1);
    }
  }

  lemma {:induction false} ScanFrom(s: Pages, offset: nat)
    requires Inv(s) && s.hint + offset <= MAX_PAGES && forall i :: 0 <= i < s.hint + offset ==> s.bitmap[i] != 0
    ensures match Scan(s, offset) case None => NoFree(s.bitmap) case Some(i) => LowestFree(s.bitmap, i)
    decreases MAX_PAGES - offset
  {
    if s.hint + offset == MAX_PAGES {
      ScanWrapped(s, offset);
    } else if s.bitmap[s.hint + offset] != 0 {
      ScanFrom(s, offset + 1);
    }
  }

  /** The hinted circular scan refines "the lowest free page". */
  lemma AllocLowest(s: Pages)
    requires Inv(s)
    ensures Inv(AllocPage(s).0)
    ensures match AllocPage(s).1
      case None => AllocPage(s).0 == s && NoFree(s.bitmap)
      case Some(a) => exists i: nat ::
        a == PAGE_SIZE * i && LowestFree(s.bitmap, i) && AllocPage(s).0.bitmap == s.bitmap[i := 1]
  {
    ScanFrom(s, 0);
  }

  /** The page handed out is marked, no other changes, and the next search starts behind it. */
  lemma AllocEffect(s: Pages)
    requires Wf(s) && AllocPage(s).1.Some?
    ensures var (t, a) := (AllocPage(s).0, AllocPage(s).1.value);
      && a % 4096 == 0 && a / 4096 < 262144 && s.bitmap[a / 4096] == 0
      && t.bitmap == s.bitmap[a / 4096 := 1] && t.hint == (a / 4096 + 1) % 262144
  {
    ScanFrees(s, 0);
    var i := Scan(s, 0).value;
    hide Scan;
    DivMod(4096 * i, 4096, i, 0);
  }

  lemma {:induction false} ScanFrees(s: Pages, offset: nat)
    requires Wf(s) && offset <= MAX_PAGES
    ensures Scan(s, offset).Some? ==> Scan(s, offset).value < MAX_PAGES && s.bitmap[Scan(s, offset).value] == 0
    decreases MAX_PAGES - offset
  {
    if offset < MAX_PAGES && s.bitmap[Position(s.hint, offset)] != 0 { ScanFrees(s, offset + 1); }
  }

  lemma FreeKeepsInv(s: Pages, addr: u64)
    requires Inv(s)
    ensures Inv(FreePage(s, addr))
  {
  }

  // ----- runs, against a set of pages -----

  datatype Call = Alloc | Free(addr: u64)

  ghost function Least(S: set<nat>): (m: nat)
    requires S != {}
    ensures m in S && forall x :: x in S ==> m <= x
  {
    var x :| x in S;
    if S == {x} then x
    else
      var m := Least(S - {x});
      assert forall y :: y in S ==> y == x || y in S - {x};
      if m < x then m else x
  }

  /** The reference: pages in a set, the lowest one not held is handed out. */
  ghost function SimpleStep(avail: set<nat>, held: set<nat>, op: Call): (r: (set<nat>, Option<nat>))
  {
    match op
    case Alloc =>
      if avail - held == {} then (held, None)
      else (held + {Least(avail - held)}, Some(PAGE_SIZE * Least(avail - held)))
    case Free(a) => (held - {a / PAGE_SIZE}, None)
  }

  function Step(s: Pages, op: Call): (r: (Pages, Option<nat>))
    requires Wf(s)
    ensures Wf(r.0)
  {
    match op
    case Alloc => AllocPage(s)
    case Free(a) => (FreePage(s, a), None)
  }

  /** Clients free only pages they hold; freeing NULL is always allowed. */
  ghost predicate MayCall(held: set<nat>, op: Call)
  {
    op.Alloc? || op.addr == 0 || (op.addr % PAGE_SIZE == 0 && op.addr / PAGE_SIZE in held)
  }

  ghost predicate Legal(avail: set<nat>, held: set<nat>, ops: seq<Call>)
    decreases |ops|
  {
    ops == [] || (MayCall(held, ops[0]) && Legal(avail, SimpleStep(avail, held, ops[0]).0, ops[1..]))
  }

  function Run(s: Pages, ops: seq<Call>): (r: (Pages, seq<Option<nat>>))
    requires Wf(s)
    ensures |r.1| == |ops|
    decreases |ops|
  {
    if ops == [] then (s, [])
    else
      var (t, o) := Step(s, ops[0]);
      var (u, os) := Run(t, ops[1..]);
      (u, [o] + os)
  }

  ghost function SimpleRun(avail: set<nat>, held: set<nat>, ops: seq<Call>): (r: (set<nat>, seq<Option<nat>>))
    ensures |r.1| == |ops|
    decreases |ops|
  {
    if ops == [] then (held, [])
    else
      var (h, o) := SimpleStep(avail, held, ops[0]);
      var (u, os) := SimpleRun(avail, h, ops[1..]);
      (u, [o] + os)
  }

  /** The bitmap's free pages are the available ones not held; page 0 is never available. */
  ghost predicate Match(avail: set<nat>, held: set<nat>, s: Pages)
  {
    && Inv(s) && held <= avail && (forall i :: i in avail ==> 0 < i < MAX_PAGES)
    && forall i: nat :: i < MAX_PAGES ==> (s.bitmap[i] == 0 <==> i in avail - held)
  }

  lemma BootMatches(ds: seq<Descriptor>, startPage: u32)
    ensures Match(Available(ds, startPage), {}, Pages(InitMap(ds, startPage), 0))
  {
    forall i: nat | i < MAX_PAGES
      ensures InitMap(ds, startPage)[i] == 0 <==> i in Available(ds, startPage)
    {
      InitFree(ds, startPage, i);
    }
  }

  lemma AllocRefines(avail: set<nat>, held: set<nat>, s: Pages)
    requires Match(avail, held, s)
    ensures AllocPage(s).1 == SimpleStep(avail, held, Alloc).1
    ensures Match(avail, SimpleStep(avail, held, Alloc).0, AllocPage(s).0)
  {
    AllocLowest(s);
    hide Scan;
    if avail - held == {} {
      assert NoFree(s.bitmap);
    } else {
      var m := Least(avail - held);
      assert s.bitmap[m] == 0;
    }
  }

  lemma FreeRefines(avail: set<nat>, held: set<nat>, s: Pages, a: u64)
    requires Match(avail, held, s) && MayCall(held, Free(a))
    ensures Match(avail, held - {a / PAGE_SIZE}, FreePage(s, a))
  {
  }

  /** Over every run of well-behaved clients the allocator answers as the reference does. */
  lemma {:induction false} RunRefines(avail: set<nat>, held: set<nat>, s: Pages, ops: seq<Call>)
    requires Match(avail, held, s) && Legal(avail, held, ops)
    ensures Run(s, ops).1 == SimpleRun(avail, held, ops).1
    ensures Match(avail, SimpleRun(avail, held, ops).0, Run(s, ops).0)
    decreases |ops|
  {
    assert Wf(s);
    hide Match;
    if ops != [] {
      if ops[0].Alloc? {
        AllocRefines(avail, held, s);
      } else {
        FreeRefines(avail, held, s, ops[0].addr);
      }
      assert Wf(Step(s, ops[0]).0);
      hide AllocPage, FreePage;
      RunRefines(avail, SimpleStep(avail, held, ops[0]).0, Step(s, ops[0]).0, ops[1..]);
    }
  }

  /** A held page is not handed out again before it is freed. */
  lemma {:induction false} HeldUntilFreed(avail: set<nat>, held: set<nat>, ops: seq<Call>, i: nat, l: nat)
    requires Legal(avail, held, ops) && l < |ops| && i in held && held <= avail
    requires 0 < PAGE_SIZE * i < TWO64 && forall j :: 0 <= j < l ==> ops[j] != Free(PAGE_SIZE * i)
    ensures SimpleRun(avail, held, ops).1[l] != Some(PAGE_SIZE * i)
    decreases |ops|
  {
    if l > 0 {
      var h := SimpleStep(avail, held, ops[0]).0;
      assert i in h;
      forall j | 0 <= j < l - 1 ensures ops[1..][j] != Free(PAGE_SIZE * i) { assert ops[1..][j] == ops[j + 1]; }
      HeldUntilFreed(avail, h, ops[1..], i, l - 1);
    }
  }

  /**
   * From boot, in every run of well-behaved clients: what is handed out is an available page, so never
   * below the end of the heap and never NULL, and no page is handed out twice without a free between.
   */
  lemma {:induction false} GrantsAreSafe(avail: set<nat>, held: set<nat>, ops: seq<Call>, k: nat)
    requires Legal(avail, held, ops) && k < |ops| && held <= avail && SimpleRun(avail, held, ops).1[k].Some?
    requires forall i :: i in avail ==> 0 < i < MAX_PAGES
    ensures exists i :: i in avail && SimpleRun(avail, held, ops).1[k] == Some(PAGE_SIZE * i)
    ensures forall l :: k < l < |ops| && SimpleRun(avail, held, ops).1[l] == SimpleRun(avail, held, ops).1[k] ==>
      exists j :: k < j < l && ops[j] == Free(SimpleRun(avail, held, ops).1[k].value)
    decreases |ops|
  {
    var h := SimpleStep(avail, held, ops[0]).0;
    var os, os' := SimpleRun(avail, held, ops).1, SimpleRun(avail, h, ops[1..]).1;
    if k == 0 {
      var i := Least(avail - held);
      forall l | 0 < l < |ops| && os[l] == os[0] ensures exists j :: 0 < j < l && ops[j] == Free(os[0].value) {
        if forall j :: 0 < j < l ==> ops[j] != Free(os[0].value) {
          forall j | 0 <= j < l - 1 ensures ops[1..][j] != Free(PAGE_SIZE * i) { assert ops[1..][j] == ops[j + 1]; }
          assert os[l] == os'[l - 1];
          HeldUntilFreed(avail, h, ops[1..], i, l - 1);
          assert false;
        }
      }
    } else {
      GrantsAreSafe(avail, h, ops[1..], k - 1);
      forall l | k < l < |ops| && os[l] == os[k] ensures exists j :: k < j < l && ops[j] == Free(os[k].value) {
        assert os'[l - 1] == os'[k - 1];
        var j :| k - 1 < j < l - 1 && ops[1..][j] == Free(os'[k - 1].value);
        assert ops[j + 1] == Free(os[k].value);
      }
    }
  }

  /** The two together, from set-up. */
  lemma BootRunsAreSafe(ds: seq<Descriptor>, startPage: u32, ops: seq<Call>, k: nat)
    requires Legal(Available(ds, startPage), {}, ops) && k < |ops|
    requires Run(Pages(InitMap(ds, startPage), 0), ops).1[k].Some?
    ensures var os := Run(Pages(InitMap(ds, startPage), 0), ops).1; var a := os[k].value;
      && a % PAGE_SIZE == 0 && a / PAGE_SIZE in Available(ds, startPage)
      && forall l :: k < l < |ops| && os[l] == os[k] ==> exists j :: k < j < l && ops[j] == Free(a)
  {
    hide InitMap, Available, Match, Run, SimpleRun, Legal;
    BootMatches(ds, startPage);
    var avail, s := Available(ds, startPage), Pages(InitMap(ds, startPage), 0);
    RunRefines(avail, {}, s, ops);
    GrantsAreSafe(avail, {}, ops, k);
  }
}
