/** Whole runs of the heap: every sequence of kmalloc, kcalloc, krealloc, kfree and writes by clients. */
module HeapRuns {
  import opened Bytes
  import opened HeapList
  import opened HeapSpec
  import opened HeapRealloc

  /** What clients do: the four calls, and writing into memory they were given. */
  datatype Op = Malloc(size: u32) | Calloc(num: u32, size: u32) | Realloc(ptr: nat, size: u32) | Free(ptr: nat)
              | Store(ptr: nat, at: nat, data: seq<byte>)

  /** The size kmalloc is asked for, 0 when kcalloc refuses it. */
  function Request(op: Op): (r: u32)
    requires op.Malloc? || op.Calloc?
  {
    match op
    case Malloc(size) => size
    case Calloc(num, size) => CallocSize(num, size)
  }

  /** The call looks for a free block, from the hint on. */
  predicate Searches(s: State, op: Op)
  {
    match op
    case Realloc(ptr, size) => ReallocSearches(s, ptr, size)
    case Free(_) => false
    case Store(_, _, _) => false
    case _ => Request(op) != 0
  }

  /** A hint off the list stops only the calls that search. */
  ghost predicate MayCall(s: State, op: Op) { s.blocks != [] && (Searches(s, op) ==> HintOk(s.blocks, s.hint)) }

  function Granted(live: map<nat, u32>, p: nat, size: u32): (r: map<nat, u32>)
  {
    if p == 0 then live else live[p := size]
  }

  /** The ledger after krealloc(ptr, size) returned p. */
  function Resized(live: map<nat, u32>, ptr: nat, size: u32, p: nat): (r: map<nat, u32>)
  {
    if ptr == 0 then Granted(live, p, size)
    else if size == 0 then live - {ptr}
    else if p == 0 then live
    else (live - {ptr})[p := size]
  }

  /** One operation on the heap state and on the client's ledger of live pointers and requested sizes. */
  function Step(s: State, live: map<nat, u32>, lo: nat, hi: nat, op: Op): (r: (State, map<nat, u32>))
    requires MayCall(s, op)
  {
    match op
    case Free(ptr) => (Kfree(s, lo, hi, ptr), live - {ptr})
    case Store(_, _, _) => (s, live)
    case Realloc(ptr, size) =>
      var (t, p) := Krealloc(s, lo, hi, ptr, size);
      (t, Resized(live, ptr, size, p))
    case _ =>
      var (t, p) := Kmalloc(s, Request(op));
      (t, Granted(live, p, Request(op)))
  }

  /** kcalloc's zeroing stays inside its block; see CallocRoom. */
  predicate InBounds(op: Op) { op.Calloc? ==> CallocOverflows(op.num, op.size) || op.num * op.size <= 0xFFFF_FFF8 }

  /** Clients write only inside live allocations, as far as they asked for, with requests that do not wrap. */
  predicate MayStore(live: map<nat, u32>, op: Op)
  {
    op.Store? ==> op.ptr in live && live[op.ptr] <= 0xFFFF_FFF8 && op.at + |op.data| <= live[op.ptr]
  }

  ghost predicate UsedAt(used: set<Block>, p: nat)
  {
    exists b :: b in used && b.Payload() == p
  }

  /** The blocks in use are exactly the live allocations, each at least as large as the aligned request. */
  ghost predicate LedgerOk(used: set<Block>, live: map<nat, u32>)
  {
    && (forall b :: b in used ==> b.Payload() in live && AlignUp(live[b.Payload()]) <= b.size)
    && (forall p :: p in live ==> UsedAt(used, p))
  }

  lemma LedgerAdd(used: set<Block>, live: map<nat, u32>, c: Block, size: u32)
    requires LedgerOk(used, live) && AlignUp(size) <= c.size
    requires forall b :: b in used ==> b.addr != c.addr
    ensures LedgerOk(used + {c}, live[c.Payload() := size])
  {
  }

  lemma LedgerRemove(used: set<Block>, live: map<nat, u32>, c: Block)
    requires LedgerOk(used, live) && forall b :: b in used - {c} ==> b.addr != c.addr
    ensures LedgerOk(used - {c}, live - {c.Payload()})
  {
  }

  lemma MallocKeepsLedger(s: State, live: map<nat, u32>, lo: nat, hi: nat, size: u32)
    requires Sound(s, lo, hi) && MayMalloc(s, size) && LedgerOk(UsedSet(s.blocks), live)
    ensures var (t, p) := Kmalloc(s, size); LedgerOk(UsedSet(t.blocks), Granted(live, p, size))
  {
    var (t, p) := Kmalloc(s, size);
    hide Kmalloc, Tiled, LedgerOk, AlignUp, UsedSet, HintOk, Mult8, Wrap32;
    if p == 0 { MallocNull(s, lo, hi, size); return; }
    var i := MallocGives(s, lo, hi, size);
    LedgerAdd(UsedSet(s.blocks), live, t.blocks[i], size);
  }

  lemma FreeKeepsLedger(s: State, live: map<nat, u32>, lo: nat, hi: nat, p: nat)
    requires Sound(s, lo, hi) && LedgerOk(UsedSet(s.blocks), live)
    ensures LedgerOk(UsedSet(Kfree(s, lo, hi, p).blocks), live - {p})
  {
    hide Tiled, Release, UsedSet, Find, AlignUp, Mult8, Wrap32;
    var i := Freeable(s, lo, hi, p);
    if i < 0 {
      if p in live {
        var b :| b in UsedSet(s.blocks) && b.Payload() == p;
        UsedIsFreeable(s, lo, hi, b);
      }
      assert live - {p} == live;
    } else {
      ReleaseEffect(s.blocks, lo, hi, i);
      UsedApart(s.blocks, lo, hi, i);
      LedgerRemove(UsedSet(s.blocks), live, s.blocks[i]);
    }
  }

  lemma ReallocKeepsLedger(s: State, live: map<nat, u32>, lo: nat, hi: nat, ptr: nat, size: u32)
    requires Sound(s, lo, hi) && MayRealloc(s, ptr, size) && LedgerOk(UsedSet(s.blocks), live)
    ensures var (t, p) := Krealloc(s, lo, hi, ptr, size); LedgerOk(UsedSet(t.blocks), Resized(live, ptr, size, p))
  {
    hide Kmalloc, Kfree, Resize, LedgerOk, AlignUp, UsedSet, HintOk, Tiled, Mult8, Wrap32;
    if ptr == 0 { MallocKeepsLedger(s, live, lo, hi, size); return; }
    if size == 0 { FreeKeepsLedger(s, live, lo, hi, ptr); return; }
    if Krealloc(s, lo, hi, ptr, size).1 == 0 {
      ReallocNull(s, lo, hi, ptr, size);
    } else {
      ReplaceKeepsLedger(s, live, lo, hi, ptr, size);
    }
  }

  lemma ReplaceKeepsLedger(s: State, live: map<nat, u32>, lo: nat, hi: nat, ptr: nat, size: u32)
    requires Sound(s, lo, hi) && MayRealloc(s, ptr, size) && LedgerOk(UsedSet(s.blocks), live)
    requires ptr != 0 && Krealloc(s, lo, hi, ptr, size).1 != 0
    ensures var (t, p) := Krealloc(s, lo, hi, ptr, size); LedgerOk(UsedSet(t.blocks), (live - {ptr})[p := size])
  {
    hide Krealloc, LedgerOk, AlignUp, UsedSet, HintOk, Tiled, Mult8, Wrap32;
    var b, c := ReallocGives(s, lo, hi, ptr, size);
    LedgerRemove(UsedSet(s.blocks), live, b);
    LedgerAdd(UsedSet(s.blocks) - {b}, live - {ptr}, c, size);
  }

  /** Every operation keeps the list sound and the ledger right. */
  lemma StepKeeps(s: State, live: map<nat, u32>, lo: nat, hi: nat, op: Op)
    requires Sound(s, lo, hi) && MayCall(s, op) && LedgerOk(UsedSet(s.blocks), live) && InBounds(op)
    ensures var (t, live') := Step(s, live, lo, hi, op);
      Sound(t, lo, hi) && t.blocks != [] && LedgerOk(UsedSet(t.blocks), live')
  {
    StepKeepsSound(s, live, lo, hi, op);
    hide Kmalloc, Kfree, Krealloc, Sound, LedgerOk, UsedSet, HintOk, Mult8, Wrap32;
    match op
    case Free(ptr) => FreeKeepsLedger(s, live, lo, hi, ptr);
    case Realloc(ptr, size) => ReallocKeepsLedger(s, live, lo, hi, ptr, size);
    case Store(_, _, _) =>
    case _ => MallocKeepsLedger(s, live, lo, hi, Request(op));
  }

  lemma StepKeepsSound(s: State, live: map<nat, u32>, lo: nat, hi: nat, op: Op)
    requires Sound(s, lo, hi) && MayCall(s, op)
    ensures Sound(Step(s, live, lo, hi, op).0, lo, hi) && Step(s, live, lo, hi, op).0.blocks != []
  {
    hide Kmalloc, Kfree, Krealloc, Tiled, HintOk, Mult8, Wrap32;
    match op
    case Free(ptr) =>
      FreeTiled(s, lo, hi, ptr);
      FreeKeepsTail(s, lo, hi, ptr);
    case Realloc(ptr, size) => ReallocKeepsSound(s, lo, hi, ptr, size);
    case Store(_, _, _) =>
    case _ =>
      MallocTiled(s, lo, hi, Request(op));
      TailAfterMalloc(s, Request(op));
  }

  /** The operation is one a client may perform now, and the search it may start has a hint on the list. */
  ghost predicate Allowed(s: State, live: map<nat, u32>, op: Op)
  {
    InBounds(op) && MayStore(live, op) && MayCall(s, op)
  }

  /** Every operation of the sequence is allowed when its turn comes. */
  ghost predicate Legal(s: State, live: map<nat, u32>, lo: nat, hi: nat, ops: seq<Op>)
    requires Sound(s, lo, hi) && s.blocks != [] && LedgerOk(UsedSet(s.blocks), live)
    decreases |ops|
  {
    ops == [] ||
    (&& Allowed(s, live, ops[0])
     && (StepKeeps(s, live, lo, hi, ops[0]);
         var (t, live') := Step(s, live, lo, hi, ops[0]);
         Legal(t, live', lo, hi, ops[1..])))
  }

  /** Any such sequence, from any sound state. */
  function Run(s: State, live: map<nat, u32>, lo: nat, hi: nat, ops: seq<Op>): (r: (State, map<nat, u32>))
    requires Sound(s, lo, hi) && s.blocks != [] && LedgerOk(UsedSet(s.blocks), live) && Legal(s, live, lo, hi, ops)
    ensures Sound(r.0, lo, hi) && r.0.blocks != [] && LedgerOk(UsedSet(r.0.blocks), r.1)
    decreases |ops|
  {
    if ops == [] then (s, live)
    else
      StepKeeps(s, live, lo, hi, ops[0]);
      var (t, live') := Step(s, live, lo, hi, ops[0]);
      Run(t, live', lo, hi, ops[1..])
  }

  // ----- runs that keep the whole invariant -----

  /** A krealloc that changes the size of a block in place. */
  predicate Resizes(s: State, op: Op) { op.Realloc? && ResizedInPlace(s, op.ptr, op.size) }

  /** One operation keeps the whole invariant exactly when it is not a krealloc that resizes in place. */
  lemma StepKeepsInv(s: State, live: map<nat, u32>, lo: nat, hi: nat, op: Op)
    requires Inv(s, lo, hi) && MayCall(s, op)
    ensures Inv(Step(s, live, lo, hi, op).0, lo, hi) <==> !Resizes(s, op)
  {
    hide Kmalloc, Kfree, Krealloc, ResizedInPlace, Inv, HintOk, Mult8, Wrap32;
    match op
    case Free(ptr) => FreeKeepsInv(s, lo, hi, ptr);
    case Realloc(ptr, size) => ReallocKeepsInv(s, lo, hi, ptr, size);
    case Store(_, _, _) =>
    case _ => MallocKeepsInv(s, lo, hi, Request(op));
  }

  lemma CarefulStep(s: State, live: map<nat, u32>, lo: nat, hi: nat, op: Op)
    requires Inv(s, lo, hi) && LedgerOk(UsedSet(s.blocks), live) && InBounds(op) && !Resizes(s, op)
    ensures MayCall(s, op)
    ensures var (t, live') := Step(s, live, lo, hi, op); Inv(t, lo, hi) && LedgerOk(UsedSet(t.blocks), live')
  {
    hide Inv, Sound, Step, LedgerOk, UsedSet, HintOk, Resizes, InBounds;
    InvIsSound(s, lo, hi);
    StepKeepsInv(s, live, lo, hi, op);
    StepKeeps(s, live, lo, hi, op);
  }

  /** Clients keep to their memory and no krealloc of theirs resizes in place. */
  ghost predicate Careful(s: State, live: map<nat, u32>, lo: nat, hi: nat, ops: seq<Op>)
    requires Inv(s, lo, hi) && LedgerOk(UsedSet(s.blocks), live)
    decreases |ops|
  {
    ops == [] ||
    (&& InBounds(ops[0]) && MayStore(live, ops[0]) && !Resizes(s, ops[0])
     && (CarefulStep(s, live, lo, hi, ops[0]);
         var (t, live') := Step(s, live, lo, hi, ops[0]);
         Careful(t, live', lo, hi, ops[1..])))
  }

  /** Such runs never leave the hint off the list, and keep the whole invariant. */
  lemma {:induction false} CarefulRuns(s: State, live: map<nat, u32>, lo: nat, hi: nat, ops: seq<Op>)
    requires Inv(s, lo, hi) && LedgerOk(UsedSet(s.blocks), live) && Careful(s, live, lo, hi, ops)
    ensures Sound(s, lo, hi) && s.blocks != [] && Legal(s, live, lo, hi, ops)
    ensures Inv(Run(s, live, lo, hi, ops).0, lo, hi)
    decreases |ops|
  {
    InvIsSound(s, lo, hi);
    hide Inv, Sound, Step, LedgerOk, UsedSet, HintOk, Resizes, InBounds, MayStore;
    if ops != [] {
      CarefulStep(s, live, lo, hi, ops[0]);
      StepKeeps(s, live, lo, hi, ops[0]);
      var (t, live') := Step(s, live, lo, hi, ops[0]);
      CarefulRuns(t, live', lo, hi, ops[1..]);
    }
  }

  lemma BlockOf(s: State, live: map<nat, u32>, lo: nat, hi: nat, p: nat) returns (i: nat)
    requires Sound(s, lo, hi) && LedgerOk(UsedSet(s.blocks), live) && p in live
    ensures i < |s.blocks| && s.blocks[i].Payload() == p && AlignUp(live[p]) <= s.blocks[i].size
    ensures s.blocks[i] in UsedSet(s.blocks)
    ensures Mult8(p) && lo + HEADER <= p && s.blocks[i].End() <= hi
  {
    var b :| b in UsedSet(s.blocks) && b.Payload() == p;
    i :| 0 <= i < |s.blocks| && s.blocks[i] == b;
    Inside(s.blocks, lo, hi, i);
  }

  /** A live allocation lies in the region, aligned. */
  ghost predicate Inside1(live: map<nat, u32>, lo: nat, hi: nat, p: nat)
    requires p in live
  {
    && Mult8(p) && lo + HEADER <= p && p + AlignUp(live[p]) <= hi
    && (live[p] <= 0xFFFF_FFF8 ==> live[p] <= AlignUp(live[p]))
  }

  lemma LiveInside(s: State, live: map<nat, u32>, lo: nat, hi: nat, p: nat)
    requires Sound(s, lo, hi) && LedgerOk(UsedSet(s.blocks), live) && p in live
    ensures Inside1(live, lo, hi, p)
  {
    hide Sound, LedgerOk, UsedSet, Mult8;
    var i := BlockOf(s, live, lo, hi, p);
  }

  lemma LiveApart(s: State, live: map<nat, u32>, lo: nat, hi: nat, p: nat, q: nat)
    requires Sound(s, lo, hi) && LedgerOk(UsedSet(s.blocks), live) && p in live && q in live && p < q
    ensures p + AlignUp(live[p]) <= q - HEADER
  {
    assert Tiled(s.blocks, lo, hi);
    hide Sound, LedgerOk, UsedSet, Tiled, AlignUp, Mult8;
    var i := BlockOf(s, live, lo, hi, p);
    var j := BlockOf(s, live, lo, hi, q);
    if j < i { Ordered(s.blocks, lo, hi, j, i); } else { Ordered(s.blocks, lo, hi, i, j); }
  }

  lemma LedgerSafe(s: State, live: map<nat, u32>, lo: nat, hi: nat)
    requires Sound(s, lo, hi) && LedgerOk(UsedSet(s.blocks), live)
    ensures forall p :: p in live ==> Inside1(live, lo, hi, p)
    ensures forall p, q :: p in live && q in live && p < q ==> p + AlignUp(live[p]) <= q - HEADER
  {
    hide *;
    forall p | p in live ensures Inside1(live, lo, hi, p) { LiveInside(s, live, lo, hi, p); }
    forall p, q | p in live && q in live && p < q
      ensures p + AlignUp(live[p]) <= q - HEADER
    {
      LiveApart(s, live, lo, hi, p, q);
    }
  }

  lemma CountsExact(s: State, lo: nat, hi: nat)
    requires Inv(s, lo, hi)
    ensures Wrap32(s.totalAlloc - s.totalFreed) == UsedSum(s.blocks)
  {
  }

  ghost predicate BootOk(lo: nat, hi: nat) { 0 < lo && Mult8(lo) && Mult8(hi) && lo + HEADER < hi < lo + TWO32 }

  /**
   * After every run from memory_init: live allocations are 8-aligned, inside the region, pairwise disjoint, and at
   * least as large as requested for every request that does not wrap, and no byte of the region is lost.
   */
  lemma RunsAreSafe(lo: nat, hi: nat, ops: seq<Op>)
    requires BootOk(lo, hi) && Legal(Boot(lo, hi), map[], lo, hi, ops)
    ensures var (s, live) := Run(Boot(lo, hi), map[], lo, hi, ops);
      && (forall p :: p in live ==> Inside1(live, lo, hi, p))
      && (forall p, q :: p in live && q in live && p < q ==> p + AlignUp(live[p]) <= q - HEADER)
      && FreeSum(s.blocks) + UsedSum(s.blocks) + HEADER * |s.blocks| == hi - lo
  {
    var (s, live) := Run(Boot(lo, hi), map[], lo, hi, ops);
    assert Tiled(s.blocks, lo, hi);
    hide *;
    LedgerSafe(s, live, lo, hi);
    Conservation(s.blocks, lo, hi);
  }

  /** If moreover no krealloc resizes in place, the whole invariant holds and the used counter is exact. */
  lemma RunsCountExactly(lo: nat, hi: nat, ops: seq<Op>)
    requires BootOk(lo, hi) && Careful(Boot(lo, hi), map[], lo, hi, ops)
    ensures Legal(Boot(lo, hi), map[], lo, hi, ops)
    ensures var s := Run(Boot(lo, hi), map[], lo, hi, ops).0;
      Inv(s, lo, hi) && Wrap32(s.totalAlloc - s.totalFreed) == UsedSum(s.blocks)
  {
    CarefulRuns(Boot(lo, hi), map[], lo, hi, ops);
    var s := Run(Boot(lo, hi), map[], lo, hi, ops).0;
    hide *;
    CountsExact(s, lo, hi);
  }

  // ----- requests that wrap -----

  /** The block handed out has room for the request exactly when rounding the request up does not wrap. */
  lemma MallocRoom(s: State, lo: nat, hi: nat, size: u32) returns (i: nat)
    requires Inv(s, lo, hi) && Kmalloc(s, size).1 != 0
    ensures var (t, p) := Kmalloc(s, size);
      && i < |t.blocks| && t.blocks[i].Payload() == p && (size <= t.blocks[i].size <==> size <= 0xFFFF_FFF8)
      && (p + size <= hi <==> size <= 0xFFFF_FFF8)
  {
    assert s.blocks != [];
    hide Kmalloc, Tiled, UsedSet;
    i := MallocGives(s, lo, hi, size);
    Inside(Kmalloc(s, size).0.blocks, lo, hi, i);
  }

  /**
   * A granted kcalloc zeroes inside its block, and inside the heap, exactly when rounding the product up does not wrap.
   */
  lemma CallocRoom(s: State, lo: nat, hi: nat, num: u32, size: u32) returns (i: nat)
    requires Inv(s, lo, hi) && Kcalloc(s, num, size).1 != 0
    ensures var (t, p) := Kcalloc(s, num, size);
      && i < |t.blocks| && t.blocks[i].Payload() == p && (num * size <= t.blocks[i].size <==> num * size <= 0xFFFF_FFF8)
      && (p + num * size <= hi <==> num * size <= 0xFFFF_FFF8)
  {
    CallocFits(num, size);
    hide Inv, Kmalloc;
    i := MallocRoom(s, lo, hi, num * size);
  }

  /** A request that wraps is granted with an empty block. */
  lemma WrappedRequestExample(lo: nat)
    requires lo > 0 && Mult8(lo)
    ensures var (t, p) := Kmalloc(Boot(lo, lo + 0x1000), 0xFFFF_FFFF);
      p == lo + HEADER && t.blocks[0].Payload() == p && !t.blocks[0].free && t.blocks[0].size == 0
  {
  }

  /**
   * kcalloc(1, 0xFFFFFFFF) passes the overflow test, is granted an empty block, and zeroes past the end of the heap.
   */
  lemma WrappedCallocExample(lo: nat)
    requires lo > 0 && Mult8(lo)
    ensures var (t, p) := Kcalloc(Boot(lo, lo + 0x1000), 1, 0xFFFF_FFFF);
      p == lo + HEADER && t.blocks[0].Payload() == p && t.blocks[0].size == 0 && p + 1 * 0xFFFF_FFFF > lo + 0x1000
  {
    WrappedRequestExample(lo);
    hide Kmalloc, Boot;
  }
}
