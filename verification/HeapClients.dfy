/** Clients on the byte-level heap: what they store is there when they look again. */
module HeapClients {
  import opened Bytes
  import opened HeapList
  import opened HeapSpec
  import opened HeapMemory
  import opened KernelHeap
  import opened HeapRealloc
  import opened HeapRuns

  // ----- what stays untouched -----

  function TouchedBy(op: Op): (r: set<nat>) { if op.Free? || op.Store? || op.Realloc? then {op.ptr} else {} }

  /** The pointers a sequence of operations frees, resizes or writes through. */
  function Touched(ops: seq<Op>): (r: set<nat>)
  {
    if ops == [] then {} else TouchedBy(ops[0]) + Touched(ops[1..])
  }

  /** Blocks in use before, and not touched, are in use after with the same bytes. */
  ghost predicate Untouched(m: seq<byte>, n: seq<byte>, base: nat, used: set<Block>, after: set<Block>,
                            touched: set<nat>)
  {
    forall b :: b in used && b.Payload() !in touched ==> b in after && SamePayload(m, n, base, b)
  }

  lemma UntouchedTwice(m: seq<byte>, n: seq<byte>, o: seq<byte>, base: nat, u: set<Block>, v: set<Block>,
                       w: set<Block>, f: set<nat>, g: set<nat>)
    requires Untouched(m, n, base, u, v, f) && Untouched(n, o, base, v, w, g)
    ensures Untouched(m, o, base, u, w, f + g)
  {
  }

  lemma NothingTouched(m: seq<byte>, base: nat, used: set<Block>)
    ensures Untouched(m, m, base, used, used, {})
  {
  }

  lemma FreeUntouched(s: State, lo: nat, hi: nat, ptr: nat, m: seq<byte>, n: seq<byte>)
    requires Sound(s, lo, hi) && UsedKept(m, n, lo, UsedSet(s.blocks), -1)
    ensures Untouched(m, n, lo, UsedSet(s.blocks), UsedSet(Kfree(s, lo, hi, ptr).blocks), {ptr})
  {
    hide UsedSet, Release, Tiled, Mult8, Wrap32;
    var i := Freeable(s, lo, hi, ptr);
    if i >= 0 { ReleaseEffect(s.blocks, lo, hi, i); }
    forall b | b in UsedSet(s.blocks) ensures SamePayload(m, n, lo, b) { Kept(m, n, lo, UsedSet(s.blocks), -1, b); }
  }

  lemma MallocUntouched(s: State, lo: nat, hi: nat, size: u32, m: seq<byte>, n: seq<byte>)
    requires Sound(s, lo, hi) && MayMalloc(s, size) && UsedKept(m, n, lo, UsedSet(s.blocks), -1)
    ensures Untouched(m, n, lo, UsedSet(s.blocks), UsedSet(Kmalloc(s, size).0.blocks), {})
  {
    hide Kmalloc, UsedSet, Tiled, HintOk, MayMalloc, MayRealloc, Mult8, Wrap32;
    if Kmalloc(s, size).1 == 0 { MallocNull(s, lo, hi, size); } else { var i := MallocGives(s, lo, hi, size); }
    forall b | b in UsedSet(s.blocks) ensures SamePayload(m, n, lo, b) { Kept(m, n, lo, UsedSet(s.blocks), -1, b); }
  }

  lemma StoreUntouched(base: nat, used: set<Block>, ptr: nat, m: seq<byte>, n: seq<byte>)
    requires UsedKept(m, n, base, used, ptr - HEADER)
    ensures Untouched(m, n, base, used, used, {ptr})
  {
    forall b | b in used && b.Payload() != ptr
      ensures SamePayload(m, n, base, b)
    {
      Kept(m, n, base, used, ptr - HEADER, b);
    }
  }

  lemma FewerTouched(m: seq<byte>, n: seq<byte>, base: nat, used: set<Block>, after: set<Block>, ptr: nat)
    requires Untouched(m, n, base, used, after, {})
    ensures Untouched(m, n, base, used, after, {ptr})
  {
  }

  lemma ReallocUntouched(s: State, lo: nat, hi: nat, ptr: nat, size: u32, m: seq<byte>, n: seq<byte>)
    requires Sound(s, lo, hi) && MayRealloc(s, ptr, size)
    requires UsedKept(m, n, lo, UsedSet(s.blocks), if Krealloc(s, lo, hi, ptr, size).1 == 0 then -1 else ptr - HEADER)
    ensures Untouched(m, n, lo, UsedSet(s.blocks), UsedSet(Krealloc(s, lo, hi, ptr, size).0.blocks), {ptr})
  {
    assert ptr == 0 ==> MayMalloc(s, size);
    hide Kmalloc, Kfree, Resize, UsedSet, Untouched, Tiled, HintOk, MayMalloc, MayRealloc, AlignUp, Mult8, Wrap32;
    var p := Krealloc(s, lo, hi, ptr, size).1;
    if ptr == 0 {
      KeptAll(s, lo, hi, m, n, if p == 0 then -1 else ptr - HEADER);
      MallocUntouched(s, lo, hi, size, m, n);
      FewerTouched(m, n, lo, UsedSet(s.blocks), UsedSet(Kmalloc(s, size).0.blocks), ptr);
    } else if size == 0 {
      FreeUntouched(s, lo, hi, ptr, m, n);
    } else if p == 0 {
      ReallocNull(s, lo, hi, ptr, size);
      KeptUntouched(lo, UsedSet(s.blocks), m, n, ptr);
    } else {
      ReplaceUntouched(s, lo, hi, ptr, size, m, n);
    }
  }

  /** No block starts where a NULL pointer's header would be, so all are kept. */
  lemma KeptAll(s: State, lo: nat, hi: nat, m: seq<byte>, n: seq<byte>, a: int)
    requires Sound(s, lo, hi) && a < 0 && UsedKept(m, n, lo, UsedSet(s.blocks), a)
    ensures UsedKept(m, n, lo, UsedSet(s.blocks), -1)
  {
    forall b | b in UsedSet(s.blocks) && b.addr != -1
      ensures SamePayload(m, n, lo, b)
    {
      Kept(m, n, lo, UsedSet(s.blocks), a, b);
    }
  }

  lemma KeptUntouched(base: nat, used: set<Block>, m: seq<byte>, n: seq<byte>, ptr: nat)
    requires UsedKept(m, n, base, used, -1)
    ensures Untouched(m, n, base, used, used, {ptr})
  {
    forall b | b in used ensures SamePayload(m, n, base, b) { Kept(m, n, base, used, -1, b); }
  }

  lemma ReplaceUntouched(s: State, lo: nat, hi: nat, ptr: nat, size: u32, m: seq<byte>, n: seq<byte>)
    requires Sound(s, lo, hi) && MayRealloc(s, ptr, size)
    requires ptr != 0 && Krealloc(s, lo, hi, ptr, size).1 != 0 && UsedKept(m, n, lo, UsedSet(s.blocks), ptr - HEADER)
    ensures Untouched(m, n, lo, UsedSet(s.blocks), UsedSet(Krealloc(s, lo, hi, ptr, size).0.blocks), {ptr})
  {
    hide Krealloc, UsedSet, Tiled, HintOk, MayMalloc, MayRealloc, AlignUp, Mult8, Wrap32;
    var b, c := ReallocGives(s, lo, hi, ptr, size);
    forall a | a in UsedSet(s.blocks) && a.Payload() != ptr
      ensures SamePayload(m, n, lo, a)
    {
      Kept(m, n, lo, UsedSet(s.blocks), ptr - HEADER, a);
    }
  }

  // ----- what clients know of their memory -----

  /** Known bytes, by live pointer and offset. */
  type Known = map<nat, map<nat, byte>>

  predicate Within(k: nat, at: nat, n: nat) { at <= k < at + n }

  function Written(at: nat, data: seq<byte>): (r: map<nat, byte>)
  {
    map k: nat | at <= k < at + |data| && Within(k, at, |data|) :: data[k - at]
  }

  function Zeroed(n: nat): (r: map<nat, byte>) { map k: nat | k < n && Within(k, 0, n) :: 0 }

  /** What stays known of an allocation resized to the given size. */
  function Shortened(bytes: map<nat, byte>, size: u32): (r: map<nat, byte>)
  {
    map k | k in bytes && k < size <= 0xFFFF_FFF8 :: bytes[k]
  }

  /** krealloc keeps the first bytes, as far as the new size goes, at the returned address. */
  function Carried(known: Known, ptr: nat, size: u32, p: nat): (r: Known)
  {
    if ptr == 0 then (if p == 0 then known else known[p := map[]])
    else if size == 0 then known - {ptr}
    else if p == 0 || ptr !in known then known
    else (known - {ptr})[p := Shortened(known[ptr], size)]
  }

  /** After a call that returned p: fresh memory is unknown, zeroed memory is zero, and a store is remembered. */
  function Learn(known: Known, op: Op, p: nat): (r: Known)
  {
    match op
    case Malloc(_) => if p == 0 then known else known[p := map[]]
    case Calloc(_, _) => if p == 0 then known else known[p := Zeroed(Request(op))]
    case Realloc(ptr, size) => Carried(known, ptr, size, p)
    case Free(ptr) => known - {ptr}
    case Store(ptr, at, data) => if ptr in known then known[ptr := known[ptr] + Written(at, data)] else known
  }

  /** The address a call returns. */
  function Result(s: State, lo: nat, hi: nat, op: Op): (p: nat)
    requires MayCall(s, op)
  {
    if op.Malloc? || op.Calloc? then Kmalloc(s, Request(op)).1
    else if op.Realloc? then Krealloc(s, lo, hi, op.ptr, op.size).1
    else 0
  }

  predicate InRequest(live: map<nat, u32>, p: nat, k: nat) { p in live && k < live[p] <= 0xFFFF_FFF8 }

  ghost predicate KnownOk(live: map<nat, u32>, known: Known)
  {
    && known.Keys == live.Keys
    && forall p, k :: p in known && k in known[p] ==> InRequest(live, p, k)
  }

  /** Offset k of the allocation at p holds v. */
  predicate ByteIs(m: seq<byte>, base: nat, p: nat, k: nat, v: byte)
  {
    base <= p && p - base + k < |m| && m[p - base + k] == v
  }

  ghost predicate Holds(m: seq<byte>, base: nat, known: Known)
  {
    forall p, k :: p in known && k in known[p] ==> ByteIs(m, base, p, k, known[p][k])
  }

  lemma LearnOk(s: State, live: map<nat, u32>, known: Known, lo: nat, hi: nat, op: Op)
    requires Sound(s, lo, hi) && s.blocks != [] && Allowed(s, live, op) && LedgerOk(UsedSet(s.blocks), live)
    requires KnownOk(live, known)
    ensures KnownOk(Step(s, live, lo, hi, op).1, Learn(known, op, Result(s, lo, hi, op)))
  {
    var p := Result(s, lo, hi, op);
    if op.Realloc? {
      if op.ptr != 0 && p != 0 { ReallocLive(s, live, lo, hi, op.ptr, op.size); }
      hide Krealloc, Sound, LedgerOk, UsedSet, HintOk, MayMalloc, MayRealloc, KnownOk, Carried, Resized;
      CarriedOk(live, known, op.ptr, op.size, p);
    } else {
      hide Kmalloc, Kfree, Krealloc, Sound, LedgerOk, UsedSet, HintOk, MayMalloc, MayRealloc, KnownOk;
      PlainOk(live, known, op, p);
    }
  }

  lemma CarriedOk(live: map<nat, u32>, known: Known, ptr: nat, size: u32, p: nat)
    requires KnownOk(live, known) && (ptr != 0 && p != 0 ==> ptr in live)
    ensures KnownOk(Resized(live, ptr, size, p), Carried(known, ptr, size, p))
  {
  }

  lemma PlainOk(live: map<nat, u32>, known: Known, op: Op, p: nat)
    requires KnownOk(live, known) && !op.Realloc? && InBounds(op) && MayStore(live, op)
    ensures op.Malloc? || op.Calloc? ==> KnownOk(Granted(live, p, Request(op)), Learn(known, op, p))
    ensures op.Free? ==> KnownOk(live - {op.ptr}, Learn(known, op, p))
    ensures op.Store? ==> KnownOk(live, Learn(known, op, p))
  {
  }

  /** Only a live allocation can be resized. */
  lemma ReallocLive(s: State, live: map<nat, u32>, lo: nat, hi: nat, ptr: nat, size: u32)
    requires Sound(s, lo, hi) && MayRealloc(s, ptr, size) && LedgerOk(UsedSet(s.blocks), live)
    requires ptr != 0 && Krealloc(s, lo, hi, ptr, size).1 != 0
    ensures ptr in live
  {
    hide Krealloc, UsedSet, Tiled, HintOk, MayMalloc, MayRealloc, AlignUp, Mult8, Wrap32;
    var b, c := ReallocGives(s, lo, hi, ptr, size);
  }

  /** A known byte of a block whose payload is kept. */
  lemma ByteKept(s: State, live: map<nat, u32>, known: Known, lo: nat, hi: nat, m: seq<byte>, n: seq<byte>, a: int,
                 p: nat, k: nat)
    requires Sound(s, lo, hi) && LedgerOk(UsedSet(s.blocks), live) && KnownOk(live, known) && Holds(m, lo, known)
    requires UsedKept(m, n, lo, UsedSet(s.blocks), a) && p in known && k in known[p] && p - HEADER != a
    ensures ByteIs(n, lo, p, k, known[p][k])
  {
    assert ByteIs(m, lo, p, k, known[p][k]) && InRequest(live, p, k);
    hide Sound, LedgerOk, UsedSet, UsedKept, Mult8, KnownOk, Holds;
    var i := BlockOf(s, live, lo, hi, p);
    Kept(m, n, lo, UsedSet(s.blocks), a, s.blocks[i]);
  }

  lemma AllKept(s: State, live: map<nat, u32>, known: Known, lo: nat, hi: nat, m: seq<byte>, n: seq<byte>)
    requires Sound(s, lo, hi) && LedgerOk(UsedSet(s.blocks), live) && KnownOk(live, known) && Holds(m, lo, known)
    requires UsedKept(m, n, lo, UsedSet(s.blocks), -1) && lo > 0
    ensures Holds(n, lo, known)
  {
    hide Sound, LedgerOk, UsedSet, UsedKept, KnownOk, ByteIs;
    forall p, k | p in known && k in known[p] ensures ByteIs(n, lo, p, k, known[p][k]) {
      KnownPlace(s, live, known, lo, hi, p);
      ByteKept(s, live, known, lo, hi, m, n, -1, p, k);
    }
  }

  lemma KnownPlace(s: State, live: map<nat, u32>, known: Known, lo: nat, hi: nat, p: nat)
    requires Sound(s, lo, hi) && LedgerOk(UsedSet(s.blocks), live) && KnownOk(live, known) && p in known
    ensures p - HEADER >= lo > 0
  {
    assert p in live && lo > 0;
    hide Sound, LedgerOk, UsedSet;
    var i := BlockOf(s, live, lo, hi, p);
  }

  /** One byte of the allocation written through. */
  lemma StoredByte(bytes: map<nat, byte>, lo: nat, m: seq<byte>, n: seq<byte>, p: nat, at: nat, data: seq<byte>, k: nat)
    requires lo <= p && p - lo + at + |data| <= |n| && k in bytes + Written(at, data)
    requires k in bytes ==> ByteIs(m, lo, p, k, bytes[k])
    requires SameOutside(m, n, p - lo + at, p - lo + at + |data|) && n[p - lo + at..p - lo + at + |data|] == data
    ensures ByteIs(n, lo, p, k, (bytes + Written(at, data))[k])
  {
    if k in Written(at, data) {
      assert n[p - lo + at..p - lo + at + |data|][k - at] == n[p - lo + k];
    }
  }

  /** A store through a known allocation, as it shows in memory. */
  ghost predicate Stored(s: State, live: map<nat, u32>, known: Known, lo: nat, hi: nat, m: seq<byte>, n: seq<byte>,
                         op: Op)
  {
    && Sound(s, lo, hi) && LedgerOk(UsedSet(s.blocks), live) && KnownOk(live, known) && Holds(m, lo, known)
    && op.Store? && op.ptr in known && lo <= op.ptr && op.ptr - lo + op.at + |op.data| <= |n|
    && UsedKept(m, n, lo, UsedSet(s.blocks), op.ptr - HEADER)
    && SameOutside(m, n, op.ptr - lo + op.at, op.ptr - lo + op.at + |op.data|)
    && n[op.ptr - lo + op.at..op.ptr - lo + op.at + |op.data|] == op.data
  }

  lemma StoreByte(s: State, live: map<nat, u32>, known: Known, lo: nat, hi: nat, m: seq<byte>, n: seq<byte>, op: Op,
                  p: nat, k: nat)
    requires Stored(s, live, known, lo, hi, m, n, op) && p in Learn(known, op, 0) && k in Learn(known, op, 0)[p]
    ensures ByteIs(n, lo, p, k, Learn(known, op, 0)[p][k])
  {
    var after := Learn(known, op, 0);
    assert after == known[op.ptr := known[op.ptr] + Written(op.at, op.data)];
    assert p == op.ptr && k in known[p] ==> ByteIs(m, lo, p, k, known[p][k]);
    hide Sound, LedgerOk, UsedSet, UsedKept, KnownOk, Holds, SameOutside, Written, Learn, ByteIs;
    if p == op.ptr {
      StoredByte(known[p], lo, m, n, p, op.at, op.data, k);
    } else {
      ByteKept(s, live, known, lo, hi, m, n, op.ptr - HEADER, p, k);
    }
  }

  /** Other allocations keep their known bytes, and the one written through holds the new ones. */
  lemma StoreHolds(s: State, live: map<nat, u32>, known: Known, lo: nat, hi: nat, m: seq<byte>, n: seq<byte>, op: Op)
    requires Stored(s, live, known, lo, hi, m, n, op)
    ensures Holds(n, lo, Learn(known, op, 0))
  {
    hide Stored, Learn, ByteIs;
    forall p, k | p in Learn(known, op, 0) && k in Learn(known, op, 0)[p]
      ensures ByteIs(n, lo, p, k, Learn(known, op, 0)[p][k])
    {
      StoreByte(s, live, known, lo, hi, m, n, op, p, k);
    }
  }

  // ----- operations on the bytes -----

  method StoreBytes(h: Heap, o: nat, data: seq<byte>)
    requires o + |data| <= h.mem.Length
    modifies h.mem
    ensures SameOutside(old(h.mem[..]), h.mem[..], o, o + |data|)
    ensures h.mem[o..o + |data|] == data
  {
    ghost var m := h.mem[..];
    for k := 0 to |data|
      invariant SameOutside(m, h.mem[..], o, o + k)
      invariant forall j :: 0 <= j < k ==> h.mem[o + j] == data[j]
    {
      h.mem[o + k] := data[k];
    }
  }

  /** What every operation is given and gives back. */
  ghost predicate Ready(h: Heap, live: map<nat, u32>, known: Known)
    reads h, h.mem
  {
    && h.Valid() && h.initialized && Sound(h.View(), h.base, h.End()) && h.blocks != []
    && LedgerOk(UsedSet(h.blocks), live)
    && KnownOk(live, known) && Holds(h.mem[..], h.base, known)
  }

  lemma Wider(m: seq<byte>, n: seq<byte>, lo: int, hi: int, lo': int, hi': int)
    requires SameOutside(m, n, lo, hi) && lo' <= lo && hi <= hi'
    ensures SameOutside(m, n, lo', hi')
  {
  }

  /** A write inside block i, seen from the heap. */
  method StoreAt(h: Heap, p: nat, at: nat, data: seq<byte>, ghost i: nat)
    requires h.Valid() && i < |h.blocks| && h.blocks[i].Payload() == p && at + |data| <= h.blocks[i].size
    modifies h.mem
    ensures h.Valid() && UsedKept(old(h.mem[..]), h.mem[..], h.base, UsedSet(h.blocks), p - HEADER)
    ensures h.base <= p && p - h.base + at + |data| <= h.mem.Length
    ensures SameOutside(old(h.mem[..]), h.mem[..], p - h.base + at, p - h.base + at + |data|)
    ensures h.mem[p - h.base + at..p - h.base + at + |data|] == data
  {
    hide HeaderAt, Represents, Tiled, UsedSet, UsedKept, SameOutside, Mult8, Wrap32;
    ghost var m := h.mem[..];
    h.HeaderFacts(i);
    var o := p - h.base + at;
    StoreBytes(h, o, data);
    Wider(m, h.mem[..], o, o + |data|, p - h.base, p - h.base + h.blocks[i].size);
    h.WithinPayload(m, i, h.blocks[i].size);
  }

  method PerformStore(h: Heap, op: Op, ghost live: map<nat, u32>, ghost known: Known)
    requires Ready(h, live, known) && op.Store? && MayStore(live, op)
    modifies h.mem
    ensures h.Valid() && Holds(h.mem[..], h.base, Learn(known, op, 0))
    ensures UsedKept(old(h.mem[..]), h.mem[..], h.base, UsedSet(h.blocks), op.ptr - HEADER)
  {
    ghost var m, s := h.mem[..], h.View();
    assert op.ptr in known && op.at + |op.data| <= AlignUp(live[op.ptr]);
    assert Sound(s, h.base, h.End()) && LedgerOk(UsedSet(s.blocks), live) && KnownOk(live, known);
    assert Holds(m, h.base, known);
    hide *;
    ghost var i := BlockOf(s, live, h.base, h.End(), op.ptr);
    StoreAt(h, op.ptr, op.at, op.data, i);
    StoreHolds(s, live, known, h.base, h.End(), m, h.mem[..], op);
  }

  method PerformFree(h: Heap, op: Op, ghost live: map<nat, u32>, ghost known: Known)
    requires Ready(h, live, known) && op.Free?
    modifies h`hint, h`totalFreed, h`blocks, h.mem
    ensures h.Valid() && h.View() == Kfree(old(h.View()), h.base, h.End(), op.ptr)
    ensures UsedKept(old(h.mem[..]), h.mem[..], h.base, UsedSet(old(h.blocks)), -1)
    ensures Holds(h.mem[..], h.base, Learn(known, op, 0))
  {
    ghost var m, s := h.mem[..], h.View();
    assert h.base > 0;
    hide Sound, LedgerOk, KnownOk, Holds, HeaderAt, Represents, Tiled, UsedSet, UsedKept, Kfree, Mult8, Wrap32;
    h.Kfree(op.ptr);
    AllKept(s, live, known, h.base, h.End(), m, h.mem[..]);
    Forget(h.mem[..], h.base, known, op.ptr);
  }

  lemma Forget(m: seq<byte>, base: nat, known: Known, p: nat)
    requires Holds(m, base, known)
    ensures Holds(m, base, known - {p})
  {
  }

  lemma Acquire(m: seq<byte>, base: nat, known: Known, p: nat, bytes: map<nat, byte>)
    requires Holds(m, base, known) && forall k :: k in bytes ==> ByteIs(m, base, p, k, bytes[k])
    ensures Holds(m, base, known[p := bytes])
  {
  }

  method PerformAlloc(h: Heap, op: Op, ghost live: map<nat, u32>, ghost known: Known) returns (p: nat)
    requires Ready(h, live, known) && (op.Malloc? || op.Calloc?) && InBounds(op) && MayCall(h.View(), op)
    modifies h`hint, h`totalAlloc, h`blocks, h.mem
    ensures h.Valid() && (h.View(), p) == Kmalloc(old(h.View()), Request(op))
    ensures UsedKept(old(h.mem[..]), h.mem[..], h.base, UsedSet(old(h.blocks)), -1)
    ensures Holds(h.mem[..], h.base, Learn(known, op, p))
  {
    ghost var m, s := h.mem[..], h.View();
    assert h.base > 0;
    hide Sound, LedgerOk, KnownOk, Holds, HeaderAt, Represents, Tiled, UsedSet, UsedKept, Kmalloc, HintOk, MayMalloc,
         MayRealloc, Mult8, Wrap32;
    match op
    case Malloc(size) =>
      p := h.Kmalloc(size);
      AllKept(s, live, known, h.base, h.End(), m, h.mem[..]);
      Acquire(h.mem[..], h.base, known, p, map[]);
    case Calloc(num, size) =>
      p := ZeroedAlloc(h, op);
      AllKept(s, live, known, h.base, h.End(), m, h.mem[..]);
      if p != 0 { Acquire(h.mem[..], h.base, known, p, Zeroed(Request(op))); }
  }

  /** A known byte of another allocation, or of the one that was resized, after krealloc returned p. */
  lemma CarriedByte(s: State, live: map<nat, u32>, known: Known, lo: nat, hi: nat, m: seq<byte>, n: seq<byte>,
                    ptr: nat, size: u32, p: nat, kept: nat, k: nat)
    requires Sound(s, lo, hi) && LedgerOk(UsedSet(s.blocks), live) && KnownOk(live, known) && Holds(m, lo, known)
    requires ptr in known && k in Shortened(known[ptr], size) && lo <= ptr && lo <= p
    requires AlignUp(live[ptr]) <= kept || AlignUp(size) <= kept
    requires Copied(m, ptr - lo, n, p - lo, kept)
    ensures ByteIs(n, lo, p, k, known[ptr][k])
  {
    assert ByteIs(m, lo, ptr, k, known[ptr][k]) && InRequest(live, ptr, k);
  }

  lemma CarriedHolds(s: State, live: map<nat, u32>, known: Known, lo: nat, hi: nat, m: seq<byte>, n: seq<byte>,
                     ptr: nat, size: u32, p: nat, kept: nat)
    requires Sound(s, lo, hi) && LedgerOk(UsedSet(s.blocks), live) && KnownOk(live, known) && Holds(m, lo, known)
    requires ptr in known && ptr != 0 && size != 0 && p != 0 && lo <= ptr && lo <= p
    requires AlignUp(live[ptr]) <= kept || AlignUp(size) <= kept
    requires UsedKept(m, n, lo, UsedSet(s.blocks), ptr - HEADER) && Copied(m, ptr - lo, n, p - lo, kept)
    ensures Holds(n, lo, Carried(known, ptr, size, p))
  {
    var after := Carried(known, ptr, size, p);
    assert after == (known - {ptr})[p := Shortened(known[ptr], size)];
    hide Sound, LedgerOk, UsedSet, UsedKept, Copied, KnownOk, ByteIs, Carried, AlignUp;
    forall q, k | q in after && k in after[q] ensures ByteIs(n, lo, q, k, after[q][k]) {
      if q == p { CarriedByte(s, live, known, lo, hi, m, n, ptr, size, p, kept, k); }
      else { ByteKept(s, live, known, lo, hi, m, n, ptr - HEADER, q, k); }
    }
  }

  /** How many bytes krealloc keeps of the block at ptr. */
  function KeptOf(s: State, ptr: nat, size: u32): (r: nat)
  {
    var i := Find(s.blocks, ptr - HEADER, 0);
    if i < 0 then 0 else KeptBytes(s.blocks[i].size, AlignUp(size))
  }

  lemma ReallocFinds(s: State, lo: nat, hi: nat, ptr: nat, size: u32) returns (i: nat)
    requires MayRealloc(s, ptr, size) && ptr != 0 && Krealloc(s, lo, hi, ptr, size).1 != 0
    ensures i < |s.blocks| && s.blocks[i].Payload() == ptr && !s.blocks[i].free
    ensures KeptOf(s, ptr, size) == KeptBytes(s.blocks[i].size, AlignUp(size))
  {
    hide Resize, Kfree, HintOk, MayMalloc, MayRealloc, AlignUp;
    i := Find(s.blocks, ptr - HEADER, 0);
  }

  lemma LedgerAt(used: set<Block>, live: map<nat, u32>, b: Block)
    requires LedgerOk(used, live) && b in used
    ensures b.Payload() in live && AlignUp(live[b.Payload()]) <= b.size
  {
  }

  /**
   * The block of a live pointer is at least as large as its ledger says, so resizing keeps all that is still wanted.
   */
  lemma KeptEnough(s: State, live: map<nat, u32>, lo: nat, hi: nat, ptr: nat, size: u32)
    requires Sound(s, lo, hi) && MayRealloc(s, ptr, size) && LedgerOk(UsedSet(s.blocks), live)
    requires ptr != 0 && Krealloc(s, lo, hi, ptr, size).1 != 0
    ensures ptr in live && lo <= ptr
    ensures AlignUp(live[ptr]) <= KeptOf(s, ptr, size) || AlignUp(size) <= KeptOf(s, ptr, size)
  {
    assert Tiled(s.blocks, lo, hi);
    hide Sound, LedgerOk, Krealloc, Tiled, HintOk, MayMalloc, MayRealloc, Find, AlignUp, KeptOf, Mult8, Wrap32;
    var i := ReallocFinds(s, lo, hi, ptr, size);
    assert s.blocks[i] in UsedSet(s.blocks);
    hide UsedSet;
    LedgerAt(UsedSet(s.blocks), live, s.blocks[i]);
    Inside(s.blocks, lo, hi, i);
  }

  /** What krealloc does to the bytes. */
  ghost predicate Moved(s: State, lo: nat, m: seq<byte>, n: seq<byte>, ptr: nat, size: u32, p: nat)
  {
    && UsedKept(m, n, lo, UsedSet(s.blocks), if p == 0 then -1 else ptr - HEADER)
    && (ptr != 0 && p != 0 ==> lo <= p && Copied(m, ptr - lo, n, p - lo, KeptOf(s, ptr, size)))
  }

  method Reallocate(h: Heap, ptr: nat, size: u32) returns (p: nat)
    requires h.Valid() && h.initialized && MayRealloc(h.View(), ptr, size)
    modifies h`hint, h`totalAlloc, h`totalFreed, h`blocks, h.mem
    ensures h.Valid() && (h.View(), p) == Krealloc(old(h.View()), h.base, h.End(), ptr, size)
    ensures Moved(old(h.View()), h.base, old(h.mem[..]), h.mem[..], ptr, size, p)
  {
    hide HeaderAt, Represents, Tiled, UsedSet, UsedKept, Krealloc, KeepsBytes, KeptBytes, Find, AlignUp, HintOk,
         MayMalloc, MayRealloc, Mult8, Wrap32;
    p := h.Krealloc(ptr, size);
  }

  lemma ReallocHolds(s: State, live: map<nat, u32>, known: Known, lo: nat, hi: nat, m: seq<byte>, n: seq<byte>,
                     ptr: nat, size: u32)
    requires Sound(s, lo, hi) && MayRealloc(s, ptr, size)
    requires LedgerOk(UsedSet(s.blocks), live) && KnownOk(live, known) && Holds(m, lo, known)
    requires Moved(s, lo, m, n, ptr, size, Krealloc(s, lo, hi, ptr, size).1)
    ensures Holds(n, lo, Carried(known, ptr, size, Krealloc(s, lo, hi, ptr, size).1))
  {
    var p := Krealloc(s, lo, hi, ptr, size).1;
    var a := if p == 0 then -1 else ptr - HEADER;
    assert ptr != 0 && size == 0 ==> p == 0;
    assert known.Keys == live.Keys;
    assert UsedKept(m, n, lo, UsedSet(s.blocks), a) && (ptr == 0 || p == 0 ==> a < 0);
    assert ptr != 0 && p != 0 ==> a == ptr - HEADER && lo <= p && Copied(m, ptr - lo, n, p - lo, KeptOf(s, ptr, size));
    hide *;
    if ptr != 0 && p != 0 {
      KeptEnough(s, live, lo, hi, ptr, size);
      CarriedHolds(s, live, known, lo, hi, m, n, ptr, size, p, KeptOf(s, ptr, size));
    } else {
      UnmovedHolds(s, live, known, lo, hi, m, n, ptr, size, p, a);
    }
  }

  lemma UnmovedHolds(s: State, live: map<nat, u32>, known: Known, lo: nat, hi: nat, m: seq<byte>, n: seq<byte>,
                     ptr: nat, size: u32, p: nat, a: int)
    requires Sound(s, lo, hi) && LedgerOk(UsedSet(s.blocks), live) && KnownOk(live, known) && Holds(m, lo, known)
    requires UsedKept(m, n, lo, UsedSet(s.blocks), a) && a < 0 && (ptr == 0 || p == 0)
    ensures Holds(n, lo, Carried(known, ptr, size, p))
  {
    assert lo > 0;
    hide *;
    KeptAll(s, lo, hi, m, n, a);
    AllKept(s, live, known, lo, hi, m, n);
    PlainHolds(n, lo, known, ptr, size, p);
  }

  lemma PlainHolds(m: seq<byte>, base: nat, known: Known, ptr: nat, size: u32, p: nat)
    requires Holds(m, base, known) && (ptr == 0 || p == 0)
    ensures Holds(m, base, Carried(known, ptr, size, p))
  {
    hide Holds;
    Acquire(m, base, known, p, map[]);
    Forget(m, base, known, ptr);
  }

  method PerformRealloc(h: Heap, op: Op, ghost live: map<nat, u32>, ghost known: Known) returns (p: nat)
    requires Ready(h, live, known) && op.Realloc? && MayCall(h.View(), op)
    modifies h`hint, h`totalAlloc, h`totalFreed, h`blocks, h.mem
    ensures h.Valid() && (h.View(), p) == Krealloc(old(h.View()), h.base, h.End(), op.ptr, op.size)
    ensures UsedKept(old(h.mem[..]), h.mem[..], h.base, UsedSet(old(h.blocks)), if p == 0 then -1 else op.ptr - HEADER)
    ensures Holds(h.mem[..], h.base, Learn(known, op, p))
  {
    ghost var m, s := h.mem[..], h.View();
    hide Sound, LedgerOk, KnownOk, Holds, HeaderAt, Represents, Tiled, UsedSet, UsedKept, Copied, Krealloc, KeptOf,
         HintOk, MayMalloc, MayRealloc, Carried, Mult8, Wrap32;
    p := Reallocate(h, op.ptr, op.size);
    ReallocHolds(s, live, known, h.base, h.End(), m, h.mem[..], op.ptr, op.size);
  }

  method ZeroedAlloc(h: Heap, op: Op) returns (p: nat)
    requires h.Valid() && h.initialized && op.Calloc? && InBounds(op) && MayCall(h.View(), op)
    modifies h`hint, h`totalAlloc, h`blocks, h.mem
    ensures h.Valid() && (h.View(), p) == Kmalloc(old(h.View()), Request(op))
    ensures UsedKept(old(h.mem[..]), h.mem[..], h.base, UsedSet(old(h.blocks)), -1)
    ensures p != 0 ==> forall k :: k in Zeroed(Request(op)) ==> ByteIs(h.mem[..], h.base, p, k, 0)
  {
    assert MayMalloc(h.View(), CallocSize(op.num, op.size));
    hide HeaderAt, Represents, Tiled, UsedSet, UsedKept, MallocLocked, HintOk, MayMalloc, MayRealloc, Find, Mult8,
         Wrap32;
    CallocFits(op.num, op.size);
    var inside;
    p, inside := h.Kcalloc(op.num, op.size);
  }

  /** One operation: the specification's state, untouched payloads unchanged, and every known byte in place. */
  method Perform(h: Heap, op: Op, ghost live: map<nat, u32>, ghost known: Known) returns (p: nat)
    requires Ready(h, live, known) && Allowed(h.View(), live, op)
    modifies h`hint, h`totalAlloc, h`totalFreed, h`blocks, h.mem
    ensures h.Valid() && h.View() == Step(old(h.View()), live, h.base, h.End(), op).0
    ensures p == Result(old(h.View()), h.base, h.End(), op)
    ensures Untouched(old(h.mem[..]), h.mem[..], h.base, UsedSet(old(h.blocks)), UsedSet(h.blocks), TouchedBy(op))
    ensures Ready(h, Step(old(h.View()), live, h.base, h.End(), op).1, Learn(known, op, p))
  {
    ghost var m, s := h.mem[..], h.View();
    StepKeeps(s, live, h.base, h.End(), op);
    LearnOk(s, live, known, h.base, h.End(), op);
    hide Sound, LedgerOk, KnownOk, Holds, HeaderAt, Represents, Tiled, UsedSet, UsedKept, Kmalloc, Kfree, Krealloc,
         HintOk, MayMalloc, MayRealloc, Untouched, Learn, InBounds, MayStore, Mult8, Wrap32;
    p := 0;
    match op
    case Free(ptr) =>
      PerformFree(h, op, live, known);
      FreeUntouched(s, h.base, h.End(), ptr, m, h.mem[..]);
    case Store(ptr, _, _) =>
      PerformStore(h, op, live, known);
      StoreUntouched(h.base, UsedSet(s.blocks), ptr, m, h.mem[..]);
    case Realloc(ptr, size) =>
      p := PerformRealloc(h, op, live, known);
      ReallocUntouched(s, h.base, h.End(), ptr, size, m, h.mem[..]);
    case _ =>
      p := PerformAlloc(h, op, live, known);
      MallocUntouched(s, h.base, h.End(), Request(op), m, h.mem[..]);
  }

  /** What is known after a run. */
  function KnownAfter(s: State, live: map<nat, u32>, known: Known, lo: nat, hi: nat, ops: seq<Op>): (r: Known)
    requires Sound(s, lo, hi) && s.blocks != [] && LedgerOk(UsedSet(s.blocks), live) && Legal(s, live, lo, hi, ops)
    decreases |ops|
  {
    if ops == [] then known
    else
      StepKeeps(s, live, lo, hi, ops[0]);
      var (t, live') := Step(s, live, lo, hi, ops[0]);
      KnownAfter(t, live', Learn(known, ops[0], Result(s, lo, hi, ops[0])), lo, hi, ops[1..])
  }

  /**
   * Any run of clients on the bytes ends in the specification's state. Every payload the run neither frees, resizes
   * nor writes through is unchanged, and every live allocation holds what its client last stored there, or zeroes
   * where kcalloc put them, wherever krealloc has moved it since.
   */
  method Execute(h: Heap, ops: seq<Op>, ghost live: map<nat, u32>, ghost known: Known)
    requires Ready(h, live, known) && Legal(h.View(), live, h.base, h.End(), ops)
    modifies h`hint, h`totalAlloc, h`totalFreed, h`blocks, h.mem
    ensures h.View() == Run(old(h.View()), live, h.base, h.End(), ops).0
    ensures Untouched(old(h.mem[..]), h.mem[..], h.base, UsedSet(old(h.blocks)), UsedSet(h.blocks), Touched(ops))
    ensures Ready(h, Run(old(h.View()), live, h.base, h.End(), ops).1,
                  KnownAfter(old(h.View()), live, known, h.base, h.End(), ops))
    decreases |ops|
  {
    ghost var s, m := h.View(), h.mem[..];
    hide Ready, Sound, LedgerOk, Untouched, UsedSet, HintOk, MayMalloc, MayRealloc, Step, Result, Learn, Allowed,
         Mult8, Wrap32;
    if ops == [] { NothingTouched(m, h.base, UsedSet(s.blocks)); return; }
    var p := Perform(h, ops[0], live, known);
    ghost var m1, cs := h.mem[..], h.blocks;
    Execute(h, ops[1..], Step(s, live, h.base, h.End(), ops[0]).1, Learn(known, ops[0], p));
    UntouchedTwice(m, m1, h.mem[..], h.base, UsedSet(s.blocks), UsedSet(cs), UsedSet(h.blocks), TouchedBy(ops[0]),
      Touched(ops[1..]));
  }
}
