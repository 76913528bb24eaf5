/** Page tables, the 4-level walk over them, and the MMIO window. */
module PagingSpec {
  import opened Bytes

  const GB: nat := 0x4000_0000
  const MB2: nat := 0x20_0000
  const TWO48: nat := 0x1_0000_0000_0000
  const TWO52: nat := 0x10_0000_0000_0000
  const MAX_PDPT_ENTRIES: nat := 64
  const PD_ENTRIES: nat := 32768
  const WINDOW_BASE: nat := 0xF000_0000
  const WINDOW_FRAME: nat := 1920
  const WINDOW_SLOTS: nat := 16

  /** Physical addresses of the three static tables; the 64 page directories are contiguous. */
  datatype Layout = Layout(pml4: nat, pdpt: nat, pd: nat)

  ghost predicate WfLayout(l: Layout)
  {
    && l.pml4 % 4096 == 0 && l.pdpt % 4096 == 0 && l.pd % 4096 == 0
    && l.pml4 < TWO52 && l.pdpt < TWO52 && l.pd + 64 * 4096 <= TWO52 && l.pml4 != l.pdpt
    && !(l.pd <= l.pml4 < l.pd + 64 * 4096) && !(l.pd <= l.pdpt < l.pd + 64 * 4096)
  }

  /** Directory i, entry j is pd[512 * i + j]; slots are the 2 MB frames mapped into the window. */
  datatype Tables = Tables(pml4: seq<u64>, pdpt: seq<u64>, pd: seq<u64>, slots: seq<u64>)

  ghost predicate Sized(t: Tables) { |t.pml4| == 512 && |t.pdpt| == 512 && |t.pd| == PD_ENTRIES }

  // ----- entries; table and frame addresses are aligned, so their flags are added -----

  /** present, writable, user */
  function TableEntry(base: nat): (e: nat) { base + 7 }

  /** present, writable, user, page size */
  function PageEntry(base: nat): (e: nat) { base + 0x87 }

  predicate Present(e: nat) { e % 2 == 1 }

  predicate Writable(e: nat) { e / 2 % 2 == 1 }

  predicate User(e: nat) { e / 4 % 2 == 1 }

  predicate Big(e: nat) { e / 0x80 % 2 == 1 }

  /** Bits 51 to 12, 51 to 21 and 51 to 30. */
  function TableBase(e: nat): (a: nat) { e / 4096 % 0x100_0000_0000 * 4096 }

  function Frame2M(e: nat): (a: nat) { e / MB2 % 0x8000_0000 * MB2 }

  function Frame1G(e: nat): (a: nat) { e / GB % 0x40_0000 * GB }

  lemma TableEntryDecodes(base: nat)
    requires base % 4096 == 0 && base < TWO52
    ensures var e := TableEntry(base); Present(e) && Writable(e) && User(e) && !Big(e) && TableBase(e) == base
  {
    var k, e := base / 4096, TableEntry(base);
    assert e == 4096 * k + 7 && k < 0x100_0000_0000;
    DivMod(e, 2, 2048 * k + 3, 1);
    DivMod(e, 4, 1024 * k + 1, 3);
    DivMod(e, 0x80, 32 * k, 7);
    DivMod(e, 4096, k, 7);
    DivMod(2048 * k + 3, 2, 1024 * k + 1, 1);
    DivMod(1024 * k + 1, 2, 512 * k, 1);
    DivMod(32 * k, 2, 16 * k, 0);
    DivMod(k, 0x100_0000_0000, 0, k);
  }

  /** Only the low 52 bits of a frame address survive. */
  lemma PageEntryDecodes(base: nat)
    requires base % MB2 == 0
    ensures var e := PageEntry(base); Present(e) && Writable(e) && User(e) && Big(e) && Frame2M(e) == base % TWO52
  {
    var k, e := base / MB2, PageEntry(base);
    var q, r := k / 0x8000_0000, k % 0x8000_0000;
    assert e == MB2 * k + 0x87 && k == 0x8000_0000 * q + r && base == TWO52 * q + MB2 * r;
    PageFlags(k, e);
    DivMod(e, MB2, k, 0x87);
    DivMod(base, TWO52, q, MB2 * r);
    hide Present, Writable, User, Big;
  }

  lemma PageFlags(k: nat, e: nat)
    requires e == 0x20_0000 * k + 0x87
    ensures Present(e) && Writable(e) && User(e) && Big(e)
  {
    DivMod(e, 2, 0x10_0000 * k + 0x43, 1);
    DivMod(e, 4, 0x8_0000 * k + 0x21, 3);
    DivMod(e, 0x80, 0x4000 * k + 1, 7);
    DivMod(0x10_0000 * k + 0x43, 2, 0x8_0000 * k + 0x21, 1);
    DivMod(0x8_0000 * k + 0x21, 2, 0x4_0000 * k + 0x10, 1);
    DivMod(0x4000 * k + 1, 2, 0x2000 * k, 1);
  }

  // ----- the walk (section 4.5 of the Intel SDM, Volume 3A) -----

  datatype Translation = Fault | Mapped(phys: nat, writable: bool, user: bool)

  /** The entry a walk reads from the table at a physical address; memory outside the tables is unknown. */
  ghost function Entry(l: Layout, t: Tables, base: nat, index: nat): (e: nat)
    requires Sized(t) && index < 512
  {
    if base == l.pml4 then t.pml4[index]
    else if base == l.pdpt then t.pdpt[index]
    else if l.pd <= base < l.pd + 64 * 4096 && (base - l.pd) % 4096 == 0 then t.pd[(base - l.pd) / 4096 * 512 + index]
    else 0
  }

  /** Translation of a lower-half address. */
  ghost function Walk(l: Layout, t: Tables, v: nat): (r: Translation)
    requires Sized(t)
  {
    var e4 := Entry(l, t, l.pml4, v / 0x80_0000_0000 % 512);
    if !Present(e4) then Fault
    else
      var e3 := Entry(l, t, TableBase(e4), v / GB % 512);
      if !Present(e3) then Fault
      else if Big(e3) then Mapped(Frame1G(e3) + v % GB, Writable(e4) && Writable(e3), User(e4) && User(e3))
      else
        var e2 := Entry(l, t, TableBase(e3), v / MB2 % 512);
        var w, u := Writable(e4) && Writable(e3) && Writable(e2), User(e4) && User(e3) && User(e2);
        if !Present(e2) then Fault
        else if Big(e2) then Mapped(Frame2M(e2) + v % MB2, w, u)
        else
          var e1 := Entry(l, t, TableBase(e2), v / 4096 % 512);
          if !Present(e1) then Fault else Mapped(TableBase(e1) + v % 4096, w && Writable(e1), u && User(e1))
  }

  // ----- set-up -----

  /** How many gigabytes are identity-mapped, in 64-bit arithmetic. */
  function RequiredEntries(fbBase: u64, fbSize: u32): (n: nat)
    ensures n <= MAX_PDPT_ENTRIES
  {
    var fbEnd := ((fbBase as int) + (fbSize as int)) % TWO64;
    var maxAddr := if fbEnd > 4 * GB then fbEnd else 4 * GB;
    var n := (maxAddr + GB - 1) % TWO64 / GB;
    if n > MAX_PDPT_ENTRIES then MAX_PDPT_ENTRIES else n
  }

  /**
   * The first 4 GB are mapped unless the framebuffer ends within the last gigabyte of the 64-bit space; then nothing
   * is.
   */
  lemma LowMemoryMapped(fbBase: u64, fbSize: u32)
    ensures var fbEnd := ((fbBase as int) + (fbSize as int)) % TWO64;
      && (RequiredEntries(fbBase, fbSize) >= 4 <==> fbEnd <= TWO64 - GB)
      && (RequiredEntries(fbBase, fbSize) == 0 <==> fbEnd > TWO64 - GB)
  {
  }

  /**
   * Unless that happens, the map ends with the gigabyte that holds the last byte of the framebuffer or of the first
   * 4 GB, whichever is higher, and at 64 GB at the latest.
   */
  lemma MapEnds(fbBase: u64, fbSize: u32)
    requires ((fbBase as int) + (fbSize as int)) % 0x1_0000_0000_0000_0000 <= 0x1_0000_0000_0000_0000 - 0x4000_0000
    ensures var end := ((fbBase as int) + (fbSize as int)) % 0x1_0000_0000_0000_0000;
      var (top, n) := (if end > 0x1_0000_0000 then end else 0x1_0000_0000, RequiredEntries(fbBase, fbSize));
      if top > 0x10_0000_0000 then n == 64 else (n - 1) * 0x4000_0000 < top <= n * 0x4000_0000
  {
    var end := ((fbBase as int) + (fbSize as int)) % TWO64;
    var top := if end > 4 * GB then end else 4 * GB;
    var q := (top + GB - 1) / GB;
    assert (top + GB - 1) % TWO64 == top + GB - 1;
    assert GB * q <= top + GB - 1 < GB * q + GB;
  }

  /** A framebuffer of one byte at the start of the last gigabyte: nothing is mapped. */
  lemma NothingMappedExample()
    ensures RequiredEntries(TWO64 - GB, 1) == 0
  {
  }

  predicate InIdentityMap(n: nat, a: nat) { a < n * GB }

  /** The framebuffer lies inside the identity map exactly when it ends within the first 64 GB. */
  lemma FramebufferMapped(fbBase: u64, fbSize: u32)
    ensures (forall a: nat :: fbBase <= a < (fbBase as int) + (fbSize as int) ==>
               InIdentityMap(RequiredEntries(fbBase, fbSize), a))
       <==> (fbSize == 0 || (fbBase as int) + (fbSize as int) <= 64 * GB)
  {
    var end: int := (fbBase as int) + (fbSize as int);
    if end <= 64 * GB {
      assert end % TWO64 == end;
    } else if fbSize > 0 {
      var last: nat := end - 1;
      assert fbBase <= last < end && !InIdentityMap(RequiredEntries(fbBase, fbSize), last);
    }
  }

  /** A framebuffer of one byte just above 64 GB is outside. */
  lemma HighFramebufferExample()
    ensures !InIdentityMap(RequiredEntries(64 * GB, 1), 64 * GB)
  {
  }

  ghost function Init(l: Layout, n: nat): (t: Tables)
    requires WfLayout(l) && n <= MAX_PDPT_ENTRIES
    ensures Sized(t) && t.slots == []
  {
    Tables(seq<u64>(512, i => if i == 0 then TableEntry(l.pdpt) else 0),
           seq<u64>(512, i => if 0 <= i < n then TableEntry(l.pd + 4096 * i) else 0),
           seq<u64>(PD_ENTRIES, k => if 0 <= k < 512 * n then PageEntry(k * MB2) else 0), [])
  }

  // ----- the window -----

  function FrameOf(p: u64): (base: u64)
    ensures base % MB2 == 0 && base <= p < base + MB2
  {
    p / MB2 * MB2
  }

  function FindSlot(slots: seq<u64>, base: u64, i: nat): (r: Option<nat>)
    requires i <= |slots|
    ensures match r
      case Some(j) => i <= j < |slots| && slots[j] == base
      case None => base !in slots[i..]
    decreases |slots| - i
  {
    if i == |slots| then None else if slots[i] == base then Some(i) else FindSlot(slots, base, i + 1)
  }

  function WindowAddr(i: nat, p: u64): (v: nat) { WINDOW_BASE + i * MB2 + (p - FrameOf(p)) }

  ghost function AddSlot(l: Layout, t: Tables, base: u64): (t': Tables)
    requires WfLayout(l) && Sized(t) && |t.slots| < WINDOW_SLOTS && base % MB2 == 0
    ensures Sized(t') && t'.slots == t.slots + [base]
  {
    Tables(t.pml4, t.pdpt[3 := TableEntry(l.pd + 3 * 4096)], t.pd[WINDOW_FRAME + |t.slots| := PageEntry(base)],
      t.slots + [base])
  }

  /** The new tables and the address returned, 0 being NULL. */
  ghost function MapMmio(l: Layout, t: Tables, p: u64): (r: (Tables, nat))
    requires WfLayout(l) && Sized(t)
    ensures Sized(r.0)
  {
    if p < 4 * GB then (t, p)
    else match FindSlot(t.slots, FrameOf(p), 0)
      case Some(i) => (t, WindowAddr(i, p))
      case None => if |t.slots| >= WINDOW_SLOTS then (t, 0) else (AddSlot(l, t, FrameOf(p)), WindowAddr(|t.slots|, p))
  }

  // ----- what every reachable set of tables translates -----

  ghost predicate Distinct(slots: seq<u64>) { forall i, j :: 0 <= i < j < |slots| ==> slots[i] != slots[j] }

  ghost predicate SlotsOk(slots: seq<u64>)
  {
    |slots| <= WINDOW_SLOTS && Distinct(slots) && forall i :: 0 <= i < |slots| ==> slots[i] % MB2 == 0
  }

  ghost function PdValue(n: nat, slots: seq<u64>, k: nat): (e: nat)
  {
    if WINDOW_FRAME <= k < WINDOW_FRAME + |slots| then PageEntry(slots[k - WINDOW_FRAME])
    else if k < 512 * n then PageEntry(k * MB2) else 0
  }

  ghost function PdptValue(l: Layout, n: nat, slots: seq<u64>, i: nat): (e: nat)
  {
    if i < n || (i == 3 && slots != []) then TableEntry(l.pd + 4096 * i) else 0
  }

  ghost predicate Inv(l: Layout, n: nat, t: Tables)
  {
    && WfLayout(l) && n <= MAX_PDPT_ENTRIES && Sized(t) && SlotsOk(t.slots)
    && (forall i :: 0 <= i < 512 ==> t.pml4[i] == if i == 0 then TableEntry(l.pdpt) else 0)
    && (forall i :: 0 <= i < 512 ==> t.pdpt[i] == PdptValue(l, n, t.slots, i))
    && (forall k :: 0 <= k < PD_ENTRIES ==> t.pd[k] == PdValue(n, t.slots, k))
  }

  /** The meaning of the tables: used window slots, then identity, then nothing. */
  ghost function Meaning(n: nat, slots: seq<u64>, v: nat): (r: Translation)
  {
    var k := v / MB2;
    if WINDOW_FRAME <= k < WINDOW_FRAME + |slots| then Mapped(slots[k - WINDOW_FRAME] % TWO52 + v % MB2, true, true)
    else if k < 512 * n then Mapped(v, true, true)
    else Fault
  }

  lemma Indices(v: nat)
    ensures v < 64 * GB ==>
      v / 0x80_0000_0000 % 512 == 0 && v / GB % 512 == v / GB < 64 && v / MB2 == v / GB * 512 + v / MB2 % 512
    ensures 64 * GB <= v < 512 * GB ==> v / 0x80_0000_0000 % 512 == 0 && v / GB % 512 == v / GB >= 64
    ensures 512 * GB <= v < TWO48 ==> v / 0x80_0000_0000 % 512 != 0
  {
  }

  lemma PdptStep(l: Layout, n: nat, t: Tables, i: nat)
    requires Inv(l, n, t) && i < 512
    ensures Entry(l, t, l.pml4, 0) == TableEntry(l.pdpt) && TableBase(TableEntry(l.pdpt)) == l.pdpt
    ensures Entry(l, t, l.pdpt, i) == PdptValue(l, n, t.slots, i)
  {
    TableEntryDecodes(l.pdpt);
  }

  lemma PdStep(l: Layout, n: nat, t: Tables, i: nat, j: nat)
    requires Inv(l, n, t) && i < 64 && j < 512
    ensures TableBase(TableEntry(l.pd + 4096 * i)) == l.pd + 4096 * i && !Big(TableEntry(l.pd + 4096 * i))
    ensures Entry(l, t, l.pd + 4096 * i, j) == PdValue(n, t.slots, 512 * i + j)
  {
    TableEntryDecodes(l.pd + 4096 * i);
    assert (4096 * i) % 4096 == 0 && (4096 * i) / 4096 == i;
  }

  /** The first three levels lead to directory entry 512 * i + j. */
  lemma WalkToDirectory(l: Layout, n: nat, t: Tables, v: nat, i: nat, j: nat)
    requires Inv(l, n, t) && i < 64 && j < 512
    requires v / 0x80_0000_0000 % 512 == 0 && v / GB % 512 == i && v / MB2 % 512 == j
    ensures var e := PdValue(n, t.slots, 512 * i + j);
      Walk(l, t, v) == if e == 0 then Fault else Mapped(Frame2M(e) + v % MB2, true, true)
  {
    hide Present, Writable, User, Big, TableBase, Frame2M, Frame1G, TableEntry, PageEntry, Entry, Inv, PdValue,
         PdptValue, SlotsOk;
    DirectoryFacts(l, n, t, i, j);
    TableEntryDecodes(l.pdpt);
    TableEntryDecodes(l.pd + 4096 * i);
    PdptStep(l, n, t, i);
    PdStep(l, n, t, i, j);
    PdValueFlags(n, t.slots, 512 * i + j);
  }

  lemma DirectoryFacts(l: Layout, n: nat, t: Tables, i: nat, j: nat)
    requires Inv(l, n, t) && i < 64 && j < 512
    ensures l.pdpt % 4096 == 0 && l.pdpt < TWO52 && (l.pd + 4096 * i) % 4096 == 0 && l.pd + 4096 * i < TWO52
    ensures SlotsOk(t.slots) && !Present(0)
    ensures PdptValue(l, n, t.slots, i) == 0 ==> PdValue(n, t.slots, 512 * i + j) == 0
    ensures PdptValue(l, n, t.slots, i) == 0 || PdptValue(l, n, t.slots, i) == TableEntry(l.pd + 4096 * i)
  {
  }

  lemma PdValueFlags(n: nat, slots: seq<u64>, k: nat)
    requires SlotsOk(slots)
    ensures var e := PdValue(n, slots, k); e == 0 || (Present(e) && Writable(e) && User(e) && Big(e))
  {
    PageEntryDecodes(k * MB2);
    if WINDOW_FRAME <= k < WINDOW_FRAME + |slots| {
      PageEntryDecodes(slots[k - WINDOW_FRAME]);
    }
  }

  lemma PdValueMeaning(n: nat, slots: seq<u64>, v: nat)
    requires SlotsOk(slots) && n <= MAX_PDPT_ENTRIES && v < 64 * GB
    ensures var e := PdValue(n, slots, v / MB2);
      Meaning(n, slots, v) == if e == 0 then Fault else Mapped(Frame2M(e) + v % MB2, true, true)
  {
    var k := v / MB2;
    assert v == k * MB2 + v % MB2 && k * MB2 % TWO52 == k * MB2;
    PageEntryDecodes(k * MB2);
    if WINDOW_FRAME <= k < WINDOW_FRAME + |slots| {
      PageEntryDecodes(slots[k - WINDOW_FRAME]);
    }
    hide Frame2M;
  }

  /** The walk computes the meaning, at every lower-half address. */
  lemma WalkIsMeaning(l: Layout, n: nat, t: Tables, v: nat)
    requires Inv(l, n, t) && v < TWO48
    ensures Walk(l, t, v) == Meaning(n, t.slots, v)
  {
    hide *;
    if v < 0x10_0000_0000 { WalkLow(l, n, t, v); } else { WalkHigh(l, n, t, v); }
  }

  lemma WalkLow(l: Layout, n: nat, t: Tables, v: nat)
    requires Inv(l, n, t) && v < 0x10_0000_0000
    ensures Walk(l, t, v) == Meaning(n, t.slots, v)
  {
    Indices(v);
    assert SlotsOk(t.slots) && n <= MAX_PDPT_ENTRIES;
    hide Inv, Walk, Meaning, SlotsOk, PdValue, Frame2M;
    WalkToDirectory(l, n, t, v, v / GB, v / MB2 % 512);
    PdValueMeaning(n, t.slots, v);
  }

  /** Above 64 GB nothing is mapped. */
  lemma WalkHigh(l: Layout, n: nat, t: Tables, v: nat)
    requires Inv(l, n, t) && 0x10_0000_0000 <= v < TWO48
    ensures Walk(l, t, v) == Meaning(n, t.slots, v)
  {
    Indices(v);
    assert !Present(0);
    TableEntryDecodes(l.pdpt);
    PdptStep(l, n, t, v / GB % 512);
    assert Entry(l, t, l.pml4, v / 0x80_0000_0000 % 512) == t.pml4[v / 0x80_0000_0000 % 512];
    hide TableBase, Frame2M, Frame1G, TableEntry, PageEntry, Entry, Present;
  }

  lemma InitInv(l: Layout, n: nat)
    requires WfLayout(l) && n <= MAX_PDPT_ENTRIES
    ensures Inv(l, n, Init(l, n))
  {
  }

  lemma MapKeepsInv(l: Layout, n: nat, t: Tables, p: u64)
    requires Inv(l, n, t)
    ensures Inv(l, n, MapMmio(l, t, p).0)
  {
  }

  // ----- sequences of calls -----

  /** Address r is slot i's place for p. */
  ghost predicate Placed(slots: seq<u64>, p: u64, r: nat)
  {
    exists i :: 0 <= i < |slots| && slots[i] == FrameOf(p) && r == WindowAddr(i, p)
  }

  lemma MapPlaces(l: Layout, n: nat, t: Tables, p: u64)
    requires Inv(l, n, t) && p >= 4 * GB
    ensures var (t', r) := MapMmio(l, t, p); r != 0 ==> Placed(t'.slots, p, r)
  {
  }

  lemma FrameMod(p: u64)
    ensures FrameOf(p) % TWO52 + (p - FrameOf(p)) == p % TWO52
  {
  }

  lemma WindowAddrParts(i: nat, p: u64)
    ensures WindowAddr(i, p) / MB2 == WINDOW_FRAME + i && WindowAddr(i, p) % MB2 == p - FrameOf(p)
  {
  }

  /** A placed address is translated to its physical address, up to 52 bits. */
  lemma PlacedMeaning(n: nat, slots: seq<u64>, p: u64, r: nat)
    requires SlotsOk(slots) && Placed(slots, p, r)
    ensures r < TWO48 && Meaning(n, slots, r) == Mapped(p % TWO52, true, true)
  {
    var i :| 0 <= i < |slots| && slots[i] == FrameOf(p) && r == WindowAddr(i, p);
    WindowAddrParts(i, p);
    FrameMod(p);
    hide FrameOf;
  }

  ghost function Run(l: Layout, t: Tables, ps: seq<u64>): (r: (Tables, seq<nat>))
    requires WfLayout(l) && Sized(t)
    ensures Sized(r.0) && |r.1| == |ps|
    decreases |ps|
  {
    if ps == [] then (t, [])
    else
      var (t', r) := MapMmio(l, t, ps[0]);
      var (u, rs) := Run(l, t', ps[1..]);
      (u, [r] + rs)
  }

  lemma {:induction false} RunKeepsInv(l: Layout, n: nat, t: Tables, ps: seq<u64>)
    requires Inv(l, n, t)
    ensures Inv(l, n, Run(l, t, ps).0) && t.slots <= Run(l, t, ps).0.slots
    decreases |ps|
  {
    assert WfLayout(l) && Sized(t);
    if ps != [] {
      MapKeepsInv(l, n, t, ps[0]);
      hide Inv;
      RunKeepsInv(l, n, MapMmio(l, t, ps[0]).0, ps[1..]);
    }
  }

  lemma PlacedStays(slots: seq<u64>, more: seq<u64>, p: u64, r: nat)
    requires Placed(slots, p, r) && slots <= more
    ensures Placed(more, p, r)
  {
  }

  lemma {:induction false} RunPlaces(l: Layout, n: nat, t: Tables, ps: seq<u64>, k: nat)
    requires Inv(l, n, t) && k < |ps| && ps[k] >= 4 * GB && Run(l, t, ps).1[k] != 0
    ensures Placed(Run(l, t, ps).0.slots, ps[k], Run(l, t, ps).1[k])
    decreases |ps|
  {
    assert WfLayout(l) && Sized(t);
    MapKeepsInv(l, n, t, ps[0]);
    var (t', r) := MapMmio(l, t, ps[0]);
    if k == 0 {
      MapPlaces(l, n, t, ps[0]);
      RunKeepsInv(l, n, t', ps[1..]);
      hide Inv, MapMmio, Placed;
      PlacedStays(t'.slots, Run(l, t', ps[1..]).0.slots, ps[0], r);
    } else {
      hide Inv, MapMmio, Placed;
      RunPlaces(l, n, t', ps[1..], k - 1);
    }
  }

  /**
   * After set-up and any sequence of mapping calls, every window address returned is translated to the
   * physical address asked for, and everything else is as set up. As the sequence is arbitrary, later calls keep this.
   */
  lemma WindowTheorem(l: Layout, n: nat, ps: seq<u64>)
    requires WfLayout(l) && n <= MAX_PDPT_ENTRIES
    ensures var (t, rs) := Run(l, Init(l, n), ps);
      && (forall k :: 0 <= k < |ps| && ps[k] >= 4 * GB && rs[k] != 0 ==>
            Walk(l, t, rs[k]) == Mapped(ps[k] % TWO52, true, true))
      && (forall v: nat :: v < TWO48 && !(WINDOW_FRAME <= v / MB2 < WINDOW_FRAME + |t.slots|) ==>
           Walk(l, t, v) == if v < n * GB then Mapped(v, true, true) else Fault)
  {
    InitInv(l, n);
    var t0 := Init(l, n);
    RunKeepsInv(l, n, t0, ps);
    var (t, rs) := Run(l, t0, ps);
    assert SlotsOk(t.slots);
    hide Init, Run, Walk, Inv, SlotsOk;
    forall k | 0 <= k < |ps| && ps[k] >= 4 * GB && rs[k] != 0
      ensures Walk(l, t, rs[k]) == Mapped(ps[k] % TWO52, true, true)
    {
      RunPlaces(l, n, t0, ps, k);
      PlacedMeaning(n, t.slots, ps[k], rs[k]);
      WalkIsMeaning(l, n, t, rs[k]);
    }
    forall v: nat | v < TWO48 && !(WINDOW_FRAME <= v / MB2 < WINDOW_FRAME + |t.slots|)
      ensures Walk(l, t, v) == if v < n * GB then Mapped(v, true, true) else Fault
    {
      WalkIsMeaning(l, n, t, v);
    }
  }

  /** Window addresses lie in the 32 MB from 0xF0000000 on, at the same place in a 2 MB frame as what they stand for. */
  lemma WindowPlace(l: Layout, n: nat, ps: seq<u64>, k: nat)
    requires WfLayout(l) && n <= MAX_PDPT_ENTRIES && k < |ps| && ps[k] >= 0x1_0000_0000
    ensures var r := Run(l, Init(l, n), ps).1[k];
      r != 0 ==> 0xF000_0000 <= r < 0xF200_0000 && r % 0x20_0000 == ps[k] % 0x20_0000
  {
    var t0 := Init(l, n);
    var (t, rs) := Run(l, t0, ps);
    if rs[k] != 0 {
      InitInv(l, n);
      RunKeepsInv(l, n, t0, ps);
      RunPlaces(l, n, t0, ps, k);
      assert |t.slots| <= WINDOW_SLOTS;
      hide Init, Run, Inv;
      PlacedAt(t.slots, ps[k], rs[k]);
    }
  }

  lemma PlacedAt(slots: seq<u64>, p: u64, r: nat)
    requires |slots| <= WINDOW_SLOTS && Placed(slots, p, r)
    ensures 0xF000_0000 <= r < 0xF200_0000 && r % 0x20_0000 == p % 0x20_0000
  {
    var i :| 0 <= i < |slots| && slots[i] == FrameOf(p) && r == WindowAddr(i, p);
    WindowAddrParts(i, p);
    assert p - FrameOf(p) == p % MB2;
    hide FrameOf;
  }

  // ----- addresses below 4 GB, which are returned as they are -----

  predicate InUsedSlot(slots: seq<u64>, v: nat) { WINDOW_FRAME <= v / MB2 < WINDOW_FRAME + |slots| }

  /** In the identity map and not in a used slot, or in a slot whose frame has the same low 52 bits. */
  predicate SelfMapped(n: nat, slots: seq<u64>, p: u64)
  {
    if InUsedSlot(slots, p) then slots[p / MB2 - WINDOW_FRAME] % TWO52 == FrameOf(p) else InIdentityMap(n, p)
  }

  lemma RunCons(l: Layout, t: Tables, ps: seq<u64>)
    requires WfLayout(l) && Sized(t) && ps != []
    ensures var (t', r) := MapMmio(l, t, ps[0]);
      Run(l, t, ps) == (Run(l, t', ps[1..]).0, [r] + Run(l, t', ps[1..]).1)
  {
  }

  lemma {:induction false} LowReturned(l: Layout, t: Tables, ps: seq<u64>, k: nat)
    requires WfLayout(l) && Sized(t) && k < |ps| && ps[k] < 4 * GB
    ensures Run(l, t, ps).1[k] == ps[k]
    decreases |ps|
  {
    RunCons(l, t, ps);
    hide Run;
    if k > 0 { LowReturned(l, MapMmio(l, t, ps[0]).0, ps[1..], k - 1); }
  }

  /** An address below 4 GB is returned unchanged; this is exactly when it is translated to itself. */
  lemma LowTheorem(l: Layout, n: nat, ps: seq<u64>, k: nat)
    requires WfLayout(l) && n <= MAX_PDPT_ENTRIES && k < |ps| && ps[k] < 4 * GB
    ensures var (t, rs) := Run(l, Init(l, n), ps);
      rs[k] == ps[k] && (Walk(l, t, rs[k]) == Mapped(ps[k], true, true) <==> SelfMapped(n, t.slots, ps[k]))
  {
    var t0 := Init(l, n);
    hide *;
    InitInv(l, n);
    RunKeepsInv(l, n, t0, ps);
    LowReturned(l, t0, ps, k);
    var t := Run(l, t0, ps).0;
    WalkIsMeaning(l, n, t, ps[k]);
    LowMeaning(n, t.slots, ps[k]);
  }

  lemma LowMeaning(n: nat, slots: seq<u64>, p: u64)
    ensures Meaning(n, slots, p) == Mapped(p, true, true) <==> SelfMapped(n, slots, p)
  {
    var k := p / MB2;
    assert p == k * MB2 + p % MB2 && FrameOf(p) == k * MB2;
    assert k < 512 * n <==> p < n * GB;
  }

  /** Once 4 GB is in the first slot, the window's own first address is returned as it is and leads to 4 GB. */
  lemma ShadowedExample(l: Layout, n: nat)
    requires WfLayout(l) && n <= MAX_PDPT_ENTRIES
    ensures var (t, rs) := Run(l, Init(l, n), [4 * GB, WINDOW_BASE]);
      rs[1] == WINDOW_BASE && Walk(l, t, rs[1]) == Mapped(4 * GB, true, true)
  {
    var t0, ps: seq<u64> := Init(l, n), [4 * GB, WINDOW_BASE];
    FirstSlot(l, t0, ps);
    assert Meaning(n, [4 * GB], WINDOW_BASE) == Mapped(4 * GB, true, true);
    hide *;
    InitInv(l, n);
    RunKeepsInv(l, n, t0, ps);
    LowReturned(l, t0, ps, 1);
    WalkIsMeaning(l, n, Run(l, t0, ps).0, WINDOW_BASE);
  }

  lemma FirstSlot(l: Layout, t: Tables, ps: seq<u64>)
    requires WfLayout(l) && Sized(t) && t.slots == [] && |ps| == 2 && ps[0] == 4 * GB && ps[1] < 4 * GB
    ensures Run(l, t, ps).0.slots == [4 * GB]
  {
    var t1 := MapMmio(l, t, ps[0]).0;
    assert t1.slots == [4 * GB];
    var rest := ps[1..];
    assert MapMmio(l, t1, rest[0]) == (t1, ps[1]);
    hide MapMmio;
    RunCons(l, t, ps);
    RunCons(l, t1, rest);
    assert rest[1..] == [];
  }

  /** Two window addresses share a slot exactly when their physical addresses share a 2 MB frame. */
  lemma SlotsAreShared(l: Layout, n: nat, ps: seq<u64>, j: nat, k: nat)
    requires WfLayout(l) && n <= MAX_PDPT_ENTRIES && j < |ps| && k < |ps| && ps[j] >= 4 * GB && ps[k] >= 4 * GB
    requires var rs := Run(l, Init(l, n), ps).1; rs[j] != 0 && rs[k] != 0
    ensures var rs := Run(l, Init(l, n), ps).1; rs[j] / MB2 == rs[k] / MB2 <==> FrameOf(ps[j]) == FrameOf(ps[k])
  {
    InitInv(l, n);
    var t0 := Init(l, n);
    RunKeepsInv(l, n, t0, ps);
    RunPlaces(l, n, t0, ps, j);
    RunPlaces(l, n, t0, ps, k);
    var (t, rs) := Run(l, t0, ps);
    assert Distinct(t.slots);
    hide Init, Run, Inv, Distinct;
    SameSlot(t.slots, ps[j], ps[k], rs[j], rs[k]);
  }

  lemma SameSlot(slots: seq<u64>, p: u64, q: u64, r: nat, s: nat)
    requires Distinct(slots) && Placed(slots, p, r) && Placed(slots, q, s)
    ensures r / MB2 == s / MB2 <==> FrameOf(p) == FrameOf(q)
  {
  }

  ghost function SlotSet(slots: seq<u64>): (r: set<u64>) { set i | 0 <= i < |slots| :: slots[i] }

  ghost function Frames(ps: seq<u64>): (r: set<u64>) { set i | 0 <= i < |ps| && ps[i] >= 4 * GB :: FrameOf(ps[i]) }

  lemma {:induction false} SlotCount(slots: seq<u64>)
    requires Distinct(slots)
    ensures |SlotSet(slots)| == |slots|
  {
    if slots != [] {
      var m := |slots| - 1;
      SlotCount(slots[..m]);
      assert SlotSet(slots) == SlotSet(slots[..m]) + {slots[m]};
      assert slots[m] !in SlotSet(slots[..m]);
    }
  }

  ghost predicate AllMapped(ps: seq<u64>, rs: seq<nat>)
    requires |ps| == |rs|
  {
    forall k :: 0 <= k < |ps| && ps[k] >= 4 * GB ==> rs[k] != 0
  }

  lemma AllStep(ps: seq<u64>, r: nat, rs: seq<nat>)
    requires |ps| == |rs| + 1
    ensures AllMapped(ps, [r] + rs) <==> (ps[0] >= 4 * GB ==> r != 0) && AllMapped(ps[1..], rs)
  {
  }

  lemma FramesStep(ps: seq<u64>)
    requires ps != []
    ensures Frames(ps) == (if ps[0] >= 4 * GB then {FrameOf(ps[0])} else {}) + Frames(ps[1..])
  {
  }

  lemma SlotSetAppend(slots: seq<u64>, b: u64)
    ensures SlotSet(slots + [b]) == SlotSet(slots) + {b}
  {
    var more := slots + [b];
    assert more[|slots|] == b && forall i :: 0 <= i < |slots| ==> more[i] == slots[i];
  }

  lemma MapOutcome(l: Layout, t: Tables, p: u64)
    requires WfLayout(l) && Sized(t) && p >= 4 * GB
    ensures var (t', r) := MapMmio(l, t, p);
      if FrameOf(p) in SlotSet(t.slots) then r != 0 && t'.slots == t.slots
      else if |t.slots| < WINDOW_SLOTS then r != 0 && t'.slots == t.slots + [FrameOf(p)]
      else r == 0 && t'.slots == t.slots
  {
  }

  lemma WindowStep(l: Layout, t: Tables, ps: seq<u64>)
    requires WfLayout(l) && Sized(t) && ps != [] && |t.slots| == |SlotSet(t.slots)| <= WINDOW_SLOTS
    requires var t' := MapMmio(l, t, ps[0]).0;
      AllMapped(ps[1..], Run(l, t', ps[1..]).1) <==> |SlotSet(t'.slots) + Frames(ps[1..])| <= WINDOW_SLOTS
    ensures AllMapped(ps, Run(l, t, ps).1) <==> |SlotSet(t.slots) + Frames(ps)| <= WINDOW_SLOTS
  {
    var (t', r) := MapMmio(l, t, ps[0]);
    assert Run(l, t, ps).1 == [r] + Run(l, t', ps[1..]).1;
    AllStep(ps, r, Run(l, t', ps[1..]).1);
    FramesStep(ps);
    if ps[0] < 4 * GB {
      hide Run, SlotSet, Frames, AllMapped;
    } else {
      var f := FrameOf(ps[0]);
      SlotSetAppend(t.slots, f);
      MapOutcome(l, t, ps[0]);
      UnionCases(SlotSet(t.slots), f, Frames(ps[1..]));
      hide MapMmio, SlotSet, Frames, AllMapped, Run, FrameOf;
    }
  }

  /** No call returns NULL exactly when the frames ever asked for fit the window. */
  lemma {:induction false} WindowSuffices(l: Layout, n: nat, t: Tables, ps: seq<u64>)
    requires Inv(l, n, t)
    ensures AllMapped(ps, Run(l, t, ps).1) <==> |SlotSet(t.slots) + Frames(ps)| <= 16
    decreases |ps|
  {
    assert WfLayout(l) && Sized(t) && |t.slots| <= WINDOW_SLOTS && Distinct(t.slots);
    SlotCount(t.slots);
    hide Inv, Distinct;
    if ps == [] {
      assert SlotSet(t.slots) + Frames(ps) == SlotSet(t.slots);
    } else {
      MapKeepsInv(l, n, t, ps[0]);
      hide MapMmio, SlotSet, Frames, AllMapped, Run;
      WindowSuffices(l, n, MapMmio(l, t, ps[0]).0, ps[1..]);
      WindowStep(l, t, ps);
    }
  }

  lemma UnionCases(s: set<u64>, f: u64, rest: set<u64>)
    ensures s + ({f} + rest) == (s + {f}) + rest
    ensures f in s ==> s + {f} == s
    ensures f !in s ==> |s + ({f} + rest)| > |s|
  {
    if f !in s {
      var u := s + ({f} + rest);
      assert u == s + (u - s) && f in u - s;
    }
  }
}
