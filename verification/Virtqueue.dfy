/** The virtqueue in memory: ring layout, set-up, and the submit call beside a running device. */
module Virtqueue {
  import opened Bytes
  import Spec = VirtqueueSpec

  // ----- placement of the rings -----

  function DescBytes(size: u16): (n: nat) { 16 * (size as int) }

  function AvailBytes(size: u16): (n: nat) { 6 + 2 * (size as int) }

  function UsedBytes(size: u16): (n: nat) { 6 + 8 * (size as int) }

  /** Rounded up to a multiple of 4, in 32-bit arithmetic. */
  function UsedOffset(size: u16): (n: nat) { 4 * (Wrap32(DescBytes(size) + AvailBytes(size) + 3) / 4) }

  function Total(size: u16): (n: nat) { UsedOffset(size) + UsedBytes(size) }

  /** The first 4096-aligned address at or after an allocation's start. */
  function Aligned(raw: nat): (a: nat) { 4096 * ((raw + 4095) / 4096) }

  lemma Div4096(x: nat)
    ensures 4096 * (x / 4096) <= x < 4096 * (x / 4096) + 4096
  {
  }

  lemma Times16(k: nat)
    ensures (16 * k) % 16 == 0
  {
  }

  lemma Times4(k: nat)
    ensures (4 * k) % 4 == 0
  {
  }

  lemma Times2(k: nat)
    ensures (2 * k) % 2 == 0
  {
  }

  lemma AlignedIn(raw: nat)
    ensures raw <= Aligned(raw) <= raw + 4095 && Aligned(raw) % 16 == 0
  {
    var k := (raw + 4095) / 4096;
    Div4096(raw + 4095);
    Times16(256 * k);
    assert Aligned(raw) == 4096 * k;
    hide Aligned;
  }

  lemma UsedOffsetIs(size: u16)
    ensures var n := DescBytes(size) + AvailBytes(size); n <= UsedOffset(size) <= n + 3
  {
  }

  lemma AvailAligned(size: u16, raw: nat)
    ensures (Aligned(raw) + DescBytes(size)) % 2 == 0
  {
    var k := (raw + 4095) / 4096;
    assert Aligned(raw) + DescBytes(size) == 2 * (2048 * k + 8 * (size as int));
    hide Aligned, DescBytes;
    Times2(2048 * k + 8 * (size as int));
  }

  lemma UsedAligned(size: u16, raw: nat)
    ensures (Aligned(raw) + UsedOffset(size)) % 4 == 0
  {
    var k, m := (raw + 4095) / 4096, Wrap32(DescBytes(size) + AvailBytes(size) + 3) / 4;
    hide Wrap32, DescBytes, AvailBytes;
    assert Aligned(raw) + UsedOffset(size) == 4 * (1024 * k + m);
    hide Aligned, UsedOffset;
    Times4(1024 * k + m);
  }

  /**
   * The descriptor table of 16 bytes an entry, the available ring of 6 bytes and 2 an entry, and the used ring of 6
   * bytes and 8 an entry are aligned to 16, 2 and 4 (section 2.6 of VirtIO 1.1). They follow each other without
   * overlap, with at most 3 bytes between them, and stay inside the allocation, for every queue size.
   */
  lemma RingsFit(size: u16, raw: nat)
    ensures Total(size) + 4095 < TWO32
    ensures var ring := Aligned(raw); var avail, used := ring + DescBytes(size), ring + UsedOffset(size);
      && raw <= ring < raw + 4096
      && ring % 16 == 0 && avail % 2 == 0 && used % 4 == 0
      && avail == ring + 16 * (size as int)
      && avail + 6 + 2 * (size as int) <= used < avail + 6 + 2 * (size as int) + 4
      && used + 6 + 8 * (size as int) == ring + Total(size)
  {
    UsedOffsetIs(size);
    AlignedIn(raw);
    AvailAligned(size, raw);
    UsedAligned(size, raw);
    hide UsedOffset, Aligned;
  }

  class Virtqueue {
    const schedule: nat -> nat
    var size: u16
    var desc: array<Spec.Desc>
    var ring: array<u16>
    var availIdx: u16
    var sharedIdx: u16
    var usedSeen: u16
    var usedIdx: u16
    var lastAvail: u16
    var clock: nat
    ghost var log: seq<Spec.Request>
    ghost var published: nat
    ghost var seen: nat

    ghost predicate Valid()
      reads this
    {
      desc.Length == size && ring.Length == size
    }

    ghost function View(): (q: Spec.Queue)
      requires Valid()
      reads this, desc, ring
      ensures Spec.Wf(q)
    {
      Spec.Queue(size, desc[..], ring[..], availIdx, sharedIdx, usedSeen, usedIdx, lastAvail,
                 log, published, seen, clock)
    }

    /** No queue yet. */
    constructor (s: nat -> nat)
      ensures Valid() && schedule == s && View() == Spec.Init(0)
    {
      schedule := s;
      size := 0;
      desc := new Spec.Desc[0];
      ring := new u16[0];
      availIdx, sharedIdx, usedSeen, usedIdx, lastAvail, clock := 0, 0, 0, 0, 0, 0;
      log, published, seen := [], 0, 0;
      new;
      assert desc[..] == Spec.Init(0).desc && ring[..] == Spec.Init(0).ring;
    }

    /**
     * Set-up with the size the device reports, given whether memory is found and whether the device enables the queue.
     */
    method InitCtrl(qsize: u16, found: bool, enabled: bool) returns (ok: bool)
      requires Valid()
      modifies this
      ensures Valid() && ok == (qsize >= 2 && found && enabled)
      ensures qsize >= 2 && found ==> View() == Spec.Init(qsize).(clock := old(clock)) && fresh(desc) && fresh(ring)
      ensures !(qsize >= 2 && found) ==> unchanged(this)
    {
      hide Spec.Init;
      if qsize < 2 || !found { return false; }
      Reset(qsize);
      return enabled;
    }

    method Reset(qsize: u16)
      modifies this
      ensures Valid() && View() == Spec.Init(qsize).(clock := old(clock)) && fresh(desc) && fresh(ring)
    {
      var d, a := new Spec.Desc[qsize](_ => Spec.Desc(0, 0, 0, 0)), new u16[qsize](_ => 0);
      assert d[..] == Spec.Init(qsize).desc;
      assert a[..] == Spec.Init(qsize).ring;
      size, desc, ring := qsize, d, a;
      availIdx, sharedIdx, usedSeen, usedIdx, lastAvail := 0, 0, 0, 0, 0;
      log, published, seen := [], 0, 0;
    }

    /** The device takes the next available entry, if it sees one. */
    method DeviceStep()
      requires Valid()
      modifies this`log, this`lastAvail, this`usedIdx
      ensures Valid() && View() == Spec.DeviceStep(old(View()))
    {
      if lastAvail != sharedIdx && size != 0 {
        log := log + [Spec.Fetch(desc[..], ring[lastAvail % size])];
        lastAvail := Spec.Next16(lastAvail);
        usedIdx := Spec.Next16(usedIdx);
      }
    }

    /** The device's turn. */
    method DeviceTurn()
      requires Valid()
      modifies this`log, this`lastAvail, this`usedIdx, this`clock
      ensures Valid() && View() == Spec.Turn(old(View()), schedule)
    {
      hide Spec.DeviceStep;
      var n := schedule(clock);
      ghost var q := View();
      while n > 0
        invariant Valid() && clock == q.clock && n >= 0
        invariant Spec.Steps(View(), n) == Spec.Steps(q, schedule(q.clock))
      {
        DeviceStep();
        n := n - 1;
      }
      clock := clock + 1;
    }

    /** The device's turn, then one write of the driver: the k-th of its list. */
    method Write(e: Spec.Edit, ghost es: seq<Spec.Edit>, ghost k: nat)
      requires Valid() && size >= 2 && k < |es| && es[k] == e
      modifies this`log, this`lastAvail, this`usedIdx, this`clock, desc, ring
      ensures Valid() && Spec.ApplyAll(View(), es[k + 1..], schedule) == Spec.ApplyAll(old(View()), es[k..], schedule)
    {
      hide Spec.Turn, Spec.Steps, Spec.Edited;
      assert es[k..][1..] == es[k + 1..] && es[k..][0] == e;
      DeviceTurn();
      ghost var q := View();
      if e.SetRing? {
        ring[availIdx % size] := 0;
        assert ring[..] == q.ring[q.availIdx % q.size := 0];
      } else {
        var i := if e.tail then 1 else 0;
        desc[i] := Spec.Edited(desc[i], e);
        assert desc[..] == q.desc[i := Spec.Edited(q.desc[i], e)];
      }
      assert View() == Spec.Apply(q, e);
    }

    /** The four fields of one descriptor. */
    method WriteDesc(tail: bool, d: Spec.Desc, ghost es: seq<Spec.Edit>, ghost k: nat)
      requires Valid() && size >= 2 && k + 4 <= |es|
      requires es[k] == Spec.SetAddr(tail, d.addr) && es[k + 1] == Spec.SetLen(tail, d.len)
      requires es[k + 2] == Spec.SetFlags(tail, d.flags) && es[k + 3] == Spec.SetNext(tail, d.next)
      modifies this`log, this`lastAvail, this`usedIdx, this`clock, desc, ring
      ensures Valid() && Spec.ApplyAll(View(), es[k + 4..], schedule) == Spec.ApplyAll(old(View()), es[k..], schedule)
    {
      hide Spec.ApplyAll;
      Write(Spec.SetAddr(tail, d.addr), es, k);
      Write(Spec.SetLen(tail, d.len), es, k + 1);
      Write(Spec.SetFlags(tail, d.flags), es, k + 2);
      Write(Spec.SetNext(tail, d.next), es, k + 3);
    }

    /** The two descriptors, the ring entry, and the index that publishes them. */
    method Prepare(r: Spec.Request)
      requires Valid() && size >= 2 && r.Request?
      modifies this`log, this`lastAvail, this`usedIdx, this`clock, this`availIdx, this`sharedIdx, this`published,
               desc, ring
      ensures Valid() && View() == Spec.Prepare(old(View()), r, schedule)
    {
      hide Spec.ApplyAll, Spec.Turn, Spec.Next16, Spec.Edits;
      ghost var es := Spec.Edits(r);
      Spec.EditsList(r);
      WriteDesc(false, Spec.HeadDesc(r), es, 0);
      WriteDesc(true, Spec.TailDesc(r), es, 4);
      Write(Spec.SetRing, es, 8);
      Spec.ApplyNone(View(), schedule);
      DeviceTurn();
      availIdx := Spec.Next16(availIdx);
      sharedIdx := availIdx;
      published := published + 1;
    }

    /** Waiting for the used index to move. */
    method Await(timeout: nat) returns (ok: bool)
      requires Valid() && timeout > 0
      modifies this`log, this`lastAvail, this`usedIdx, this`clock, this`usedSeen, this`seen
      ensures Valid() && (View(), ok) == Spec.Poll(old(View()), schedule, timeout)
    {
      hide Spec.Turn, Spec.Steps;
      ghost var p := View();
      ghost var q := p;
      var left := timeout;
      DeviceTurn();
      while usedIdx == usedSeen
        invariant Valid() && left > 0
        invariant Spec.Wf(q) && View() == Spec.Turn(q, schedule)
        invariant Spec.Poll(q, schedule, left) == Spec.Poll(p, schedule, timeout)
        decreases left
      {
        q := View();
        left := left - 1;
        if left == 0 { return false; }
        DeviceTurn();
      }
      DeviceTurn();
      usedSeen := usedIdx;
      seen := |log|;
      return true;
    }

    /** The timeout counts polls; the kernel's is 10,000,000. */
    method SubmitSync(r: Spec.Request, timeout: nat) returns (ok: bool)
      requires Valid() && r.Request? && timeout > 0
      modifies this`log, this`lastAvail, this`usedIdx, this`clock, this`availIdx, this`sharedIdx, this`published
      modifies this`usedSeen, this`seen, desc, ring
      ensures Valid() && (View(), ok) == Spec.Submit(old(View()), r, schedule, timeout)
    {
      hide Spec.Poll, Spec.Prepare;
      if size < 2 { return false; }
      Prepare(r);
      ok := Await(timeout);
    }
  }
}
