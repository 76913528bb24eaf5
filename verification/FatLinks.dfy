/** Updating a FAT link in every copy of the FAT. */
module FatLinks {
  import opened Bytes
  import opened Disk
  import opened FatSpec
  import opened Fat32

  /** A link slot with its low 28 bits replaced; the top four bits are reserved and kept. */
  function PatchLink(s: Sector, o: nat, next: u32): (r: Sector)
    requires o + 4 <= SECTOR
  {
    s[o := next % 0x100][o + 1 := next / 0x100 % 0x100][o + 2 := next / 0x1_0000 % 0x100]
     [o + 3 := s[o + 3] / 16 * 16 + next / 0x100_0000 % 16]
  }

  lemma Low28(next: u32)
    ensures next % LINK_MASK
         == next % 0x100 + 0x100 * (next / 0x100 % 0x100) + 0x1_0000 * (next / 0x1_0000 % 0x100)
            + 0x100_0000 * (next / 0x100_0000 % 16)
  {
    Digits32(next);
    var top := next / 0x100_0000;
    assert top == 16 * (top / 16) + top % 16;
    assert next == LINK_MASK * (top / 16)
      + (next % 0x100 + 0x100 * (next / 0x100 % 0x100) + 0x1_0000 * (next / 0x1_0000 % 0x100)
         + 0x100_0000 * (top % 16));
  }

  lemma PatchedBytes(s: Sector, o: nat, next: u32)
    requires o + 4 <= SECTOR
    ensures RawLink(PatchLink(s, o, next), o)
         == next % 0x100 + 0x100 * (next / 0x100 % 0x100) + 0x1_0000 * (next / 0x1_0000 % 0x100)
            + 0x100_0000 * (s[o + 3] / 16 * 16 + next / 0x100_0000 % 16)
  {
  }

  lemma PatchedLink(s: Sector, o: nat, next: u32)
    requires o + 4 <= SECTOR
    ensures RawLink(PatchLink(s, o, next), o) % LINK_MASK == next % LINK_MASK
    ensures RawLink(PatchLink(s, o, next), o) / LINK_MASK == RawLink(s, o) / LINK_MASK
  {
    PatchedBytes(s, o, next);
    Low28(next);
    OldTop(s, o);
    var x, q, low := RawLink(PatchLink(s, o, next), o), s[o + 3] / 16, next % LINK_MASK;
    hide RawLink, PatchLink;
    DivMod(x, LINK_MASK, q, low);
  }

  lemma OldTop(s: Sector, o: nat)
    requires o + 4 <= SECTOR
    ensures RawLink(s, o) / LINK_MASK == s[o + 3] / 16
  {
    var x, t := RawLink(s, o), s[o + 3] as int;
    var rest := (s[o] as int) + 0x100 * (s[o + 1] as int) + 0x1_0000 * (s[o + 2] as int);
    assert x == rest + 0x100_0000 * t;
    hide RawLink;
    DivMod(t, 16, t / 16, t % 16);
    DivMod(x, LINK_MASK, t / 16, 0x100_0000 * (t % 16) + rest);
  }

  lemma OtherSlot(s: Sector, o: nat, next: u32, q: nat)
    requires o + 4 <= SECTOR && q + 4 <= SECTOR && (q + 4 <= o || o + 4 <= q)
    ensures RawLink(PatchLink(s, o, next), q) == RawLink(s, q)
  {
  }

  /** Sector of copy k of the FAT that holds the link of c. */
  function CopySector(b: Bpb, k: nat, c: nat): nat { b.reserved + Times(k, b.fatSize) + c / 128 }

  ghost predicate CopiesInRange(b: Bpb, c: nat, k: nat, n: nat) { forall j :: 0 <= j < k ==> CopySector(b, j, c) < n }

  /** The disk after the first k copies have been updated. */
  function SetCopies(d: seq<Sector>, b: Bpb, c: nat, next: u32, k: nat): (r: seq<Sector>)
    requires CopiesInRange(b, c, k, |d|)
    ensures |r| == |d|
  {
    if k == 0 then d
    else
      var e := SetCopies(d, b, c, next, k - 1);
      var l := CopySector(b, k - 1, c);
      e[l := PatchLink(e[l], LinkOffset(c), next)]
  }

  /** The first k copies are in range and updated, and nothing else changed. */
  ghost predicate Updated(d: seq<Sector>, e: seq<Sector>, b: Bpb, c: nat, next: u32, k: nat)
  {
    CopiesInRange(b, c, k, |d|) && e == SetCopies(d, b, c, next, k)
  }

  /** Updates the copies in order; a failure leaves a prefix of them updated. */
  method SetNextCluster(drive: Drive, b: Bpb, c: nat, next: u32) returns (ok: bool)
    modifies drive`clock, drive`sectors
    ensures ok ==> IsLink(c) && Updated(old(drive.sectors), drive.sectors, b, c, next, b.fats)
    ensures !ok ==> exists k: nat :: k <= b.fats && Updated(old(drive.sectors), drive.sectors, b, c, next, k)
    ensures drive.Working() ==> (ok <==> IsLink(c) && CopiesInRange(b, c, b.fats, |old(drive.sectors)|))
  {
    ghost var d := drive.sectors;
    if c < 2 || c >= END_OF_CHAIN {
      assert Updated(d, drive.sectors, b, c, next, 0);
      return false;
    }
    LinkPlace(c);
    var offset := c * 4 % SECTOR;
    for fat := 0 to b.fats
      invariant Updated(d, drive.sectors, b, c, next, fat)
    {
      var sector := b.reserved + Times(fat, b.fatSize) + c * 4 / SECTOR;
      assert sector == CopySector(b, fat, c);
      var read, buf := drive.Read(sector, 1);
      if !read { assert Updated(d, drive.sectors, b, c, next, fat); return false; }
      OneSector(drive.sectors, sector);
      var patched: Sector := buf[offset := next % 0x100][offset + 1 := next / 0x100 % 0x100]
                                [offset + 2 := next / 0x1_0000 % 0x100]
                   [offset + 3 := buf[offset + 3] / 16 * 16 + next / 0x100_0000 % 16];
      var wrote := drive.Write(sector, patched);
      if !wrote { return false; }
    }
    ok := true;
  }

  // ----- what an update means -----

  /** The whole 32-bit slot of cluster x in copy k. */
  function Slot(d: seq<Sector>, b: Bpb, k: nat, x: nat): (r: u32)
    requires CopySector(b, k, x) < |d|
  {
    RawLink(d[CopySector(b, k, x)], LinkOffset(x))
  }

  ghost predicate HasSlot(b: Bpb, n: nat, size: nat, k: nat, x: nat)
  {
    WfVolume(b, n, size) && k < b.fats && x < 128 * b.fatSize
  }

  lemma SlotInFat(b: Bpb, n: nat, size: nat, k: nat, x: nat)
    requires HasSlot(b, n, size, k, x)
    ensures b.reserved + Times(k, b.fatSize) <= CopySector(b, k, x) < b.reserved + Times(k + 1, b.fatSize)
    ensures CopySector(b, k, x) < DataStart(b) <= size
  {
  }

  /** Slots of different copies, or in different sectors of one copy, are in different sectors. */
  lemma SlotsApart(b: Bpb, n: nat, size: nat, k: nat, x: nat, j: nat, c: nat)
    requires HasSlot(b, n, size, k, x) && HasSlot(b, n, size, j, c)
    ensures CopySector(b, k, x) == CopySector(b, j, c) <==> k == j && x / 128 == c / 128
  {
  }

  /** After m copies are updated: in those copies the slot of c has the new link, every other slot is as before. */
  lemma {:induction false} SlotAfter(d: seq<Sector>, b: Bpb, n: nat, c: nat, next: u32, m: nat, k: nat, x: nat)
    requires HasSlot(b, n, |d|, k, x) && c < 128 * b.fatSize && m <= b.fats && CopiesInRange(b, c, m, |d|)
    requires CopySector(b, k, x) < |d|
    ensures var e := SetCopies(d, b, c, next, m);
      if x == c && k < m
      then && Slot(e, b, k, x) % LINK_MASK == next % LINK_MASK
           && Slot(e, b, k, x) / LINK_MASK == Slot(d, b, k, x) / LINK_MASK
      else Slot(e, b, k, x) == Slot(d, b, k, x)
    decreases m
  {
    if m > 0 {
      SlotAfter(d, b, n, c, next, m - 1, k, x);
      SlotsApart(b, n, |d|, k, x, m - 1, c);
      var e := SetCopies(d, b, c, next, m - 1);
      var s := e[CopySector(b, m - 1, c)];
      hide RawLink, PatchLink, WfVolume, Times, CopySector;
      if k == m - 1 && x / 128 == c / 128 {
        if x == c { PatchedLink(s, LinkOffset(c), next); }
        else { OffsetsApart(x, c); OtherSlot(s, LinkOffset(c), next, LinkOffset(x)); }
      }
    }
  }

  lemma OffsetsApart(x: nat, c: nat)
    requires x != c && x / 128 == c / 128
    ensures LinkOffset(x) + 4 <= LinkOffset(c) || LinkOffset(c) + 4 <= LinkOffset(x)
  {
  }

  /** Copy k and copy j hold the same 28-bit links. */
  ghost predicate Agree(d: seq<Sector>, b: Bpb, n: nat, k: nat, j: nat)
  {
    forall x :: 0 <= x < 128 * b.fatSize && HasSlot(b, n, |d|, k, x) && HasSlot(b, n, |d|, j, x)
      && CopySector(b, k, x) < |d| && CopySector(b, j, x) < |d|
      ==> Slot(d, b, k, x) % LINK_MASK == Slot(d, b, j, x) % LINK_MASK
  }

  lemma LinkIsSlot(d: seq<Sector>, b: Bpb, n: nat, x: nat)
    requires HasSlot(b, n, |d|, 0, x) && IsLink(x)
    ensures CopySector(b, 0, x) < |d| && Link(d, b, x) == Slot(d, b, 0, x) % LINK_MASK
  {
    SlotInFat(b, n, |d|, 0, x);
    TimesNext(0, b.fatSize);
  }

  /**
   * A successful update: reading the link back gives the low 28 bits written, every other cluster's
   * link is unchanged, reserved bits survive in every copy, and copies that agreed still agree.
   */
  lemma SetThenGet(d: seq<Sector>, b: Bpb, n: nat, c: nat, next: u32)
    requires WfVolume(b, n, |d|) && IsLink(c) && c < 128 * b.fatSize && CopiesInRange(b, c, b.fats, |d|)
    ensures var e := SetCopies(d, b, c, next, b.fats);
      && Link(e, b, c) == next % LINK_MASK
      && (forall x: nat :: IsLink(x) && x != c && x < 128 * b.fatSize ==> Link(e, b, x) == Link(d, b, x))
      && (forall k :: 0 <= k < b.fats ==>
            CopySector(b, k, c) < |d| && Slot(e, b, k, c) / LINK_MASK == Slot(d, b, k, c) / LINK_MASK)
      && (forall k, j :: 0 <= k < b.fats && 0 <= j < b.fats && Agree(d, b, n, k, j) ==> Agree(e, b, n, k, j))
  {
    hide Slot, RawLink, PatchLink, Times, Link, CopySector, WfVolume, SetCopies, Agree;
    var e := SetCopies(d, b, c, next, b.fats);
    assert b.fats >= 1 by { FatsPositive(b, n, |d|); }
    LinkIsSlot(d, b, n, c);
    LinkIsSlot(e, b, n, c);
    SlotAfter(d, b, n, c, next, b.fats, 0, c);
    forall x: nat | IsLink(x) && x != c && x < 128 * b.fatSize ensures Link(e, b, x) == Link(d, b, x) {
      LinkIsSlot(d, b, n, x);
      LinkIsSlot(e, b, n, x);
      SlotAfter(d, b, n, c, next, b.fats, 0, x);
    }
    forall k | 0 <= k < b.fats
      ensures CopySector(b, k, c) < |d| && Slot(e, b, k, c) / LINK_MASK == Slot(d, b, k, c) / LINK_MASK
    {
      SlotInFat(b, n, |d|, k, c);
      SlotAfter(d, b, n, c, next, b.fats, k, c);
    }
    forall k, j | 0 <= k < b.fats && 0 <= j < b.fats && Agree(d, b, n, k, j) ensures Agree(e, b, n, k, j) {
      StillAgree(d, b, n, c, next, k, j);
    }
  }

  lemma FatsPositive(b: Bpb, n: nat, size: nat)
    requires WfVolume(b, n, size)
    ensures b.fats >= 1
  {
  }

  lemma StillAgree(d: seq<Sector>, b: Bpb, n: nat, c: nat, next: u32, k: nat, j: nat)
    requires WfVolume(b, n, |d|) && c < 128 * b.fatSize && CopiesInRange(b, c, b.fats, |d|)
    requires k < b.fats && j < b.fats && Agree(d, b, n, k, j)
    ensures Agree(SetCopies(d, b, c, next, b.fats), b, n, k, j)
  {
    hide Slot, RawLink, PatchLink, Times, Link, CopySector, WfVolume, SetCopies;
    var e := SetCopies(d, b, c, next, b.fats);
    forall x | 0 <= x < 128 * b.fatSize && HasSlot(b, n, |e|, k, x) && HasSlot(b, n, |e|, j, x)
        && CopySector(b, k, x) < |e| && CopySector(b, j, x) < |e|
      ensures Slot(e, b, k, x) % LINK_MASK == Slot(e, b, j, x) % LINK_MASK
    {
      SlotAfter(d, b, n, c, next, b.fats, k, x);
      SlotAfter(d, b, n, c, next, b.fats, j, x);
    }
  }
}
