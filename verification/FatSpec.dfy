/** FAT32 volume layout: clusters, FAT links, cluster chains, and files as lists of sectors. */
module FatSpec {
  import opened Bytes
  import opened Disk

  const END_OF_CHAIN: nat := 0x0FFF_FFF8

  const NO_LINK: nat := 0x0FFF_FFFF

  const LINK_MASK: nat := 0x1000_0000

  /** The parameters fat32_init reads; sectors hold 512 bytes. */
  datatype Bpb = Bpb(spc: nat, reserved: nat, fats: nat, fatSize: nat, root: nat)

  predicate IsLink(c: nat) { 2 <= c < END_OF_CHAIN }

  function DataStart(b: Bpb): nat { Wrap32(b.reserved + Times(b.fats, b.fatSize)) }

  function ClusterLba(b: Bpb, c: nat): nat { if c < 2 then 0 else Wrap32(DataStart(b) + Times(c - 2, b.spc)) }

  function ClusterBytes(b: Bpb): nat { SECTOR * b.spc }

  function MaxClusters(b: Bpb): nat { Wrap32(b.fatSize * SECTOR) / 4 }

  /** Sector of the first FAT that holds the link of c, and the offset of the link in it. */
  function LinkSector(b: Bpb, c: nat): nat { b.reserved + c / 128 }

  function LinkOffset(c: nat): (o: nat)
    ensures o + 4 <= SECTOR
  {
    4 * (c % 128)
  }

  function RawLink(s: Sector, o: nat): (r: u32)
    requires o + 4 <= SECTOR
  {
    Le32(s, o)
  }

  /** The successor of c in the FAT; an unreadable or reserved cluster number has none. */
  function Link(d: seq<Sector>, b: Bpb, c: nat): (r: nat)
  {
    if !IsLink(c) || LinkSector(b, c) >= |d| then NO_LINK
    else RawLink(d[LinkSector(b, c)], LinkOffset(c)) % LINK_MASK
  }

  // ----- well-formed volumes -----

  function Times(a: nat, b: nat): nat { a * b }

  /** n data clusters fit the FAT and the disk, and sector numbers stay below the 28-bit limit of the drive. */
  ghost predicate WfVolume(b: Bpb, n: nat, size: nat)
  {
    && 1 <= b.spc <= 128 && 1 <= b.reserved < TWO16 && 1 <= b.fats <= 2 && 1 <= b.fatSize <= 0x20_0000
    && n + 2 <= b.fatSize * 128 && n + 2 < END_OF_CHAIN
    && b.reserved + Times(b.fats, b.fatSize) + Times(n, b.spc) <= size < 0x1000_0000
  }

  predicate InVolume(c: nat, n: nat) { 2 <= c < n + 2 }

  lemma TimesMono(x: nat, y: nat, a: nat)
    requires x <= y
    ensures Times(x, a) <= Times(y, a)
  {
  }

  lemma TimesNext(x: nat, a: nat)
    ensures Times(x + 1, a) == Times(x, a) + a && Times(1, a) == a && Times(0, a) == 0
  {
  }

  lemma DataStartExact(b: Bpb, n: nat, size: nat)
    requires WfVolume(b, n, size)
    ensures DataStart(b) == b.reserved + Times(b.fats, b.fatSize)
    ensures b.reserved + b.fatSize <= DataStart(b) && DataStart(b) + Times(n, b.spc) <= size
  {
  }

  lemma ClusterLbaExact(b: Bpb, n: nat, size: nat, c: nat)
    requires WfVolume(b, n, size) && InVolume(c, n)
    ensures ClusterLba(b, c) == DataStart(b) + Times(c - 2, b.spc)
    ensures 0 < DataStart(b) <= ClusterLba(b, c) && ClusterLba(b, c) + b.spc <= size
  {
    hide Wrap32, DataStart, Times;
    DataStartExact(b, n, size);
    TimesMono(c - 1, n, b.spc);
    TimesNext(c - 2, b.spc);
    WrapSmall(DataStart(b) + Times(c - 2, b.spc));
  }

  /** Data starts behind the reserved sectors and all copies of the FAT, and cluster 2 is the first of it. */
  lemma ClusterPlace(b: Bpb, n: nat, size: nat, c: nat)
    requires WfVolume(b, n, size) && InVolume(c, n)
    ensures ClusterLba(b, c) == b.reserved + b.fats * b.fatSize + (c - 2) * b.spc
  {
    DataStartExact(b, n, size);
    ClusterLbaExact(b, n, size, c);
    assert Times(b.fats, b.fatSize) == b.fats * b.fatSize && Times(c - 2, b.spc) == (c - 2) * b.spc;
    hide ClusterLba, DataStart, Times;
  }

  /**
   * The link of c is the little-endian number in the four bytes at 4 * c of the first FAT, without its top four bits.
   * Cluster numbers below 2, and from 0x0FFFFFF8 on, have none.
   */
  lemma LinkBytes(d: seq<Sector>, b: Bpb, c: nat)
    requires 2 <= c < 0x0FFF_FFF8 && b.reserved + 4 * c / 512 < |d|
    ensures 4 * c % 512 <= 508
    ensures var (s, o) := (d[b.reserved + 4 * c / 512], 4 * c % 512);
      Link(d, b, c) == (s[o] as int) + 0x100 * (s[o + 1] as int) + 0x1_0000 * (s[o + 2] as int)
                       + 0x100_0000 * ((s[o + 3] as int) % 16)
  {
    var q, r := c / 128, c % 128;
    DivMod(4 * c, 512, q, 4 * r);
    var s, o := d[b.reserved + q], 4 * r;
    var x := RawLink(s, o);
    var top := s[o + 3] as int;
    var low := (s[o] as int) + 0x100 * (s[o + 1] as int) + 0x1_0000 * (s[o + 2] as int) + 0x100_0000 * (top % 16);
    assert x == LINK_MASK * (top / 16) + low;
    hide RawLink;
    DivMod(x, LINK_MASK, top / 16, low);
  }

  /** A chain is followed for as many clusters as the FAT has links of four bytes. */
  lemma ChainBound(b: Bpb)
    requires b.fatSize < 0x80_0000
    ensures MaxClusters(b) == b.fatSize * 512 / 4 == b.fatSize * 128
  {
    DivMod(b.fatSize * 512, 4, b.fatSize * 128, 0);
  }

  lemma NoLink(d: seq<Sector>, b: Bpb, c: nat)
    requires c < 2 || c >= 0x0FFF_FFF8
    ensures !IsLink(c) && !IsLink(Link(d, b, c)) && ClusterLba(b, 0) == ClusterLba(b, 1) == 0
  {
  }

  lemma ClustersApart(b: Bpb, n: nat, size: nat, c: nat, e: nat)
    requires WfVolume(b, n, size) && InVolume(c, n) && InVolume(e, n) && c < e
    ensures ClusterLba(b, c) + b.spc <= ClusterLba(b, e)
  {
    hide ClusterLba, DataStart, Times;
    ClusterLbaExact(b, n, size, c);
    ClusterLbaExact(b, n, size, e);
    TimesMono(c - 1, e - 2, b.spc);
    TimesNext(c - 2, b.spc);
  }

  lemma LinkSectorBound(c: nat, k: nat)
    requires c < 128 * k
    ensures c / 128 < k
  {
  }

  /** The links of all data clusters are in the first FAT, below the data area. */
  lemma LinkInFat(b: Bpb, n: nat, size: nat, c: nat)
    requires WfVolume(b, n, size) && InVolume(c, n)
    ensures IsLink(c) && b.reserved <= LinkSector(b, c) < b.reserved + b.fatSize
    ensures LinkSector(b, c) < DataStart(b) <= size
  {
    hide DataStart, Times;
    DataStartExact(b, n, size);
    LinkSectorBound(c, b.fatSize);
  }

  // ----- chains -----

  ghost predicate Distinct(s: seq<nat>) { forall i, j :: 0 <= i < j < |s| ==> s[i] != s[j] }

  ghost predicate AllInVolume(ch: seq<nat>, n: nat) { forall i :: 0 <= i < |ch| ==> InVolume(ch[i], n) }

  /** ch is a whole cluster chain: linked in order, all in the volume, no repeats, ended by the FAT. */
  ghost predicate IsChain(d: seq<Sector>, b: Bpb, n: nat, ch: seq<nat>)
  {
    && |ch| > 0 && Distinct(ch)
    && AllInVolume(ch, n)
    && (forall i, j :: 0 <= i < j < |ch| && j == i + 1 ==> Link(d, b, ch[i]) == ch[j])
    && !IsLink(Link(d, b, ch[|ch| - 1]))
  }

  /** Distinct clusters of a volume cannot outnumber its data clusters. */
  lemma {:induction false} Pigeonhole(ch: seq<nat>, n: nat)
    requires Distinct(ch) && AllInVolume(ch, n)
    ensures |ch| <= n
  {
    if n == 0 {
      assert ch == [] || InVolume(ch[0], n);
    } else if i :| 0 <= i < |ch| && ch[i] == n + 1 {
      var rest := ch[..i] + ch[i + 1..];
      forall k | 0 <= k < |rest| ensures InVolume(rest[k], n - 1) {
        assert rest[k] == ch[if k < i then k else k + 1];
      }
      Pigeonhole(rest, n - 1);
    } else {
      Pigeonhole(ch, n - 1);
    }
  }

  // ----- files as lists of sectors -----

  function Lbas(b: Bpb, ch: seq<nat>): (r: seq<nat>)
  {
    if ch == [] then [] else Span(ClusterLba(b, ch[0]), b.spc) + Lbas(b, ch[1..])
  }

  lemma {:induction false} LbasLength(b: Bpb, ch: seq<nat>)
    ensures |Lbas(b, ch)| == Times(|ch|, b.spc)
  {
    hide Times;
    TimesNext(if ch == [] then 0 else |ch| - 1, b.spc);
    if ch != [] { LbasLength(b, ch[1..]); }
  }

  ghost predicate InClusters(b: Bpb, ch: seq<nat>, lba: nat)
  {
    exists k :: 0 <= k < |ch| && ClusterLba(b, ch[k]) <= lba < ClusterLba(b, ch[k]) + b.spc
  }

  lemma {:induction false} LbasOwned(b: Bpb, ch: seq<nat>, i: nat)
    requires i < |Lbas(b, ch)|
    ensures InClusters(b, ch, Lbas(b, ch)[i])
  {
    if i < b.spc {
      assert ClusterLba(b, ch[0]) <= Lbas(b, ch)[i] < ClusterLba(b, ch[0]) + b.spc;
    } else {
      LbasOwned(b, ch[1..], i - b.spc);
      var k :| 0 <= k < |ch[1..]| && ClusterLba(b, ch[1..][k]) <= Lbas(b, ch)[i] < ClusterLba(b, ch[1..][k]) + b.spc;
      assert ch[k + 1] == ch[1..][k];
    }
  }

  /** All sectors of a chain lie in the data area of the disk. */
  lemma LbasInData(b: Bpb, n: nat, size: nat, ch: seq<nat>)
    requires WfVolume(b, n, size) && AllInVolume(ch, n)
    ensures InRange(Lbas(b, ch), size)
    ensures forall i :: 0 <= i < |Lbas(b, ch)| ==> DataStart(b) <= Lbas(b, ch)[i]
  {
    forall i | 0 <= i < |Lbas(b, ch)| ensures DataStart(b) <= Lbas(b, ch)[i] < size {
      LbasOwned(b, ch, i);
      var k :| 0 <= k < |ch| && ClusterLba(b, ch[k]) <= Lbas(b, ch)[i] < ClusterLba(b, ch[k]) + b.spc;
      ClusterLbaExact(b, n, size, ch[k]);
    }
  }

  ghost predicate Disjoint(a: seq<nat>, b: seq<nat>)
  {
    forall i, j :: 0 <= i < |a| && 0 <= j < |b| ==> a[i] != b[j]
  }

  /** Chains without a common cluster have no common sector. */
  lemma LbasDisjoint(b: Bpb, n: nat, size: nat, ch: seq<nat>, eh: seq<nat>)
    requires WfVolume(b, n, size) && AllInVolume(ch, n) && AllInVolume(eh, n) && Disjoint(ch, eh)
    ensures Disjoint(Lbas(b, ch), Lbas(b, eh))
  {
    forall i, j | 0 <= i < |Lbas(b, ch)| && 0 <= j < |Lbas(b, eh)| ensures Lbas(b, ch)[i] != Lbas(b, eh)[j] {
      LbasOwned(b, ch, i);
      LbasOwned(b, eh, j);
      var k :| 0 <= k < |ch| && ClusterLba(b, ch[k]) <= Lbas(b, ch)[i] < ClusterLba(b, ch[k]) + b.spc;
      var l :| 0 <= l < |eh| && ClusterLba(b, eh[l]) <= Lbas(b, eh)[j] < ClusterLba(b, eh[l]) + b.spc;
      if ch[k] < eh[l] { ClustersApart(b, n, size, ch[k], eh[l]); } else { ClustersApart(b, n, size, eh[l], ch[k]); }
    }
  }

  lemma {:induction false} LbasDistinct(b: Bpb, n: nat, size: nat, ch: seq<nat>)
    requires WfVolume(b, n, size) && AllInVolume(ch, n) && Distinct(ch)
    ensures Distinct(Lbas(b, ch))
  {
    if ch != [] {
      var head, tail := Span(ClusterLba(b, ch[0]), b.spc), Lbas(b, ch[1..]);
      LbasDistinct(b, n, size, ch[1..]);
      LbasDisjoint(b, n, size, [ch[0]], ch[1..]);
      assert Lbas(b, [ch[0]]) == head by { assert [ch[0]][1..] == []; assert Lbas(b, []) == []; }
    }
  }
}
