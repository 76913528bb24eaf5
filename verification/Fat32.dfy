/** The FAT32 driver of FAT32_Main.c: links, file data, and the root directory search. */
module Fat32 {
  import opened Bytes
  import opened Disk
  import opened FatSpec
  import opened FatData

  datatype FatFile = FatFile(first: nat, size: u32)

  // ----- links -----

  lemma LinkPlace(c: nat)
    ensures c * 4 / SECTOR == c / 128 && c * 4 % SECTOR == 4 * (c % 128)
  {
  }

  method GetNextCluster(drive: Drive, b: Bpb, c: nat) returns (next: nat)
    modifies drive`clock
    ensures next == Link(drive.sectors, b, c) || next == NO_LINK
    ensures drive.Working() ==> next == Link(drive.sectors, b, c)
  {
    if c < 2 || c >= END_OF_CHAIN { return NO_LINK; }
    LinkPlace(c);
    var offset := c * 4 % SECTOR;
    var sector := b.reserved + c * 4 / SECTOR;
    var ok, buf := drive.Read(sector, 1);
    if !ok { return NO_LINK; }
    OneSector(drive.sectors, sector);
    next := Le32(buf, offset) % LINK_MASK;
  }

  lemma OneSector(d: seq<Sector>, lba: nat)
    requires lba < |d|
    ensures InRange(Span(lba, 1), |d|) && Flat(d, Span(lba, 1)) == d[lba] && |d[lba]| == SECTOR
  {
  }

  // ----- reading a file -----

  lemma ReadNothing(d: seq<Sector>, b: Bpb, c: nat, got: seq<byte>)
    requires b.spc > 0
    ensures Prepend(got, ReadFrom(d, b, c, 0)) == Some(got)
  {
    assert got + [] == got;
  }

  /** memcpy into a buffer. */
  method CopyIn(mem: array<byte>, p: nat, data: seq<byte>)
    requires p + |data| <= mem.Length
    modifies mem
    ensures mem[..] == old(mem[..p]) + data + old(mem[p + |data|..])
  {
    for i := 0 to |data|
      invariant mem[..p] == old(mem[..p]) && mem[p..p + i] == data[..i] && mem[p + |data|..] == old(mem[p + |data|..])
    {
      mem[p + i] := data[i];
    }
  }

  /**
   * A read in progress: the bytes in [lo, p) followed by what is read from the cluster on make up the file; the rest of
   * memory is m.
   */
  ghost predicate ReadSoFar(d: seq<Sector>, b: Bpb, all: Option<seq<byte>>, m: seq<byte>, now: seq<byte>, lo: nat,
                            p: nat, cluster: nat, left: nat)
    requires b.spc > 0
  {
    && lo <= p && p + left <= |now| && SameOutside(m, now, lo, p + left)
    && all == Prepend(now[lo..p], ReadFrom(d, b, cluster, left))
  }

  lemma ReadStart(d: seq<Sector>, b: Bpb, m: seq<byte>, lo: nat, cluster: nat, left: nat)
    requires b.spc > 0 && lo + left <= |m|
    ensures ReadSoFar(d, b, ReadFrom(d, b, cluster, left), m, m, lo, lo, cluster, left)
  {
    var r := ReadFrom(d, b, cluster, left);
    hide ReadFrom;
    assert r.Some? ==> m[lo..lo] + r.value == r.value;
  }

  /** One cluster further: the read goes on at its link, and without one it is complete only if nothing is left. */
  lemma ReadStep(d: seq<Sector>, b: Bpb, all: Option<seq<byte>>, m: seq<byte>, was: seq<byte>, now: seq<byte>,
                 lo: nat, p: nat, c: nat, left: nat)
    requires b.spc > 0 && left > 0 && ReadSoFar(d, b, all, m, was, lo, p, c, left) && Reachable(d, b, c)
    requires p + left <= |was| && now == Fetched(d, b, c, was, p, left)
    ensures var n := Min(left, ClusterBytes(b));
      && |now| == |m| && p + left <= |m| && SameOutside(m, now, lo, p + left)
      && (left == n ==> all == Some(now[lo..p + left]))
      && (if IsLink(Link(d, b, c)) then ReadSoFar(d, b, all, m, now, lo, p + n, Link(d, b, c), left - n)
          else left > n ==> all.None?)
  {
    hide Link, ClusterLba, Flat, ReadFrom, Cluster, Reachable, Prepend;
    var n := Min(left, ClusterBytes(b));
    ReadOn(d, b, c, left, was[lo..p], all);
    CopiedChunk(m, was, now, lo, p, Cluster(d, b, c)[..n], p + left);
    ReadNothing(d, b, Link(d, b, c), now[lo..p + n]);
  }

  lemma ReadEnd(d: seq<Sector>, b: Bpb, all: Option<seq<byte>>, m: seq<byte>, now: seq<byte>, lo: nat, p: nat, c: nat)
    requires b.spc > 0 && ReadSoFar(d, b, all, m, now, lo, p, c, 0)
    ensures |now| == |m| && lo <= p <= |m| && SameOutside(m, now, lo, p) && all == Some(now[lo..p])
  {
    ReadNothing(d, b, c, now[lo..p]);
  }

  lemma ReadStuck(d: seq<Sector>, b: Bpb, all: Option<seq<byte>>, m: seq<byte>, now: seq<byte>, lo: nat, p: nat,
                  c: nat, left: nat)
    requires b.spc > 0 && left > 0 && ReadSoFar(d, b, all, m, now, lo, p, c, left)
    ensures !Reachable(d, b, c) ==> all.None?
    ensures |now| == |m| && p + left <= |m| && SameOutside(m, now, lo, p + left)
  {
    hide Link, ClusterLba, Flat, ReadFrom, Cluster, Reachable, Prepend;
    ReadOn(d, b, c, left, now[lo..p], all);
  }

  lemma CopiedChunk(m: seq<byte>, was: seq<byte>, now: seq<byte>, lo: nat, p: nat, data: seq<byte>, hi: nat)
    requires lo <= p && p + |data| <= hi <= |was| && SameOutside(m, was, lo, hi)
    requires now == was[..p] + data + was[p + |data|..]
    ensures |now| == |was| && SameOutside(m, now, lo, hi) && now[lo..p + |data|] == was[lo..p] + data
  {
  }

  /** Memory with as much of a cluster as is wanted copied to p. */
  ghost function Fetched(d: seq<Sector>, b: Bpb, c: nat, m: seq<byte>, p: nat, left: nat): seq<byte>
    requires Reachable(d, b, c) && p + left <= |m|
  {
    var n := Min(left, ClusterBytes(b));
    m[..p] + Cluster(d, b, c)[..n] + m[p + n..]
  }

  /** Read one cluster and copy what is wanted of it to p; nothing is copied when it cannot be read. */
  method FetchCluster(drive: Drive, b: Bpb, cluster: nat, mem: array<byte>, p: nat, left: nat)
    returns (ok: bool, n: nat)
    requires b.spc > 0 && left > 0 && p + left <= mem.Length
    modifies drive`clock, mem
    ensures n == Min(left, ClusterBytes(b)) && 0 < n <= left
    ensures ok ==> Reachable(drive.sectors, b, cluster)
    ensures ok ==> mem[..] == Fetched(drive.sectors, b, cluster, old(mem[..]), p, left)
    ensures !ok ==> mem[..] == old(mem[..])
    ensures drive.Working() ==> (ok <==> Reachable(drive.sectors, b, cluster))
  {
    hide ClusterLba, Flat;
    n := Min(left, ClusterBytes(b));
    var lba := ClusterLba(b, cluster);
    if lba == 0 { return false, n; }
    var read, buf := drive.Read(lba, b.spc);
    if !read { return false, n; }
    CopyIn(mem, p, buf[..n]);
    ok := true;
  }

  /** One round of the reading loop: a cluster is copied to p and its link is read. */
  method FetchAndFollow(drive: Drive, b: Bpb, cluster: nat, mem: array<byte>, p: nat, left: nat)
    returns (ok: bool, n: nat, next: nat)
    requires b.spc > 0 && left > 0 && p + left <= mem.Length
    modifies drive`clock, mem
    ensures n == Min(left, ClusterBytes(b)) && 0 < n <= left
    ensures ok ==> Reachable(drive.sectors, b, cluster)
    ensures ok ==> mem[..] == Fetched(drive.sectors, b, cluster, old(mem[..]), p, left)
    ensures !ok ==> mem[..] == old(mem[..])
    ensures drive.Working() ==> (ok <==> Reachable(drive.sectors, b, cluster))
    ensures ok ==> next == Link(drive.sectors, b, cluster) || next == NO_LINK
    ensures ok && drive.Working() ==> next == Link(drive.sectors, b, cluster)
  {
    hide *;
    next := NO_LINK;
    ok, n := FetchCluster(drive, b, cluster, mem, p, left);
    if ok { next := GetNextCluster(drive, b, cluster); }
  }

  method ReadFile(drive: Drive, b: Bpb, file: FatFile, mem: array<byte>, dst: nat) returns (ok: bool)
    requires b.spc > 0 && dst + file.size <= mem.Length
    modifies drive`clock, mem
    ensures SameOutside(old(mem[..]), mem[..], dst, dst + file.size)
    ensures ok ==> ReadFrom(drive.sectors, b, file.first, file.size) == Some(mem[dst..dst + file.size])
    ensures drive.Working() ==> (ok <==> ReadFrom(drive.sectors, b, file.first, file.size).Some?)
  {
    ghost var d, m, all := drive.sectors, mem[..], ReadFrom(drive.sectors, b, file.first, file.size);
    ReadStart(d, b, m, dst, file.first, file.size);
    hide *;
    var cluster, left: nat, p: nat := file.first, file.size, dst;
    while left > 0
      invariant p + left == dst + file.size && ReadSoFar(d, b, all, m, mem[..], dst, p, cluster, left)
      decreases left
    {
      ReadStuck(d, b, all, m, mem[..], dst, p, cluster, left);
      ghost var was := mem[..];
      var read, n, next := FetchAndFollow(drive, b, cluster, mem, p, left);
      if !read { return false; }
      ReadStep(d, b, all, m, was, mem[..], dst, p, cluster, left);
      p, left := p + n, left - n;
      if !IsLink(next) { return left == 0; }
      cluster := next;
    }
    ReadEnd(d, b, all, m, mem[..], dst, p, cluster);
    ok := true;
  }

  // ----- writing a file -----

  /** ch is the cluster chain of the file on a well-formed volume; an empty file may have none. */
  ghost predicate HasChain(d: seq<Sector>, b: Bpb, n: nat, file: FatFile, ch: seq<nat>)
  {
    && WfVolume(b, n, |d|)
    && if ch == [] then file.size == 0 else IsChain(d, b, n, ch) && ch[0] == file.first
  }

  /** The progress of a write: the sectors in done hold the first bytes of data, the rest is still to do. */
  ghost predicate Progress(d: seq<Sector>, e: seq<Sector>, done: seq<nat>, todo: seq<nat>, data: seq<byte>, left: nat)
  {
    && left <= |data| && InRange(done + todo, |d|)
    && |data| - left <= SECTOR * (|done| + |todo|)
    && (left > 0 ==> |data| - left == SECTOR * |done|)
    && e == Overlay(d, done + todo, data[..|data| - left])
  }

  lemma ProgressStep(d: seq<Sector>, e: seq<Sector>, done: seq<nat>, l: nat, todo: seq<nat>, data: seq<byte>, left: nat)
    requires Progress(d, e, done, [l] + todo, data, left) && left > 0
    ensures l < |e| == |d|
    ensures var n := Min(SECTOR, left);
      var at := |data| - left;
      Progress(d, e[l := Patch(e[l], data[at..at + n])], done + [l], todo, data, left - n)
  {
    var n, at := Min(SECTOR, left), |data| - left;
    assert done + ([l] + todo) == done + [l] + todo;
    assert (done + [l] + todo)[|done|] == l;
    OverlayAppend(d, done, l, todo, data[..at], data[at..at + n]);
    assert data[..at] + data[at..at + n] == data[..at + n];
  }

  /** The sector loop over one cluster: left is what remains to be written of the buffer. */
  method WriteCluster(drive: Drive, b: Bpb, cluster: nat, buffer: seq<byte>, left0: nat,
                      ghost good: bool, ghost d: seq<Sector>, ghost done: seq<nat>, ghost todo: seq<nat>)
    returns (ok: bool, left: nat, ghost done': seq<nat>, ghost todo': seq<nat>)
    requires b.spc > 0 && 0 < left0 <= |buffer|
    requires good ==> ClusterLba(b, cluster) > 0
    requires good ==> Progress(d, drive.sectors, done, Span(ClusterLba(b, cluster), b.spc) + todo, buffer, left0)
    modifies drive`clock, drive`sectors
    ensures |drive.sectors| == |old(drive.sectors)|
    ensures left <= left0
    ensures good ==> Progress(d, drive.sectors, done', todo', buffer, left)
    ensures good ==> done' + todo' == done + Span(ClusterLba(b, cluster), b.spc) + todo
    ensures good && ok ==> left == 0 || todo' == todo
    ensures good && drive.Working() ==> ok
    ensures !ok ==> left > 0
  {
    hide ClusterLba, Overlay, Flat, Progress;
    var lba, sec := ClusterLba(b, cluster), 0;
    ghost var span := Span(lba, b.spc);
    left, done', todo' := left0, done, span + todo;
    assert done + (span + todo) == done + span + todo && span[0..] == span;
    while sec < b.spc && left > 0
      invariant 0 <= sec <= b.spc && left <= left0
      invariant |drive.sectors| == |old(drive.sectors)|
      invariant good ==> Progress(d, drive.sectors, done', todo', buffer, left)
      invariant good && left > 0 ==> todo' == span[sec..] + todo
      invariant good ==> done' + todo' == done + span + todo
      decreases b.spc - sec
    {
      if lba == 0 { return false, left, done', todo'; }
      var n, at := Min(left, SECTOR), |buffer| - left;
      ghost var rest := span[sec + 1..] + todo;
      if good {
        assert todo' == [lba + sec] + rest;
        assert done' + todo' == done' + [lba + sec] + rest;
        ProgressStep(d, drive.sectors, done', lba + sec, rest, buffer, left);
      }
      if n == SECTOR {
        WholeSector(drive.sectors, buffer[at..at + n]);
        var wrote := drive.Write(lba + sec, buffer[at..at + n]);
        if !wrote { return false, left, done', todo'; }
      } else {
        var read, buf := drive.Read(lba + sec, 1);
        if !read { return false, left, done', todo'; }
        OneSector(drive.sectors, lba + sec);
        var wrote := drive.Write(lba + sec, buffer[at..at + n] + buf[n..]);
        if !wrote { return false, left, done', todo'; }
      }
      if good { done', todo' := done' + [lba + sec], rest; }
      left, sec := left - n, sec + 1;
    }
    assert span[b.spc..] + todo == todo;
    ok := true;
  }

  lemma WholeSector(d: seq<Sector>, data: seq<byte>)
    requires |data| == SECTOR
    ensures forall l :: 0 <= l < |d| ==> Patch(d[l], data) == data
  {
  }

  /** Exactly the first k bytes of data have reached the listed sectors. */
  ghost predicate WrittenUpTo(d: seq<Sector>, e: seq<Sector>, lbas: seq<nat>, data: seq<byte>, k: nat)
  {
    k <= |data| && InRange(lbas, |d|) && k <= SECTOR * |lbas| && e == Overlay(d, lbas, data[..k])
  }

  /** Some prefix is written; ok tells whether it is all of it; only a fault or the end of the chain stops it. */
  ghost predicate Written(d: seq<Sector>, e: seq<Sector>, lbas: seq<nat>, data: seq<byte>, ok: bool, working: bool)
  {
    exists k: nat ::
      && WrittenUpTo(d, e, lbas, data, k)
      && (ok <==> k == |data|)
      && (working ==> k == Min(|data|, SECTOR * |lbas|))
  }

  lemma MaxClustersBound(b: Bpb, n: nat, size: nat)
    requires WfVolume(b, n, size)
    ensures n < MaxClusters(b)
  {
  }

  lemma WriteStart(d: seq<Sector>, b: Bpb, n: nat, file: FatFile, ch: seq<nat>, data: seq<byte>)
    requires HasChain(d, b, n, file, ch) && |data| == file.size
    ensures Progress(d, d, [], Lbas(b, ch), data, |data|) && [] + Lbas(b, ch) == Lbas(b, ch)
    ensures |ch| < MaxClusters(b)
  {
    hide Lbas, MaxClusters, WfVolume, Link;
    LbasInData(b, n, |d|, ch);
    Pigeonhole(ch, n);
    MaxClustersBound(b, n, |d|);
    assert data[..0] == [] && [] + Lbas(b, ch) == Lbas(b, ch);
  }

  /** The next cluster of the chain: its sectors come next. */
  lemma WriteTurn(d: seq<Sector>, b: Bpb, n: nat, ch: seq<nat>, i: nat)
    requires WfVolume(b, n, |d|) && AllInVolume(ch, n) && i < |ch|
    ensures ClusterLba(b, ch[i]) > 0
    ensures Lbas(b, ch[i..]) == Span(ClusterLba(b, ch[i]), b.spc) + Lbas(b, ch[i + 1..])
  {
    ClusterLbaExact(b, n, |d|, ch[i]);
    assert ch[i..][1..] == ch[i + 1..];
  }

  /** The link read after a cluster is that of the untouched FAT: the next cluster, or the end of the chain. */
  lemma WriteLink(d: seq<Sector>, e: seq<Sector>, b: Bpb, n: nat, ch: seq<nat>, i: nat, data: seq<byte>, k: nat)
    requires WfVolume(b, n, |d|) && IsChain(d, b, n, ch) && i < |ch|
    requires WrittenUpTo(d, e, Lbas(b, ch), data, k)
    ensures var next := Link(e, b, ch[i]);
      if i + 1 < |ch| then next == ch[i + 1] && IsLink(next) else !IsLink(next) && Lbas(b, ch[i + 1..]) == []
  {
    OverlayKeepsFat(d, b, n, ch, data[..k]);
    LinkStable(d, e, b, n, ch[i]);
    if i + 1 < |ch| { LinkInFat(b, n, |d|, ch[i + 1]); } else { assert ch[i + 1..] == []; }
  }

  lemma ProgressIs(d: seq<Sector>, e: seq<Sector>, done: seq<nat>, todo: seq<nat>, lbas: seq<nat>, data: seq<byte>,
                   left: nat)
    requires Progress(d, e, done, todo, data, left) && done + todo == lbas
    ensures WrittenUpTo(d, e, lbas, data, |data| - left)
    ensures left > 0 && todo == [] ==> |data| - left == SECTOR * |lbas|
  {
  }

  /**
   * On the file's own chain: some prefix of the buffer is on disk, everything else is as before, and
   * the result says whether it is all of it. A working drive stops short only where the chain ends.
   */
  method WriteFile(drive: Drive, b: Bpb, file: FatFile, buffer: seq<byte>, ghost n: nat, ghost ch: seq<nat>)
    returns (ok: bool)
    requires b.spc > 0 && |buffer| == file.size
    modifies drive`clock, drive`sectors
    ensures |drive.sectors| == |old(drive.sectors)|
    ensures HasChain(old(drive.sectors), b, n, file, ch) ==>
      Written(old(drive.sectors), drive.sectors, Lbas(b, ch), buffer, ok, drive.Working())
  {
    hide ClusterLba, Overlay, Flat, Progress, Link, WrittenUpTo, MaxClusters, Lbas, WfVolume, IsChain, AllInVolume;
    ghost var d, good, lbas := drive.sectors, HasChain(drive.sectors, b, n, file, ch), Lbas(b, ch);
    ghost var done, todo, i := [], lbas, 0;
    var cluster: nat, left: nat, c := file.first, |buffer|, 0;
    assert ch[0..] == ch;
    if good { WriteStart(d, b, n, file, ch, buffer); }
    while c < MaxClusters(b) && left > 0
      invariant |drive.sectors| == |old(drive.sectors)|
      invariant left <= |buffer|
      invariant good ==> Progress(d, drive.sectors, done, todo, buffer, left) && done + todo == lbas
      invariant good && left > 0 ==> 0 <= i == c < |ch| && cluster == ch[i] && todo == Lbas(b, ch[i..])
      decreases MaxClusters(b) - c
    {
      if good { ChainInVolume(d, b, n, ch); WriteTurn(d, b, n, ch, i); }
      ghost var rest, before := if good then Lbas(b, ch[i + 1..]) else [], done;
      var wrote;
      wrote, left, done, todo := WriteCluster(drive, b, cluster, buffer, left, good, d, done, rest);
      if good {
        ghost var span := Span(ClusterLba(b, cluster), b.spc);
        assert before + (span + rest) == before + span + rest;
        ProgressIs(d, drive.sectors, done, todo, lbas, buffer, left);
      }
      if !wrote { return false; }
      var next := GetNextCluster(drive, b, cluster);
      if good { WriteLink(d, drive.sectors, b, n, ch, i, buffer, |buffer| - left); }
      if next < 2 || next >= END_OF_CHAIN { break; }
      cluster, c, i := next, c + 1, i + 1;
    }
    if good { ProgressIs(d, drive.sectors, done, todo, lbas, buffer, left); }
    ok := left == 0;
  }

  lemma ChainInVolume(d: seq<Sector>, b: Bpb, n: nat, ch: seq<nat>)
    requires IsChain(d, b, n, ch)
    ensures AllInVolume(ch, n)
  {
  }
}
