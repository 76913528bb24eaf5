/** The search of the root directory for an 8.3 name. */
module FatDirectory {
  import opened Bytes
  import opened Disk
  import opened FatSpec
  import opened FatData
  import opened Fat32

  const ENTRY: nat := 32

  /** The outcome of scanning some entries: a match, the end marker, or neither. */
  datatype Search = Found(file: FatFile) | Ended | NotHere

  /** Deleted entries, long-name parts and volume labels are passed over. */
  predicate Skipped(e: seq<byte>)
    requires |e| >= ENTRY
  {
    e[0] == 0xE5 || e[11] % 16 == 15 || e[11] / 8 % 2 == 1
  }

  predicate Matches(e: seq<byte>, name: seq<byte>)
    requires |e| >= ENTRY && |name| == 11
  {
    !Skipped(e) && e[..11] == name
  }

  function FileOf(e: seq<byte>): (f: FatFile)
    requires |e| >= ENTRY
  {
    FatFile((Le16(e, 20) as int) * 0x1_0000 + Le16(e, 26), Le32(e, 28))
  }

  function Scan(s: seq<byte>, name: seq<byte>): (r: Search)
    requires |name| == 11
  {
    if |s| < ENTRY then NotHere
    else if s[0] == 0 then Ended
    else if Matches(s, name) then Found(FileOf(s))
    else Scan(s[ENTRY..], name)
  }

  /** s is a whole number of entries. */
  predicate Whole(s: seq<byte>) { |s| % ENTRY == 0 }

  lemma WholeSectors(k: nat)
    ensures (SECTOR * k) % ENTRY == 0
  {
  }

  lemma {:induction false} ScanAppend(a: seq<byte>, s: seq<byte>, name: seq<byte>)
    requires |name| == 11 && Whole(a)
    ensures Scan(a + s, name) == if Scan(a, name).NotHere? then Scan(s, name) else Scan(a, name)
    decreases |a|
  {
    if |a| < ENTRY { assert a + s == s; }
    else {
      assert (a + s)[ENTRY..] == a[ENTRY..] + s;
      assert (a + s)[..11] == a[..11];
      assert FileOf(a + s) == FileOf(a);
      ScanAppend(a[ENTRY..], s, name);
    }
  }

  /** Entry k is the first live match, with no end marker before it. */
  ghost predicate FirstMatch(s: seq<byte>, name: seq<byte>, k: nat)
    requires |name| == 11
  {
    && ENTRY * k + ENTRY <= |s|
    && s[ENTRY * k] != 0 && Matches(s[ENTRY * k..], name)
    && forall j :: 0 <= j < k ==> s[ENTRY * j] != 0 && !Matches(s[ENTRY * j..], name)
  }

  lemma LaterMatch(s: seq<byte>, name: seq<byte>, k: nat)
    requires |name| == 11
    ensures FirstMatch(s, name, k) ==> |s| >= ENTRY && s[0] != 0 && (k > 0 ==> !Matches(s, name))
  {
    if FirstMatch(s, name, k) && k > 0 {
      assert s[ENTRY * 0] != 0 && !Matches(s[ENTRY * 0..], name);
      assert s[ENTRY * 0..] == s;
    }
  }

  /** A file is found exactly when some entry is the first live match, and it is that entry's file. */
  lemma {:induction false} ScanFinds(s: seq<byte>, name: seq<byte>)
    requires |name| == 11
    ensures Scan(s, name).Found? <==> exists k: nat :: FirstMatch(s, name, k)
    ensures forall k: nat :: FirstMatch(s, name, k) ==> Scan(s, name) == Found(FileOf(s[ENTRY * k..]))
    decreases |s|
  {
    if |s| < ENTRY || s[0] == 0 {
      forall k: nat ensures !FirstMatch(s, name, k) { LaterMatch(s, name, k); }
    } else if Matches(s, name) {
      assert s[ENTRY * 0..] == s;
      assert FirstMatch(s, name, 0);
      forall k: nat ensures FirstMatch(s, name, k) ==> k == 0 { LaterMatch(s, name, k); }
    } else {
      var t := s[ENTRY..];
      ScanFinds(t, name);
      forall k: nat ensures FirstMatch(t, name, k) <==> FirstMatch(s, name, k + 1) { ShiftMatch(s, name, k); }
      assert s[ENTRY * 0..] == s && !FirstMatch(s, name, 0);
      forall k: nat | FirstMatch(s, name, k) ensures Scan(s, name) == Found(FileOf(s[ENTRY * k..])) {
        assert k > 0 && FirstMatch(t, name, k - 1);
        assert t[ENTRY * (k - 1)..] == s[ENTRY * k..];
      }
    }
  }

  lemma ShiftMatch(s: seq<byte>, name: seq<byte>, k: nat)
    requires |name| == 11 && |s| >= ENTRY && s[0] != 0 && !Matches(s, name)
    ensures FirstMatch(s[ENTRY..], name, k) <==> FirstMatch(s, name, k + 1)
  {
    var t := s[ENTRY..];
    assert s[ENTRY * 0..] == s;
    forall j | 0 <= j <= k && ENTRY * j <= |t| ensures t[ENTRY * j..] == s[ENTRY * (j + 1)..] { }
    if FirstMatch(t, name, k) {
      forall j | 0 <= j < k + 1 ensures s[ENTRY * j] != 0 && !Matches(s[ENTRY * j..], name) {
        if j > 0 { assert t[ENTRY * (j - 1)] != 0 && !Matches(t[ENTRY * (j - 1)..], name); }
      }
    }
    if FirstMatch(s, name, k + 1) {
      forall j | 0 <= j < k ensures t[ENTRY * j] != 0 && !Matches(t[ENTRY * j..], name) {
        assert s[ENTRY * (j + 1)] != 0 && !Matches(s[ENTRY * (j + 1)..], name);
      }
    }
  }

  // ----- the driver's loops -----

  method ScanSector(buf: Sector, name: seq<byte>) returns (r: Search)
    requires |name| == 11
    ensures r == Scan(buf, name)
  {
    var i := 0;
    while i < SECTOR
      invariant 0 <= i <= SECTOR && i % ENTRY == 0
      invariant Scan(buf, name) == Scan(buf[i..], name)
      decreases SECTOR - i
    {
      var e := buf[i..];
      assert e[ENTRY..] == buf[i + ENTRY..];
      if e[0] == 0 { return Ended; }
      if e[0] != 0xE5 && e[11] % 16 != 15 && e[11] / 8 % 2 != 1 && e[..11] == name { return Found(FileOf(e)); }
      i := i + ENTRY;
    }
    r := NotHere;
  }

  /** The sectors of one cluster, in order. */
  method ScanCluster(drive: Drive, b: Bpb, cluster: nat, name: seq<byte>) returns (ok: bool, r: Search)
    requires |name| == 11
    modifies drive`clock
    ensures ok ==> ClusterLba(b, cluster) + b.spc <= |drive.sectors| || r != NotHere || b.spc == 0
    ensures ok && Reachable(drive.sectors, b, cluster) ==> r == Scan(Cluster(drive.sectors, b, cluster), name)
    ensures drive.Working() && Reachable(drive.sectors, b, cluster) ==> ok
  {
    hide ClusterLba, Scan, Flat;
    ghost var d, lba0 := drive.sectors, ClusterLba(b, cluster);
    r := NotHere;
    ScanNothing(d, name);
    for sec := 0 to b.spc
      invariant r == NotHere && (sec == 0 || lba0 + sec <= |d|)
      invariant lba0 + b.spc <= |d| ==> Scan(Flat(d, Span(lba0, sec)), name) == NotHere
    {
      var lba := ClusterLba(b, cluster);
      if lba == 0 { return false, r; }
      var read, buf := drive.Read(lba + sec, 1);
      if !read { return false, r; }
      OneSector(d, lba + sec);
      r := ScanSector(buf, name);
      if lba0 + b.spc <= |d| { ScanSpan(d, lba0, sec, b.spc, name); }
      if r != NotHere { return true, r; }
    }
    ok := true;
  }

  lemma ScanNothing(d: seq<Sector>, name: seq<byte>)
    requires |name| == 11
    ensures forall l: nat :: Scan(Flat(d, Span(l, 0)), name) == NotHere
  {
  }

  lemma ScanEmpty(d: seq<Sector>, name: seq<byte>)
    requires |name| == 11
    ensures Scan(Flat(d, []), name) == NotHere
  {
  }

  lemma ScanLists(d: seq<Sector>, a: seq<nat>, z: seq<nat>, name: seq<byte>)
    requires |name| == 11 && InRange(a, |d|) && InRange(z, |d|)
    ensures InRange(a + z, |d|)
    ensures var r := Scan(Flat(d, a), name);
      Scan(Flat(d, a + z), name) == if r.NotHere? then Scan(Flat(d, z), name) else r
  {
    hide Scan;
    FlatAppend(d, a, z);
    WholeSectors(|a|);
    ScanAppend(Flat(d, a), Flat(d, z), name);
  }

  /** After sec sectors without a match, the next one decides for itself and for the whole cluster. */
  lemma ScanSpan(d: seq<Sector>, lba: nat, sec: nat, spc: nat, name: seq<byte>)
    requires |name| == 11 && sec < spc && lba + spc <= |d|
    requires Scan(Flat(d, Span(lba, sec)), name) == NotHere
    ensures Scan(d[lba + sec], name) == Scan(Flat(d, Span(lba, sec + 1)), name)
    ensures Scan(d[lba + sec], name) != NotHere ==> Scan(Flat(d, Span(lba, spc)), name) == Scan(d[lba + sec], name)
  {
    hide Scan, Flat;
    var a, x, z := Span(lba, sec), Span(lba + sec, 1), Span(lba + sec + 1, spc - sec - 1);
    OneSector(d, lba + sec);
    assert a + x == Span(lba, sec + 1);
    ScanLists(d, a, x, name);
    assert a + x + z == Span(lba, spc);
    ScanLists(d, a + x, z, name);
  }

  /** The directory of a whole root chain. */
  function RootBytes(d: seq<Sector>, b: Bpb, rh: seq<nat>): (s: seq<byte>)
    requires InRange(Lbas(b, rh), |d|)
  {
    Flat(d, Lbas(b, rh))
  }

  ghost predicate IsRoot(d: seq<Sector>, b: Bpb, n: nat, rh: seq<nat>)
  {
    WfVolume(b, n, |d|) && IsChain(d, b, n, rh) && rh[0] == b.root && InRange(Lbas(b, rh), |d|)
  }

  /** Finds exactly the file the directory lists for the name; a faulty drive may miss it but never invents one. */
  method FindFile(drive: Drive, b: Bpb, name: seq<byte>, ghost n: nat, ghost rh: seq<nat>)
    returns (found: bool, file: FatFile)
    requires |name| == 11
    modifies drive`clock
    ensures IsRoot(drive.sectors, b, n, rh) ==>
      var r := Scan(RootBytes(drive.sectors, b, rh), name);
      && (found ==> r == Found(file))
      && (drive.Working() ==> (found <==> r.Found?))
  {
    hide ClusterLba, Scan, Flat, Link, Lbas, WfVolume, IsChain, MaxClusters, Reachable;
    ghost var d, good, i := drive.sectors, IsRoot(drive.sectors, b, n, rh), 0;
    file := FatFile(0, 0);
    var cluster: nat := b.root;
    assert rh[0..] == rh;
    if good { RootStart(d, b, n, rh); }
    for c := 0 to MaxClusters(b)
      invariant good ==> 0 <= i == c < |rh| && cluster == rh[i] && InRange(Lbas(b, rh[i..]), |d|)
      invariant good ==> Scan(RootBytes(d, b, rh), name) == Scan(Flat(d, Lbas(b, rh[i..])), name)
    {
      var ok, r := ScanCluster(drive, b, cluster, name);
      if good { RootTurn(d, b, n, rh, i, name); }
      if !ok { return false, file; }
      if r.Found? { return true, r.file; }
      if r.Ended? { return false, file; }
      var next := GetNextCluster(drive, b, cluster);
      if good { RootLink(d, b, n, rh, i); ScanEmpty(d, name); }
      if next < 2 || next >= END_OF_CHAIN { break; }
      cluster, i := next, i + 1;
    }
    found := false;
  }

  lemma RootStart(d: seq<Sector>, b: Bpb, n: nat, rh: seq<nat>)
    requires IsRoot(d, b, n, rh)
    ensures 0 < |rh| < MaxClusters(b)
  {
    hide MaxClusters, WfVolume, Link;
    Pigeonhole(rh, n);
    MaxClustersBound(b, n, |d|);
  }

  /** The next cluster of the directory decides, or hands on to the rest of the chain. */
  lemma RootTurn(d: seq<Sector>, b: Bpb, n: nat, rh: seq<nat>, i: nat, name: seq<byte>)
    requires |name| == 11 && IsRoot(d, b, n, rh) && i < |rh| && InRange(Lbas(b, rh[i..]), |d|)
    ensures Reachable(d, b, rh[i]) && InRange(Lbas(b, rh[i + 1..]), |d|)
    ensures var r := Scan(Cluster(d, b, rh[i]), name);
      Scan(Flat(d, Lbas(b, rh[i..])), name) == if r.NotHere? then Scan(Flat(d, Lbas(b, rh[i + 1..])), name) else r
  {
    hide Scan, Flat, Link;
    InVolumeReachable(d, b, n, rh[i]);
    WriteTurn(d, b, n, rh, i);
    LbasInData(b, n, |d|, rh[i + 1..]);
    ScanLists(d, Span(ClusterLba(b, rh[i]), b.spc), Lbas(b, rh[i + 1..]), name);
  }

  lemma RootLink(d: seq<Sector>, b: Bpb, n: nat, rh: seq<nat>, i: nat)
    requires IsRoot(d, b, n, rh) && i < |rh|
    ensures if i + 1 < |rh| then Link(d, b, rh[i]) == rh[i + 1] && IsLink(rh[i + 1])
            else !IsLink(Link(d, b, rh[i])) && Lbas(b, rh[i + 1..]) == []
  {
    if i + 1 < |rh| { LinkInFat(b, n, |d|, rh[i + 1]); } else { assert rh[i + 1..] == []; }
  }
}
