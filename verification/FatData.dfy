/** Reading and writing the bytes of a cluster chain. */
module FatData {
  import opened Bytes
  import opened Disk
  import opened FatSpec

  // ----- reading -----

  /** The sectors of cluster c can be read. */
  predicate Reachable(d: seq<Sector>, b: Bpb, c: nat) { ClusterLba(b, c) != 0 && ClusterLba(b, c) + b.spc <= |d| }

  function Cluster(d: seq<Sector>, b: Bpb, c: nat): (s: seq<byte>)
    requires Reachable(d, b, c)
    ensures |s| == ClusterBytes(b)
  {
    Flat(d, Span(ClusterLba(b, c), b.spc))
  }

  /** The first left bytes found by following links from c, if the links lead far enough. */
  function ReadFrom(d: seq<Sector>, b: Bpb, c: nat, left: nat): (r: Option<seq<byte>>)
    requires b.spc > 0
    ensures r.Some? ==> |r.value| == left
    decreases left
  {
    if left == 0 then Some([])
    else if !Reachable(d, b, c) then None
    else if left <= ClusterBytes(b) then Some(Cluster(d, b, c)[..left])
    else if !IsLink(Link(d, b, c)) then None
    else
      var rest := ReadFrom(d, b, Link(d, b, c), left - ClusterBytes(b));
      if rest.None? then None else Some(Cluster(d, b, c) + rest.value)
  }

  function Prepend(pre: seq<byte>, r: Option<seq<byte>>): (s: Option<seq<byte>>)
  {
    if r.None? then None else Some(pre + r.value)
  }

  /** Having read pre so far, one more cluster: what remains to be read is the same. */
  lemma ReadOn(d: seq<Sector>, b: Bpb, c: nat, left: nat, pre: seq<byte>, all: Option<seq<byte>>)
    requires b.spc > 0 && left > 0 && all == Prepend(pre, ReadFrom(d, b, c, left))
    ensures !Reachable(d, b, c) ==> all.None?
    ensures Reachable(d, b, c) && left <= ClusterBytes(b) ==> all == Some(pre + Cluster(d, b, c)[..left])
    ensures Reachable(d, b, c) && left > ClusterBytes(b) ==>
      all == if IsLink(Link(d, b, c))
             then Prepend(pre + Cluster(d, b, c)[..ClusterBytes(b)],
                          ReadFrom(d, b, Link(d, b, c), left - ClusterBytes(b)))
             else None
  {
    hide Link, Flat, ClusterLba;
    if Reachable(d, b, c) && left > ClusterBytes(b) && IsLink(Link(d, b, c)) {
      var cl := Cluster(d, b, c);
      var rest := ReadFrom(d, b, Link(d, b, c), left - ClusterBytes(b));
      assert cl[..ClusterBytes(b)] == cl;
      if rest.Some? { assert pre + (cl + rest.value) == (pre + cl) + rest.value; }
    }
  }

  lemma ChainTail(d: seq<Sector>, b: Bpb, n: nat, ch: seq<nat>)
    requires IsChain(d, b, n, ch) && |ch| > 1
    ensures IsChain(d, b, n, ch[1..]) && Link(d, b, ch[0]) == ch[1]
  {
  }

  lemma InVolumeReachable(d: seq<Sector>, b: Bpb, n: nat, c: nat)
    requires WfVolume(b, n, |d|) && InVolume(c, n)
    ensures b.spc > 0 && Reachable(d, b, c)
  {
    ClusterLbaExact(b, n, |d|, c);
  }

  /** One cluster of a chain, then what the rest of the chain reads as. */
  lemma ReadStep(d: seq<Sector>, b: Bpb, c: nat, rest: seq<nat>, left: nat)
    requires b.spc > 0 && Reachable(d, b, c) && InRange(rest, |d|)
    requires left > ClusterBytes(b) ==>
      if IsLink(Link(d, b, c))
      then ReadFrom(d, b, Link(d, b, c), left - ClusterBytes(b))
           == if left - ClusterBytes(b) <= SECTOR * |rest| then Some(Flat(d, rest)[..left - ClusterBytes(b)]) else None
      else rest == []
    ensures var all := Span(ClusterLba(b, c), b.spc) + rest;
      && InRange(all, |d|)
      && ReadFrom(d, b, c, left) == if left <= SECTOR * |all| then Some(Flat(d, all)[..left]) else None
  {
    hide Link, ClusterLba;
    FlatAppend(d, Span(ClusterLba(b, c), b.spc), rest);
    var all := Cluster(d, b, c) + Flat(d, rest);
    if left <= ClusterBytes(b) {
      assert all[..left] == Cluster(d, b, c)[..left];
    } else if left <= |all| {
      assert all[..left] == Cluster(d, b, c) + Flat(d, rest)[..left - ClusterBytes(b)];
    }
  }

  /** A whole chain reads as its sectors in order; reading succeeds exactly up to the chain's capacity. */
  lemma {:induction false} ReadChain(d: seq<Sector>, b: Bpb, n: nat, ch: seq<nat>, left: nat)
    requires WfVolume(b, n, |d|) && IsChain(d, b, n, ch)
    ensures b.spc > 0 && InRange(Lbas(b, ch), |d|)
    ensures ReadFrom(d, b, ch[0], left)
         == if left <= SECTOR * |Lbas(b, ch)| then Some(Flat(d, Lbas(b, ch))[..left]) else None
    decreases |ch|
  {
    InVolumeReachable(d, b, n, ch[0]);
    LbasInData(b, n, |d|, ch[1..]);
    if |ch| > 1 {
      ChainTail(d, b, n, ch);
      LinkInFat(b, n, |d|, ch[1]);
      if left > ClusterBytes(b) { ReadChain(d, b, n, ch[1..], left - ClusterBytes(b)); }
    }
    hide WfVolume, ClusterLba, Link, Reachable, ReadFrom, Flat;
    ReadStep(d, b, ch[0], Lbas(b, ch[1..]), left);
  }

  // ----- writing -----

  /** One sector with its first bytes replaced. */
  function Patch(s: Sector, data: seq<byte>): (r: Sector)
    requires |data| <= SECTOR
  {
    data + s[|data|..]
  }

  /** The disk after data is written over the listed sectors, in order; the last one keeps its tail. */
  function Overlay(d: seq<Sector>, lbas: seq<nat>, data: seq<byte>): (r: seq<Sector>)
    requires InRange(lbas, |d|) && |data| <= SECTOR * |lbas|
    ensures |r| == |d|
    decreases |lbas|
  {
    if data == [] then d
    else
      var n := Min(SECTOR, |data|);
      Overlay(d[lbas[0] := Patch(d[lbas[0]], data[..n])], lbas[1..], data[n..])
  }

  /** Sectors that are not listed keep their contents. */
  lemma {:induction false} OverlayOutside(d: seq<Sector>, lbas: seq<nat>, data: seq<byte>, lba: nat)
    requires InRange(lbas, |d|) && |data| <= SECTOR * |lbas| && lba < |d|
    requires forall i :: 0 <= i < |lbas| ==> lbas[i] != lba
    ensures Overlay(d, lbas, data)[lba] == d[lba]
    decreases |lbas|
  {
    if data != [] {
      var n := Min(SECTOR, |data|);
      OverlayOutside(d[lbas[0] := Patch(d[lbas[0]], data[..n])], lbas[1..], data[n..], lba);
    }
  }

  /** Read back over distinct sectors: the data, then what was there after it. */
  lemma {:induction false} OverlayReads(d: seq<Sector>, lbas: seq<nat>, data: seq<byte>)
    requires InRange(lbas, |d|) && |data| <= SECTOR * |lbas| && Distinct(lbas)
    ensures Flat(Overlay(d, lbas, data), lbas) == data + Flat(d, lbas)[|data|..]
    decreases |lbas|
  {
    if data == [] {
    } else {
      var n := Min(SECTOR, |data|);
      var l, rest := lbas[0], lbas[1..];
      var e := d[l := Patch(d[l], data[..n])];
      var f := Overlay(e, rest, data[n..]);
      OverlayReads(e, rest, data[n..]);
      OverlayOutside(e, rest, data[n..], l);
      FlatSame(d, e, rest);
      assert f[l] == data[..n] + d[l][n..];
      assert Flat(d, lbas) == d[l] + Flat(d, rest) && Flat(f, lbas) == f[l] + Flat(f, rest);
      assert |Flat(d, rest)| == SECTOR * |rest|;
      hide Flat, Overlay, Patch;
      SectorFirst(data, n, d[l], Flat(d, rest));
    }
  }

  lemma SectorFirst(data: seq<byte>, n: nat, s: Sector, tail: seq<byte>)
    requires n == Min(SECTOR, |data|) && |data| <= SECTOR + |tail|
    ensures data[..n] + s[n..] + (data[n..] + tail[|data| - n..]) == data + (s + tail)[|data|..]
  {
    assert data == data[..n] + data[n..];
    if n < SECTOR { assert data[n..] == [] && tail[0..] == tail; } else { assert s[n..] == []; }
  }

  /** Writing one more sector extends the written prefix. */
  lemma {:induction false} OverlayAppend(d: seq<Sector>, pre: seq<nat>, l: nat, post: seq<nat>, data: seq<byte>,
                                         chunk: seq<byte>)
    requires InRange(pre + [l] + post, |d|) && l < |d| && |data| == SECTOR * |pre| && 0 < |chunk| <= SECTOR
    ensures var all := pre + [l] + post;
      var cur := Overlay(d, all, data);
      Overlay(d, all, data + chunk) == cur[l := Patch(cur[l], chunk)]
    decreases |pre|
  {
    var all := pre + [l] + post;
    if pre == [] {
      assert all[0] == l && data == [] && data + chunk == chunk;
      assert chunk[..|chunk|] == chunk && chunk[|chunk|..] == [];
    } else {
      assert all[0] == pre[0] && all[1..] == pre[1..] + [l] + post;
      var e := d[pre[0] := Patch(d[pre[0]], data[..SECTOR])];
      assert (data + chunk)[..SECTOR] == data[..SECTOR] && (data + chunk)[SECTOR..] == data[SECTOR..] + chunk;
      OverlayAppend(e, pre[1..], l, post, data[SECTOR..], chunk);
    }
  }

  // ----- the FAT is never overwritten by file data -----

  /** The two disks agree below the data area. */
  ghost predicate SameFat(d: seq<Sector>, e: seq<Sector>, b: Bpb)
  {
    |d| == |e| && forall l :: 0 <= l < |d| && l < DataStart(b) ==> d[l] == e[l]
  }

  lemma OverlayKeepsFat(d: seq<Sector>, b: Bpb, n: nat, ch: seq<nat>, data: seq<byte>)
    requires WfVolume(b, n, |d|) && AllInVolume(ch, n)
    requires InRange(Lbas(b, ch), |d|) && |data| <= SECTOR * |Lbas(b, ch)|
    ensures SameFat(d, Overlay(d, Lbas(b, ch), data), b)
  {
    LbasInData(b, n, |d|, ch);
    forall l | 0 <= l < |d| && l < DataStart(b) ensures Overlay(d, Lbas(b, ch), data)[l] == d[l] {
      OverlayOutside(d, Lbas(b, ch), data, l);
    }
  }

  lemma LinkStable(d: seq<Sector>, e: seq<Sector>, b: Bpb, n: nat, c: nat)
    requires WfVolume(b, n, |d|) && InVolume(c, n) && SameFat(d, e, b)
    ensures Link(d, b, c) == Link(e, b, c)
  {
    LinkInFat(b, n, |d|, c);
  }

  lemma ChainStable(d: seq<Sector>, e: seq<Sector>, b: Bpb, n: nat, ch: seq<nat>)
    requires WfVolume(b, n, |d|) && IsChain(d, b, n, ch) && SameFat(d, e, b)
    ensures IsChain(e, b, n, ch)
  {
    forall i | 0 <= i < |ch| ensures Link(d, b, ch[i]) == Link(e, b, ch[i]) { LinkStable(d, e, b, n, ch[i]); }
  }
}
