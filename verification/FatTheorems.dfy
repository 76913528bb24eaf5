/** What a write means for the file, for every other file, and for the file system around it. */
module FatTheorems {
  import opened Bytes
  import opened Disk
  import opened FatSpec
  import opened FatData
  import opened Fat32

  function Capacity(b: Bpb, ch: seq<nat>): nat { SECTOR * |Lbas(b, ch)| }

  /** The bytes of a file with the given chain. */
  function FileBytes(d: seq<Sector>, b: Bpb, ch: seq<nat>, size: nat): (s: seq<byte>)
    requires InRange(Lbas(b, ch), |d|) && size <= Capacity(b, ch)
    ensures |s| == size
  {
    Flat(d, Lbas(b, ch))[..size]
  }

  lemma ChainRange(d: seq<Sector>, b: Bpb, n: nat, file: FatFile, ch: seq<nat>)
    requires HasChain(d, b, n, file, ch)
    ensures AllInVolume(ch, n) && Distinct(ch) && InRange(Lbas(b, ch), |d|) && Distinct(Lbas(b, ch))
  {
    hide Lbas;
    LbasInData(b, n, |d|, ch);
    LbasDistinct(b, n, |d|, ch);
  }

  /** A file reads as its bytes exactly when its chain is long enough. */
  lemma ReadsAs(d: seq<Sector>, b: Bpb, n: nat, file: FatFile, ch: seq<nat>)
    requires HasChain(d, b, n, file, ch)
    ensures b.spc > 0 && InRange(Lbas(b, ch), |d|)
    ensures ReadFrom(d, b, file.first, file.size)
         == if file.size <= Capacity(b, ch) then Some(FileBytes(d, b, ch, file.size)) else None
  {
    ChainRange(d, b, n, file, ch);
    if ch != [] {
      ReadChain(d, b, n, ch, file.size);
    } else {
      assert Flat(d, []) == [];
    }
  }

  /**
   * Any prefix write, complete or cut short by a fault: the chain still stands, the file holds the
   * written prefix and then its old bytes, and the slack after its last byte is untouched.
   */
  lemma PrefixWrite(d: seq<Sector>, e: seq<Sector>, b: Bpb, n: nat, file: FatFile, ch: seq<nat>, data: seq<byte>,
                    k: nat)
    requires HasChain(d, b, n, file, ch) && |data| == file.size <= Capacity(b, ch)
    requires WrittenUpTo(d, e, Lbas(b, ch), data, k)
    ensures HasChain(e, b, n, file, ch) && InRange(Lbas(b, ch), |e|) && SameFat(d, e, b)
    ensures FileBytes(e, b, ch, file.size) == data[..k] + FileBytes(d, b, ch, file.size)[k..]
    ensures Flat(e, Lbas(b, ch))[file.size..] == Flat(d, Lbas(b, ch))[file.size..]
  {
    ChainRange(d, b, n, file, ch);
    OverlayKeepsFat(d, b, n, ch, data[..k]);
    if ch != [] { ChainStable(d, e, b, n, ch); }
    OverlayReads(d, Lbas(b, ch), data[..k]);
    hide Lbas, Flat, Overlay, IsChain, WfVolume;
    var was, now, size := Flat(d, Lbas(b, ch)), Flat(e, Lbas(b, ch)), file.size;
    assert now == data[..k] + was[k..];
    assert now[..size] == data[..k] + was[..size][k..];
  }

  /** A write that reports success is read back exactly. */
  lemma WriteThenRead(d: seq<Sector>, e: seq<Sector>, b: Bpb, n: nat, file: FatFile, ch: seq<nat>, data: seq<byte>,
                      working: bool)
    requires HasChain(d, b, n, file, ch) && |data| == file.size
    requires Written(d, e, Lbas(b, ch), data, true, working)
    ensures b.spc > 0 && HasChain(e, b, n, file, ch)
    ensures ReadFrom(e, b, file.first, file.size) == Some(data)
  {
    hide Lbas, Flat, IsChain, WfVolume, ReadFrom, HasChain;
    PrefixWrite(d, e, b, n, file, ch, data, |data|);
    ReadsAs(e, b, n, file, ch);
    var before := FileBytes(d, b, ch, file.size);
    assert data[..|data|] + before[|data|..] == data;
  }

  /** On a working drive a write succeeds exactly when the chain can hold the file. */
  lemma WriteSucceeds(d: seq<Sector>, e: seq<Sector>, b: Bpb, ch: seq<nat>, data: seq<byte>, ok: bool)
    requires Written(d, e, Lbas(b, ch), data, ok, true)
    ensures ok <==> |data| <= Capacity(b, ch)
  {
  }

  /** Sectors off the chain, and any chain without a common cluster, are left alone. */
  lemma OthersUnaffected(d: seq<Sector>, e: seq<Sector>, b: Bpb, n: nat, file: FatFile, ch: seq<nat>, data: seq<byte>,
                         k: nat, other: FatFile, oh: seq<nat>)
    requires HasChain(d, b, n, file, ch) && HasChain(d, b, n, other, oh) && Disjoint(ch, oh)
    requires WrittenUpTo(d, e, Lbas(b, ch), data, k)
    ensures HasChain(e, b, n, other, oh) && InRange(Lbas(b, oh), |d|) && |d| == |e|
    ensures Flat(e, Lbas(b, oh)) == Flat(d, Lbas(b, oh))
  {
    ChainRange(d, b, n, file, ch);
    ChainRange(d, b, n, other, oh);
    LbasDisjoint(b, n, |d|, ch, oh);
    OverlayKeepsFat(d, b, n, ch, data[..k]);
    if oh != [] { ChainStable(d, e, b, n, oh); }
    hide Lbas, IsChain, WfVolume;
    forall i | 0 <= i < |Lbas(b, oh)| ensures d[Lbas(b, oh)[i]] == e[Lbas(b, oh)[i]] {
      OverlayOutside(d, Lbas(b, ch), data[..k], Lbas(b, oh)[i]);
    }
    FlatSame(d, e, Lbas(b, oh));
  }

  lemma OffChainSector(d: seq<Sector>, e: seq<Sector>, b: Bpb, ch: seq<nat>, data: seq<byte>, k: nat, lba: nat)
    requires WrittenUpTo(d, e, Lbas(b, ch), data, k) && lba < |d|
    requires !InClusters(b, ch, lba)
    ensures lba < |e| && e[lba] == d[lba]
  {
    forall i | 0 <= i < |Lbas(b, ch)| ensures Lbas(b, ch)[i] != lba { LbasOwned(b, ch, i); }
    OverlayOutside(d, Lbas(b, ch), data[..k], lba);
  }

  /**
   * On a working drive, storing a file and loading it again returns what was stored exactly when its chain can hold it.
   */
  method StoreThenLoad(drive: Drive, b: Bpb, file: FatFile, data: seq<byte>, mem: array<byte>, dst: nat, ghost n: nat,
                       ghost ch: seq<nat>)
    returns (stored: bool, loaded: bool)
    requires b.spc > 0 && |data| == file.size && dst + file.size <= mem.Length
    requires drive.Working() && HasChain(drive.sectors, b, n, file, ch)
    modifies drive`clock, drive`sectors, mem
    ensures stored <==> file.size <= Capacity(b, ch)
    ensures loaded <==> stored
    ensures loaded ==> mem[dst..dst + file.size] == data
    ensures SameOutside(old(mem[..]), mem[..], dst, dst + file.size)
  {
    ghost var d := drive.sectors;
    hide Lbas, Flat, IsChain, WfVolume, ReadFrom, HasChain, Written, Capacity;
    stored := WriteFile(drive, b, file, data, n, ch);
    ghost var e := drive.sectors;
    WriteSucceeds(d, e, b, ch, data, stored);
    loaded := ReadFile(drive, b, file, mem, dst);
    if stored {
      WriteThenRead(d, e, b, n, file, ch, data, true);
    } else {
      StillTooShort(d, e, b, n, file, ch, data);
      ReadsAs(e, b, n, file, ch);
    }
  }

  lemma StillTooShort(d: seq<Sector>, e: seq<Sector>, b: Bpb, n: nat, file: FatFile, ch: seq<nat>, data: seq<byte>)
    requires HasChain(d, b, n, file, ch) && Written(d, e, Lbas(b, ch), data, false, true)
    ensures HasChain(e, b, n, file, ch)
  {
    var k: nat :| WrittenUpTo(d, e, Lbas(b, ch), data, k);
    ChainRange(d, b, n, file, ch);
    OverlayKeepsFat(d, b, n, ch, data[..k]);
    if ch != [] { ChainStable(d, e, b, n, ch); }
  }
}
