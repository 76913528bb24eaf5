/** A small volume that meets every requirement made of one: a root directory listing one file of five bytes. */
module VolumeExample {
  import opened Bytes
  import opened Disk
  import opened FatSpec
  import opened FatData
  import opened Fat32
  import opened FatDirectory
  import opened FatTheorems
  import opened FileVolume

  const BPB: Bpb := Bpb(1, 1, 1, 1, 2)
  const FILE: FatFile := FatFile(3, 5)

  function Blank(v: byte): (s: Sector) { seq<byte>(512, i => v) }

  /** The entry of a file named A, followed by the end marker. */
  function RootSector(): (s: Sector)
  {
    seq<byte>(512, i => if i == 0 then 65 else if i < 12 then 32 else if i == 26 then 3 else if i == 28 then 5 else 0)
  }

  /** Boot sector, a FAT in which every link ends its chain, the directory, and the file. */
  function Disk4(): (d: seq<Sector>) { [Blank(0), Blank(255), RootSector(), Blank(7)] }

  lemma Place(c: nat)
    requires c == 2 || c == 3
    ensures ClusterLba(BPB, c) == c && Lbas(BPB, [c]) == [c]
    ensures !IsLink(Link(Disk4(), BPB, c))
  {
    assert Times(1, 1) == 1 && Times(c - 2, 1) == c - 2;
    WrapSmall(2);
    WrapSmall(c);
    assert Span(c, 1) == [c] && [c][1..] == [];
    assert RawLink(Blank(255), LinkOffset(c)) == 0xFFFF_FFFF;
  }

  lemma OneChain(c: nat)
    requires c == 2 || c == 3
    ensures WfVolume(BPB, 2, 4) && IsChain(Disk4(), BPB, 2, [c]) && InRange(Lbas(BPB, [c]), 4)
  {
    Place(c);
    assert Times(1, 1) == 1 && Times(2, 1) == 2;
  }

  lemma RootLists(name: seq<byte>)
    requires |name| == 11
    ensures Scan(RootSector(), name).Found? ==> Scan(RootSector(), name).file == FILE
  {
    var s := RootSector();
    assert FileOf(s) == FILE;
    assert s[ENTRY..][0] == 0;
  }

  lemma IsVolume()
    ensures Volume(Disk4(), BPB, 2, [2], map[FILE := [3]])
  {
    var d := Disk4();
    OneChain(2);
    OneChain(3);
    Place(2);
    Place(3);
    assert RootBytes(d, BPB, [2]) == d[2] by { assert [2][1..] == []; }
    forall name: seq<byte> | |name| == 11 && Scan(RootBytes(d, BPB, [2]), name).Found?
      ensures Scan(RootBytes(d, BPB, [2]), name).file == FILE
    {
      RootLists(name);
    }
    assert Stored(d, BPB, 2, FILE, [3]);
  }
}
