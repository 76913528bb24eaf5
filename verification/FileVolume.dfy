/** A volume seen as a map from its files to their bytes, and what a write does to that map. */
module FileVolume {
  import opened Bytes
  import opened Disk
  import opened FatSpec
  import opened FatData
  import opened Fat32
  import opened FatTheorems
  import opened FatDirectory

  /** Chains of the files listed by the root directory. */
  type Catalog = map<FatFile, seq<nat>>

  /** The file's chain holds it, and its size can be passed to kmalloc without wrapping. */
  ghost predicate Stored(d: seq<Sector>, b: Bpb, n: nat, f: FatFile, ch: seq<nat>)
  {
    HasChain(d, b, n, f, ch) && f.size <= Capacity(b, ch) && f.size <= 0xFFFF_FFF8 && InRange(Lbas(b, ch), |d|)
  }

  ghost predicate AllStored(d: seq<Sector>, b: Bpb, n: nat, cat: Catalog)
  {
    forall f :: f in cat ==> Stored(d, b, n, f, cat[f])
  }

  /** No cluster belongs to two files, or to a file and the directory. */
  ghost predicate Apart(rh: seq<nat>, cat: Catalog)
  {
    && (forall f :: f in cat ==> Disjoint(cat[f], rh))
    && (forall f, g :: f in cat && g in cat && f != g ==> Disjoint(cat[f], cat[g]))
  }

  ghost predicate ListsOnly(s: seq<byte>, cat: Catalog)
  {
    forall name: seq<byte> :: |name| == 11 && Scan(s, name).Found? ==> Scan(s, name).file in cat
  }

  /** A well-formed volume: every listed file is stored, and nothing overlaps. */
  ghost predicate Volume(d: seq<Sector>, b: Bpb, n: nat, rh: seq<nat>, cat: Catalog)
  {
    IsRoot(d, b, n, rh) && AllStored(d, b, n, cat) && Apart(rh, cat) && ListsOnly(RootBytes(d, b, rh), cat)
  }

  ghost function Files(d: seq<Sector>, b: Bpb, n: nat, cat: Catalog): (m: map<FatFile, seq<byte>>)
    requires AllStored(d, b, n, cat)
  {
    map f | f in cat :: FileBytes(d, b, cat[f], f.size)
  }

  /** A write, complete or not, changes the bytes of its own file only: a prefix of them is new. */
  lemma WriteOnVolume(d: seq<Sector>, e: seq<Sector>, b: Bpb, n: nat, rh: seq<nat>, cat: Catalog, f: FatFile,
                      data: seq<byte>, k: nat)
    requires Volume(d, b, n, rh, cat) && f in cat && |data| == f.size
    requires WrittenUpTo(d, e, Lbas(b, cat[f]), data, k)
    ensures Volume(e, b, n, rh, cat) && RootBytes(e, b, rh) == RootBytes(d, b, rh)
    ensures Files(e, b, n, cat) == Files(d, b, n, cat)[f := data[..k] + Files(d, b, n, cat)[f][k..]]
  {
    assert k <= |data|;
    hide HasChain, WrittenUpTo, Lbas, Flat, Scan, IsChain, WfVolume, Disjoint, InRange, Apart, ListsOnly, Stored,
         FileBytes, RootBytes, IsRoot;
    forall g | g in cat
      ensures AfterWrite(d, e, b, n, cat, f, data, k, g)
    {
      FileAfterWrite(d, e, b, n, rh, cat, f, data, k, g);
    }
    RootAfterWrite(d, e, b, n, rh, cat, f, data, k);
    FilesAfterWrite(d, e, b, n, cat, f, data, k);
  }

  /** File g is still stored, with the written prefix if it is f and with its old bytes if not. */
  ghost predicate AfterWrite(d: seq<Sector>, e: seq<Sector>, b: Bpb, n: nat, cat: Catalog, f: FatFile,
                             data: seq<byte>, k: nat, g: FatFile)
    requires f in cat && g in cat && |data| == f.size && k <= |data|
  {
    && Stored(d, b, n, f, cat[f]) && Stored(d, b, n, g, cat[g]) && Stored(e, b, n, g, cat[g])
    && FileBytes(e, b, cat[g], g.size)
       == if g == f then data[..k] + FileBytes(d, b, cat[f], f.size)[k..] else FileBytes(d, b, cat[g], g.size)
  }

  lemma FileAfterWrite(d: seq<Sector>, e: seq<Sector>, b: Bpb, n: nat, rh: seq<nat>, cat: Catalog, f: FatFile,
                       data: seq<byte>, k: nat, g: FatFile)
    requires Volume(d, b, n, rh, cat) && f in cat && g in cat && |data| == f.size && k <= |data|
    requires WrittenUpTo(d, e, Lbas(b, cat[f]), data, k)
    ensures AfterWrite(d, e, b, n, cat, f, data, k, g)
  {
    hide HasChain, WrittenUpTo, Lbas, Flat, IsRoot, ListsOnly, Disjoint;
    assert Stored(d, b, n, f, cat[f]) && Stored(d, b, n, g, cat[g]);
    if g == f { PrefixWrite(d, e, b, n, f, cat[f], data, k); }
    else { Elsewhere(d, e, b, n, f, cat[f], data, k, g, cat[g]); }
  }

  lemma FilesAfterWrite(d: seq<Sector>, e: seq<Sector>, b: Bpb, n: nat, cat: Catalog, f: FatFile, data: seq<byte>,
                        k: nat)
    requires f in cat && |data| == f.size && k <= |data| && AllStored(d, b, n, cat)
    requires forall g :: g in cat ==> AfterWrite(d, e, b, n, cat, f, data, k, g)
    ensures AllStored(e, b, n, cat)
    ensures Files(e, b, n, cat) == Files(d, b, n, cat)[f := data[..k] + Files(d, b, n, cat)[f][k..]]
  {
    hide Stored, FileBytes;
  }

  lemma Elsewhere(d: seq<Sector>, e: seq<Sector>, b: Bpb, n: nat, f: FatFile, ch: seq<nat>, data: seq<byte>, k: nat,
                  g: FatFile, oh: seq<nat>)
    requires Stored(d, b, n, f, ch) && Stored(d, b, n, g, oh) && Disjoint(ch, oh)
    requires WrittenUpTo(d, e, Lbas(b, ch), data, k)
    ensures Stored(e, b, n, g, oh) && FileBytes(e, b, oh, g.size) == FileBytes(d, b, oh, g.size)
  {
    hide HasChain, WrittenUpTo, Lbas, Flat, IsChain, WfVolume, Disjoint;
    OthersUnaffected(d, e, b, n, f, ch, data, k, g, oh);
  }

  lemma RootAfterWrite(d: seq<Sector>, e: seq<Sector>, b: Bpb, n: nat, rh: seq<nat>, cat: Catalog, f: FatFile,
                       data: seq<byte>, k: nat)
    requires Volume(d, b, n, rh, cat) && f in cat
    requires WrittenUpTo(d, e, Lbas(b, cat[f]), data, k)
    ensures IsRoot(e, b, n, rh) && RootBytes(e, b, rh) == RootBytes(d, b, rh)
  {
    assert Stored(d, b, n, f, cat[f]);
    var root := FatFile(rh[0], 0);
    assert HasChain(d, b, n, root, rh);
    OthersUnaffected(d, e, b, n, f, cat[f], data, k, root, rh);
  }

  /** Reading a listed file gives the bytes the map holds for it. */
  lemma VolumeReads(d: seq<Sector>, b: Bpb, n: nat, rh: seq<nat>, cat: Catalog, f: FatFile)
    requires Volume(d, b, n, rh, cat) && f in cat
    ensures b.spc > 0 && ReadFrom(d, b, f.first, f.size) == Some(Files(d, b, n, cat)[f])
  {
    assert Stored(d, b, n, f, cat[f]);
    ReadsAs(d, b, n, f, cat[f]);
  }
}
