/** From a path to the file: the name as written, the directory as written, and what open is given. */
module FileNames {
  import opened Bytes
  import opened Fat32
  import opened FatDirectory
  import opened FatEntries
  import opened FileSpec
  import opened KernelFiles
  import opened FileRuns

  /** A base, and after a dot an extension. */
  function Path(base: seq<byte>, dot: bool, ext: seq<byte>): (p: seq<byte>) { base + (if dot then [46] + ext else []) }

  /** The eleven characters of the name in the directory. */
  function DirName(base: seq<byte>, ext: seq<byte>): (n: seq<byte>)
    ensures |n| == 11
  {
    seq(11, k requires 0 <= k => NameChar(base, ext, k))
  }

  predicate Accepted(base: seq<byte>, ext: seq<byte>) { 1 <= |base| <= 8 && |ext| <= 3 && 46 !in ext }

  /** Open is given the first live entry with the name, its first cluster and size, and bit 0 of the flags. */
  lemma OpenFinds(es: seq<Entry>, rest: seq<byte>, base: seq<byte>, dot: bool, ext: seq<byte>, flags: u64, k: nat)
    requires AllWf(es) && 46 !in base && (!dot ==> ext == []) && Accepted(base, ext)
    requires FirstLive(es, DirName(base, ext), k)
    ensures OpOf(DirBytes(es) + rest, FileRuns.Open(Some(Path(base, dot, ext)), flags))
         == OpOpen(Some(FatFile(es[k].first, es[k].size)), flags % 2 == 1)
  {
    NameIs(base, dot, ext);
    DirectoryFinds(es, rest, DirName(base, ext));
    hide Fat83, Scan, DirBytes, DirName, FirstLive, Path;
  }

  /** It is given nothing for a name that is not accepted, and for one that no live entry before the end marker has. */
  lemma OpenMisses(es: seq<Entry>, rest: seq<byte>, base: seq<byte>, dot: bool, ext: seq<byte>, flags: u64)
    requires AllWf(es) && 46 !in base && (!dot ==> ext == [])
    requires !Accepted(base, ext) || (HasEnd(es) && forall k: nat :: !FirstLive(es, DirName(base, ext), k))
    ensures OpOf(DirBytes(es) + rest, FileRuns.Open(Some(Path(base, dot, ext)), flags)) == OpOpen(None, flags % 2 == 1)
    ensures OpOf(DirBytes(es) + rest, FileRuns.Open(None, flags)) == OpOpen(None, flags % 2 == 1)
  {
    Fat83Exact(base, dot, ext);
    if Accepted(base, ext) {
      NameIs(base, dot, ext);
      DirectoryFinds(es, rest, DirName(base, ext));
    }
    hide Fat83, Scan, DirBytes, DirName, FirstLive, HasEnd;
  }

  lemma NameIs(base: seq<byte>, dot: bool, ext: seq<byte>)
    requires 46 !in base && (!dot ==> ext == []) && Accepted(base, ext)
    ensures Fat83(Path(base, dot, ext)) == Some(DirName(base, ext))
  {
    Fat83Exact(base, dot, ext);
    var r := Fat83(Path(base, dot, ext));
    hide Fat83, NameChar;
    assert r.value == DirName(base, ext);
  }
}
