/** Directory entries: writing them down, and finding them again. */
module FatEntries {
  import opened Bytes
  import opened Fat32
  import opened FatDirectory

  /** A short entry: name and extension, attributes, first cluster and size; the rest are times and reserved bytes. */
  datatype Entry = Entry(name: seq<byte>, attr: byte, created: seq<byte>, written: seq<byte>, first: u32, size: u32)

  predicate WfEntry(e: Entry) { |e.name| == 11 && |e.created| == 8 && |e.written| == 4 }

  function Word(v: nat): (s: seq<byte>)
    requires v < 0x1_0000
    ensures |s| == 2
  {
    [v % 0x100, v / 0x100]
  }

  /** 32 bytes, numbers with the low byte first, the first cluster in two halves. */
  function EntryBytes(e: Entry): (s: seq<byte>)
    requires WfEntry(e)
    ensures |s| == 32
  {
    e.name + ([e.attr] + (e.created + (Word(e.first / 0x1_0000) + (e.written + (Word(e.first % 0x1_0000)
    + (Word(e.size % 0x1_0000) + Word(e.size / 0x1_0000)))))))
  }

  /** Neither deleted nor part of a long name nor a volume label. */
  predicate Live(e: Entry)
    requires WfEntry(e)
  {
    e.name[0] != 0xE5 && e.attr % 16 != 15 && e.attr / 8 % 2 == 0
  }

  ghost predicate AllWf(es: seq<Entry>) { forall i :: 0 <= i < |es| ==> WfEntry(es[i]) }

  ghost function DirBytes(es: seq<Entry>): (s: seq<byte>)
    requires AllWf(es)
  {
    if es == [] then [] else EntryBytes(es[0]) + DirBytes(es[1..])
  }

  /** Entry k is live, has the name, and no entry before it does or ends the directory with a zero. */
  ghost predicate FirstLive(es: seq<Entry>, name: seq<byte>, k: nat)
    requires AllWf(es)
  {
    && k < |es| && Live(es[k]) && es[k].name == name && name[0] != 0
    && forall j :: 0 <= j < k ==> es[j].name[0] != 0 && !(Live(es[j]) && es[j].name == name)
  }

  /** Some entry starts with a zero, which ends the directory. */
  ghost predicate HasEnd(es: seq<Entry>)
    requires AllWf(es)
  {
    exists j :: 0 <= j < |es| && es[j].name[0] == 0
  }

  // ----- reading one entry -----

  /** The places of the fields in an entry, whatever follows it. */
  lemma Fields(e: Entry, rest: seq<byte>)
    requires WfEntry(e)
    ensures var s := EntryBytes(e) + rest;
      && s[..11] == e.name && s[0] == e.name[0] && s[11] == e.attr
      && s[20] == e.first / 0x1_0000 % 0x100 && s[21] == e.first / 0x1_0000 / 0x100
      && s[26] == e.first % 0x1_0000 % 0x100 && s[27] == e.first % 0x1_0000 / 0x100
      && s[28] == e.size % 0x1_0000 % 0x100 && s[29] == e.size % 0x1_0000 / 0x100
      && s[30] == e.size / 0x1_0000 % 0x100 && s[31] == e.size / 0x1_0000 / 0x100
  {
    var w0, w1 := Word(e.first / 0x1_0000), Word(e.first % 0x1_0000);
    var w2, w3 := Word(e.size % 0x1_0000), Word(e.size / 0x1_0000);
    hide Word;
    assert EntryBytes(e) == e.name + ([e.attr] + (e.created + (w0 + (e.written + (w1 + (w2 + w3))))));
    assert forall k :: 0 <= k < 32 ==> (EntryBytes(e) + rest)[k] == EntryBytes(e)[k];
  }

  lemma Halves(v: u32)
    ensures var (h, l) := (v / 0x1_0000, v % 0x1_0000);
      && v == h * 0x1_0000 + l && h == h % 0x100 + 0x100 * (h / 0x100) && l == l % 0x100 + 0x100 * (l / 0x100)
      && h < 0x1_0000 && l < 0x1_0000
  {
  }

  /** An entry reads back as the first cluster and the size that were written, for every value of both. */
  lemma EntryReads(e: Entry, rest: seq<byte>)
    requires WfEntry(e)
    ensures FileOf(EntryBytes(e) + rest) == FatFile(e.first, e.size)
  {
    Fields(e, rest);
    Halves(e.first);
    Halves(e.size);
    hide EntryBytes;
  }

  lemma EntryMatches(e: Entry, rest: seq<byte>, name: seq<byte>)
    requires WfEntry(e) && |name| == 11
    ensures Matches(EntryBytes(e) + rest, name) <==> Live(e) && e.name == name
  {
    Fields(e, rest);
    hide EntryBytes;
  }

  // ----- reading a directory -----

  lemma ScanEntry(e: Entry, rest: seq<byte>, name: seq<byte>)
    requires WfEntry(e) && |name| == 11
    ensures Scan(EntryBytes(e) + rest, name) ==
      if e.name[0] == 0 then Ended
      else if Live(e) && e.name == name then Found(FatFile(e.first, e.size))
      else Scan(rest, name)
  {
    var s := EntryBytes(e) + rest;
    Fields(e, rest);
    EntryReads(e, rest);
    EntryMatches(e, rest, name);
    assert s[ENTRY..] == rest && |s| >= ENTRY;
    hide EntryBytes, Matches, FileOf, Live;
  }

  /**
   * Searching a directory of such entries finds the first live one with the name, and its first cluster and size, and
   * finds nothing if there is none before the end marker.
   */
  lemma {:induction false} DirectoryFinds(es: seq<Entry>, rest: seq<byte>, name: seq<byte>)
    requires AllWf(es) && |name| == 11
    ensures forall k: nat :: FirstLive(es, name, k) ==>
      Scan(DirBytes(es) + rest, name) == Found(FatFile(es[k].first, es[k].size))
    ensures (forall k: nat :: !FirstLive(es, name, k)) ==>
      Scan(DirBytes(es) + rest, name) == if HasEnd(es) then Ended else Scan(rest, name)
    decreases |es|
  {
    if es == [] {
      assert DirBytes(es) + rest == rest;
    } else {
      var e, tail := es[0], es[1..];
      assert DirBytes(es) + rest == EntryBytes(e) + (DirBytes(tail) + rest);
      ScanEntry(e, DirBytes(tail) + rest, name);
      DirectoryFinds(tail, rest, name);
      hide EntryBytes, DirBytes, Scan, Live;
      FirstLiveStep(es, name);
      EndStep(es);
    }
  }

  lemma EndStep(es: seq<Entry>)
    requires AllWf(es) && es != []
    ensures HasEnd(es) <==> es[0].name[0] == 0 || HasEnd(es[1..])
  {
    if j :| 0 <= j < |es| && es[j].name[0] == 0 {
      if j > 0 { assert es[1..][j - 1] == es[j]; }
    }
    if j :| 0 <= j < |es[1..]| && es[1..][j].name[0] == 0 { assert es[j + 1] == es[1..][j]; }
  }

  lemma FirstLiveStep(es: seq<Entry>, name: seq<byte>)
    requires AllWf(es) && es != [] && |name| == 11
    ensures FirstLive(es, name, 0) <==> Live(es[0]) && es[0].name == name && name[0] != 0
    ensures forall k: nat :: FirstLive(es, name, k + 1) <==>
      es[0].name[0] != 0 && !(Live(es[0]) && es[0].name == name) && FirstLive(es[1..], name, k)
  {
    hide Live;
    forall k: nat
      ensures FirstLive(es, name, k + 1) <==>
        es[0].name[0] != 0 && !(Live(es[0]) && es[0].name == name) && FirstLive(es[1..], name, k)
    {
      FirstLiveAt(es, name, k);
    }
  }

  lemma FirstLiveAt(es: seq<Entry>, name: seq<byte>, k: nat)
    requires AllWf(es) && es != [] && |name| == 11
    ensures FirstLive(es, name, k + 1) <==>
      es[0].name[0] != 0 && !(Live(es[0]) && es[0].name == name) && FirstLive(es[1..], name, k)
  {
    hide Live;
    var tail := es[1..];
    if FirstLive(tail, name, k) && es[0].name[0] != 0 && !(Live(es[0]) && es[0].name == name) {
      forall j | 0 <= j < k + 1 ensures es[j].name[0] != 0 && !(Live(es[j]) && es[j].name == name) {
        if j > 0 { assert es[j] == tail[j - 1]; }
      }
    }
    if FirstLive(es, name, k + 1) {
      forall j | 0 <= j < k ensures tail[j].name[0] != 0 && !(Live(tail[j]) && tail[j].name == name) {
        assert tail[j] == es[j + 1];
      }
    }
  }
}
