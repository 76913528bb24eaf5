/** The descriptor table of Syscall_File.c over the FAT32 driver and the kernel heap. */
module KernelFiles {
  import opened Bytes
  import opened Disk
  import opened FatSpec
  import opened FatData
  import opened Fat32
  import opened FatDirectory
  import opened FileVolume
  import opened FileSpec
  import opened HeapList
  import opened HeapMemory
  import HeapSpec
  import opened HeapBorrow
  import opened KernelHeap

  datatype KernelFile = KernelFile(used: bool, writable: bool, file: FatFile, offset: u32)

  // ----- names -----

  lemma {:induction false} UpperPush(s: seq<byte>, c: byte)
    ensures UpperAll(s + [c]) == UpperAll(s) + [Upper(c)]
  {
    if s == [] { assert [c][1..] == []; } else { assert (s + [c])[1..] == s[1..] + [c]; UpperPush(s[1..], c); }
  }

  lemma PadPush(s: seq<byte>, n: nat, c: byte)
    requires |s| < n
    ensures Padded(s, n)[|s| := c] == Padded(s + [c], n)
  {
  }

  /** Fills an 11-character buffer: base name in the first eight places, extension in the last three. */
  method PathToFat83(path: seq<byte>) returns (ok: bool, name: seq<byte>)
    ensures ok <==> Fat83(path).Some?
    ensures ok ==> name == Fat83(path).value
  {
    hide UpperAll, FirstDot, Padded, Upper;
    ghost var dot := FirstDot(path);
    ghost var base, ext := [], [];
    name := seq(11, i => SPACE);
    BlankName(name);
    var nameLen, extLen, inExt := 0, 0, false;
    for k := 0 to |path|
      invariant |name| == 11 && 0 <= nameLen == |base| <= 8 && 0 <= extLen == |ext| <= 3
      invariant !inExt ==> k <= dot && base == path[..k] && ext == []
      invariant inExt ==> dot < k && base == path[..dot] && ext == path[dot + 1..k] && DOT !in ext
      invariant name == Padded(UpperAll(base), 8) + Padded(UpperAll(ext), 3)
    {
      var c := path[k];
      if c == DOT {
        if inExt { assert path[dot + 1..][k - dot - 1] == DOT; return false, name; }
        assert path[dot + 1..k + 1] == [];
        inExt := true;
      } else if !inExt {
        if nameLen >= 8 { return false, name; }
        UpperPush(base, c);
        PadPush(UpperAll(base), 8, Upper(c));
        base := base + [c];
        name, nameLen := name[nameLen := Upper(c)], nameLen + 1;
      } else {
        if extLen >= 3 { return false, name; }
        UpperPush(ext, c);
        PadPush(UpperAll(ext), 3, Upper(c));
        ext := ext + [c];
        name, extLen := name[8 + extLen := Upper(c)], extLen + 1;
      }
    }
    if inExt { assert ext == path[dot + 1..]; } else { assert base == path[..dot]; }
    ok := nameLen > 0;
  }

  lemma BlankName(name: seq<byte>)
    requires name == seq(11, i => SPACE)
    ensures name == Padded(UpperAll([]), 8) + Padded(UpperAll([]), 3)
  {
  }

  /** The file an 8.3 path names, as the directory lists it. */
  function Lookup(dir: seq<byte>, path: Option<seq<byte>>): (r: Option<FatFile>)
  {
    if path.None? || Fat83(path.value).None? then None
    else
      var r := FatDirectory.Scan(dir, Fat83(path.value).value);
      if r.Found? then Some(r.file) else None
  }

  function FdOf(k: KernelFile): Fd { if k.used then Open(k.file, k.writable, k.offset) else Closed }

  function FdsOf(ks: seq<KernelFile>): (r: seq<Fd>)
    ensures |r| == |ks| && forall i :: 0 <= i < |ks| ==> r[i] == FdOf(ks[i])
  {
    seq(|ks|, i requires 0 <= i < |ks| => FdOf(ks[i]))
  }

  /** Nothing on the heap can hold a file of this size. */
  ghost predicate NoRoom(bs: seq<Block>, size: u32)
  {
    forall j :: 0 <= j < |bs| ==> !Fits(bs[j], HeapSpec.AlignUp(size))
  }

  class FileTable {
    const heap: Heap
    const drive: Drive
    const bpb: Bpb
    const files: array<KernelFile>
    ghost const n: nat
    ghost const root: seq<nat>
    ghost const catalog: Catalog

    ghost predicate Mounted()
      reads drive
    {
      Volume(drive.sectors, bpb, n, root, catalog)
    }

    /** Every open descriptor is on a listed file, with its cursor inside it. */
    ghost predicate TableOk()
      reads files
    {
      && files.Length == MAX_FD
      && forall i :: 0 <= i < MAX_FD && files[i].used ==>
           files[i].file in catalog && files[i].offset <= files[i].file.size
    }

    ghost predicate Valid()
      reads this, heap, heap.mem, drive, files
    {
      HeapOk(heap) && Mounted() && TableOk()
    }

    ghost function View(): Fs
      requires Mounted()
      reads drive, files
    {
      Fs(Files(drive.sectors, bpb, n, catalog), FdsOf(files[..]))
    }

    /** syscall_file_init on a mounted volume: every descriptor is closed. */
    constructor (h: Heap, d: Drive, b: Bpb, ghost clusters: nat, ghost rh: seq<nat>, ghost cat: Catalog)
      requires HeapOk(h) && Volume(d.sectors, b, clusters, rh, cat)
      ensures Valid() && heap == h && drive == d && bpb == b && n == clusters && root == rh && catalog == cat
      ensures fresh(files) && forall i :: 0 <= i < MAX_FD ==> !files[i].used
    {
      heap, drive, bpb, n, root, catalog := h, d, b, clusters, rh, cat;
      files := new KernelFile[16](_ => KernelFile(false, false, FatFile(0, 0), 0));
    }

    lemma ViewWf()
      requires Mounted() && TableOk()
      ensures Wf(View())
    {
      var fs := View();
      forall f | f in fs.files ensures |fs.files[f]| == f.size { assert Stored(drive.sectors, bpb, n, f, catalog[f]); }
    }

    /**
     * kmalloc a buffer for the whole file and read it in; 0 when there is no room or the read fails,
     * and then the block list is as before.
     */
    method LoadAll(file: FatFile) returns (p: nat)
      requires HeapOk(heap) && bpb.spc > 0 && 0 < file.size <= 0xFFFF_FFF8
      modifies heap`hint, heap`totalAlloc, heap`totalFreed, heap`blocks, heap.mem, drive`clock
      ensures p == 0 ==> HeapOk(heap) && heap.blocks == old(heap.blocks)
      ensures p == 0 ==> UsedKept(old(heap.mem[..]), heap.mem[..], heap.base, UsedSet(old(heap.blocks)), -1)
      ensures p != 0 ==> heap.Valid() && heap.initialized
      ensures p != 0 ==>
        Borrowed(heap.base, heap.End(), old(heap.View()), old(heap.mem[..]), p, file.size, heap.View(), heap.mem[..])
      ensures p != 0 ==>
        ReadFrom(drive.sectors, bpb, file.first, file.size) == Some(heap.mem[p - heap.base..p - heap.base + file.size])
      ensures drive.Working() ==>
        (p == 0 <==> NoRoom(old(heap.blocks), file.size) || ReadFrom(drive.sectors, bpb, file.first, file.size).None?)
    {
      hide HeaderAt, Represents, Tiled, UsedKept, UsedSet, HeapSpec.Inv, HeapSpec.Kmalloc, HeapSpec.AlignUp, ReadFrom;
      ghost var s, m := heap.View(), heap.mem[..];
      p := Borrow(heap, file.size);
      NothingChanged(m, heap.base, UsedSet(s.blocks));
      if p == 0 { return; }
      ghost var m1 := heap.mem[..];
      var ok := ReadFile(drive, bpb, file, heap.mem, p - heap.base);
      WriteInside(heap.base, heap.End(), s, m, p, file.size, heap.View(), m1, heap.mem[..]);
      if !ok {
        GiveBack(heap, p, s, m, file.size);
        p := 0;
      }
    }

    /** A descriptor number that names an open descriptor. */
    predicate Usable(fd: int)
      requires files.Length == MAX_FD
      reads files
    {
      0 <= fd < MAX_FD && files[fd].used
    }

    /** The outcome of a read that was not refused. */
    ghost predicate ReadsAsSpec(fs: Fs, fd: int, len: nat, r: int, before: seq<byte>, after: seq<byte>, now: Fs)
      requires Wf(fs)
    {
      && 0 <= r <= |after| && (now, r, after[..r]) == ReadFd(fs, fd, len)
      && |before| == |after| && after[r..] == before[r..]
    }

    lemma ReadDone(fs: Fs, fd: nat, len: nat, before: seq<byte>, after: seq<byte>)
      requires Wf(fs) && IsOpen(fs, fd) && Transfer(fs.fds[fd], len) <= |before|
      requires var d := fs.fds[fd];
        var n := Transfer(d, len);
        after == fs.files[d.file][d.offset..d.offset + n] + before[n..]
      ensures var n := Transfer(fs.fds[fd], len);
        ReadsAsSpec(fs, fd, len, n, before, after, Advance(fs, fd, n))
    {
    }

    /** When a read on a working drive returns -1. */
    ghost predicate ReadRefused(fs: Fs, fd: int, len: nat, isNull: bool, bs: seq<Block>)
      requires Wf(fs)
    {
      isNull || !IsOpen(fs, fd) || (Transfer(fs.fds[fd], len) > 0 && NoRoom(bs, fs.fds[fd].file.size))
    }

    /** Load the file, copy part of it to the caller, and free the buffer. */
    method CopyPart(file: FatFile, offset: nat, n: nat, buffer: array<byte>) returns (ok: bool)
      requires HeapOk(heap) && Mounted() && file in catalog && file.size > 0
      requires buffer != heap.mem && offset + n <= file.size && n <= buffer.Length
      modifies heap`hint, heap`totalAlloc, heap`totalFreed, heap`blocks, heap.mem, drive`clock, buffer
      ensures HeapOk(heap) && heap.blocks == old(heap.blocks)
      ensures UsedKept(old(heap.mem[..]), heap.mem[..], heap.base, UsedSet(old(heap.blocks)), -1)
      ensures !ok ==> buffer[..] == old(buffer[..])
      ensures ok ==>
        buffer[..] == Files(drive.sectors, bpb, this.n, catalog)[file][offset..offset + n] + old(buffer[..])[n..]
      ensures drive.Working() ==> (!ok <==> NoRoom(old(heap.blocks), file.size))
    {
      hide HeaderAt, Represents, Tiled, UsedKept, UsedSet, HeapSpec.Inv, HeapSpec.Kmalloc, HeapSpec.AlignUp, ReadFrom,
           Volume, Files, NoRoom, Borrowed;
      ghost var m, s := heap.mem[..], heap.View();
      SizeFits(file);
      var p := LoadAll(file);
      if p == 0 { return false; }
      BorrowPlace(heap.base, heap.End(), s, m, p, file.size, heap.View(), heap.mem[..]);
      var o := p - heap.base;
      SliceOfSlice(heap.mem[..], o, file.size, offset, n);
      CopyIn(buffer, 0, heap.mem[..][o + offset..o + offset + n]);
      GiveBack(heap, p, s, m, file.size);
      ok := true;
    }

    method Read(fd: int, buffer: array?<byte>, len: u64) returns (r: int)
      requires Valid() && buffer != heap.mem
      requires buffer != null && Usable(fd) ==> Transfer(FdOf(files[fd]), len) <= buffer.Length
      modifies heap`hint, heap`totalAlloc, heap`totalFreed, heap`blocks, heap.mem, drive`clock, files, buffer
      ensures Valid() && drive.sectors == old(drive.sectors) && Wf(old(View()))
      ensures heap.blocks == old(heap.blocks)
      ensures UsedKept(old(heap.mem[..]), heap.mem[..], heap.base, UsedSet(old(heap.blocks)), -1)
      ensures r == -1 ==> View() == old(View()) && (buffer != null ==> buffer[..] == old(buffer[..]))
      ensures r != -1 ==> buffer != null && ReadsAsSpec(old(View()), fd, len, r, old(buffer[..]), buffer[..], View())
      ensures drive.Working() ==> (r == -1 <==> ReadRefused(old(View()), fd, len, buffer == null, old(heap.blocks)))
    {
      hide HeaderAt, Represents, Tiled, UsedKept, UsedSet, HeapSpec.Inv, HeapSpec.Kmalloc, HeapSpec.AlignUp, ReadFrom,
           Volume, Files, NoRoom, Borrowed;
      ViewWf();
      ghost var fs, m, s := View(), heap.mem[..], heap.View();
      NothingChanged(m, heap.base, UsedSet(s.blocks));
      if fd < 0 || fd >= MAX_FD || buffer == null || !files[fd].used { return -1; }
      var f := files[fd];
      if len == 0 || f.offset >= f.file.size {
        NoTransfer(fs, fd, len);
        return 0;
      }
      var toRead := Min(len, f.file.size - f.offset);
      ghost var was := buffer[..];
      var ok := CopyPart(f.file, f.offset, toRead, buffer);
      if !ok { return -1; }
      files[fd] := f.(offset := f.offset + toRead);
      FdsUpdate(old(files[..]), fd, files[fd]);
      ReadDone(fs, fd, len, was, buffer[..]);
      r := toRead;
    }

    /** When a write on a working drive returns -1. */
    ghost predicate WriteRefused(fs: Fs, fd: int, data: Option<seq<byte>>, bs: seq<Block>)
      requires Wf(fs)
    {
      || data.None? || !IsOpen(fs, fd) || !fs.fds[fd].writable
      || (Transfer(fs.fds[fd], |data.value|) > 0 && NoRoom(bs, fs.fds[fd].file.size))
    }

    /** A write cut short by a fault: the cursors stand, and a prefix of the file holds what was to be written. */
    ghost predicate Torn(fs: Fs, fd: int, data: seq<byte>, now: Fs)
      requires Wf(fs)
    {
      IsOpen(fs, fd) && exists k: nat :: TornAt(fs, fd, data, now, k)
    }

    ghost predicate TornAt(fs: Fs, fd: int, data: seq<byte>, now: Fs, k: nat)
      requires Wf(fs) && IsOpen(fs, fd)
    {
      var d := fs.fds[fd];
      var was := fs.files[d.file];
      && k <= |was|
      && now == fs.(files := fs.files[d.file := Splice(was, d.offset, data[..Transfer(d, |data|)])[..k] + was[k..]])
    }

    method Write(fd: int, buffer: Option<seq<byte>>) returns (r: int)
      requires Valid()
      modifies heap`hint, heap`totalAlloc, heap`totalFreed, heap`blocks, heap.mem, drive`clock, drive`sectors, files
      ensures Valid() && Wf(old(View())) && Directory() == old(Directory())
      ensures heap.blocks == old(heap.blocks)
      ensures UsedKept(old(heap.mem[..]), heap.mem[..], heap.base, UsedSet(old(heap.blocks)), -1)
      ensures r != -1 ==> buffer.Some? && (View(), r) == WriteFd(old(View()), fd, buffer.value)
      ensures r == -1 ==>
        View() == old(View()) || (!drive.Working() && buffer.Some? && Torn(old(View()), fd, buffer.value, View()))
      ensures drive.Working() ==> (r == -1 <==> WriteRefused(old(View()), fd, buffer, old(heap.blocks)))
    {
      hide HeaderAt, Represents, Tiled, UsedKept, UsedSet, HeapSpec.Inv, HeapSpec.Kmalloc, HeapSpec.AlignUp, ReadFrom,
           Volume, Files, NoRoom, Borrowed;
      ViewWf();
      ghost var fs, m, s := View(), heap.mem[..], heap.View();
      NothingChanged(m, heap.base, UsedSet(s.blocks));
      if fd < 0 || fd >= MAX_FD || buffer.None? || !files[fd].used { return -1; }
      if !files[fd].writable { return -1; }
      var data, f := buffer.value, files[fd];
      if data == [] || f.offset >= f.file.size {
        NoTransfer(fs, fd, |data|);
        return 0;
      }
      var toWrite := Min(|data|, f.file.size - f.offset);
      ghost var was, k := fs.files[f.file], 0;
      var loaded, ok;
      loaded, ok, k := Rewrite(f.file, f.offset, data[..toWrite], was);
      if !loaded { return -1; }
      if !ok {
        assert TornAt(fs, fd, data, View(), k);
        return -1;
      }
      assert Splice(was, f.offset, data[..toWrite])[..k] + was[k..] == Splice(was, f.offset, data[..toWrite]);
      files[fd] := f.(offset := f.offset + toWrite);
      FdsUpdate(old(files[..]), fd, files[fd]);
      r := toWrite;
    }

    /** Load the file, overwrite part of it and write it back; nothing changes when it cannot be loaded. */
    method Rewrite(file: FatFile, offset: nat, data: seq<byte>, ghost was: seq<byte>)
      returns (loaded: bool, ok: bool, ghost k: nat)
      requires HeapOk(heap) && Mounted() && file in catalog && file.size > 0
      requires |was| == file.size && offset + |data| <= file.size && was == Files(drive.sectors, bpb, n, catalog)[file]
      modifies heap`hint, heap`totalAlloc, heap`totalFreed, heap`blocks, heap.mem, drive`clock, drive`sectors
      ensures HeapOk(heap) && heap.blocks == old(heap.blocks)
      ensures UsedKept(old(heap.mem[..]), heap.mem[..], heap.base, UsedSet(old(heap.blocks)), -1)
      ensures Mounted() && Directory() == old(Directory())
      ensures !loaded ==> !ok && drive.sectors == old(drive.sectors)
      ensures loaded ==> k <= file.size && (ok <==> k == file.size)
      ensures loaded ==>
        Files(drive.sectors, bpb, n, catalog)
        == old(Files(drive.sectors, bpb, n, catalog))[file := Splice(was, offset, data)[..k] + was[k..]]
      ensures drive.Working() ==> (ok <==> loaded) && (!loaded <==> NoRoom(old(heap.blocks), file.size))
    {
      hide HeaderAt, Represents, Tiled, UsedKept, UsedSet, HeapSpec.Inv, HeapSpec.Kmalloc, HeapSpec.AlignUp, ReadFrom,
           Volume, Files, NoRoom, Borrowed;
      ghost var m, s := heap.mem[..], heap.View();
      ok, k := false, 0;
      SizeFits(file);
      var p := LoadAll(file);
      loaded := p != 0;
      if loaded {
        BorrowPlace(heap.base, heap.End(), s, m, p, file.size, heap.View(), heap.mem[..]);
        ok, k := PatchAndStore(file, p, offset, data, s, m, was);
      }
    }

    /** Overwrite part of the loaded file, write it all back, and free the buffer. */
    method PatchAndStore(file: FatFile, p: nat, offset: nat, data: seq<byte>,
                         ghost s: HeapSpec.State, ghost m: seq<byte>, ghost was: seq<byte>)
      returns (ok: bool, ghost k: nat)
      requires Mounted() && file in catalog && heap.Valid() && heap.initialized
      requires bpb.spc > 0 && file.size <= 0xFFFF_FFF8 && |was| == file.size && offset + |data| <= file.size
      requires was == Files(drive.sectors, bpb, n, catalog)[file]
      requires Borrowed(heap.base, heap.End(), s, m, p, file.size, heap.View(), heap.mem[..])
      requires heap.base <= p && p - heap.base + file.size <= heap.mem.Length
      requires heap.mem[p - heap.base..p - heap.base + file.size] == was
      modifies heap`hint, heap`totalFreed, heap`blocks, heap.mem, drive`clock, drive`sectors
      ensures HeapOk(heap) && heap.blocks == s.blocks
      ensures UsedKept(m, heap.mem[..], heap.base, UsedSet(s.blocks), -1)
      ensures Mounted() && Directory() == old(Directory()) && k <= file.size && (ok <==> k == file.size)
      ensures drive.Working() ==> ok
      ensures Files(drive.sectors, bpb, n, catalog)
        == old(Files(drive.sectors, bpb, n, catalog))[file := Splice(was, offset, data)[..k] + was[k..]]
    {
      hide HeaderAt, Represents, Tiled, UsedKept, UsedSet, HeapSpec.Inv, HeapSpec.Kmalloc, ReadFrom, Volume, Files,
           Borrowed, Lbas, WrittenUpTo, HasChain;
      ghost var d, cur := drive.sectors, heap.mem[..];
      ChainOf(file);
      var o := p - heap.base;
      CopyIn(heap.mem, o + offset, data);
      InsideOnly(cur, o, file.size, offset, data, heap.mem[..]);
      WriteInside(heap.base, heap.End(), s, m, p, file.size, heap.View(), cur, heap.mem[..]);
      var all := heap.mem[o..o + file.size];
      ok := WriteFile(drive, bpb, file, all, n, catalog[file]);
      k :| WrittenUpTo(d, drive.sectors, Lbas(bpb, catalog[file]), all, k) && (ok <==> k == |all|)
         && (drive.Working() ==> k == Min(|all|, SECTOR * |Lbas(bpb, catalog[file])|));
      PrefixBound(d, drive.sectors, Lbas(bpb, catalog[file]), all, k);
      WriteOnVolume(d, drive.sectors, bpb, n, root, catalog, file, all, k);
      BorrowedValid(heap, s, m, p, file.size);
      GiveBack(heap, p, s, m, file.size);
    }

    lemma ChainOf(f: FatFile)
      requires Mounted() && f in catalog
      ensures HasChain(drive.sectors, bpb, n, f, catalog[f]) && f.size <= SECTOR * |Lbas(bpb, catalog[f])|
    {
      assert Stored(drive.sectors, bpb, n, f, catalog[f]);
    }

    ghost function Directory(): (s: seq<byte>)
      requires Mounted()
      reads drive
    {
      RootBytes(drive.sectors, bpb, root)
    }

    method Open(path: Option<seq<byte>>, flags: u64) returns (fd: int)
      requires Valid()
      modifies drive`clock, files
      ensures Valid() && drive.sectors == old(drive.sectors)
      ensures fd != -1 ==> (View(), fd) == OpenFile(old(View()), Lookup(old(Directory()), path), flags % 2 == 1)
      ensures fd == -1 ==> View() == old(View())
      ensures drive.Working() ==> (View(), fd) == OpenFile(old(View()), Lookup(old(Directory()), path), flags % 2 == 1)
    {
      hide HeapOk, Stored, Apart, Files, RootBytes, FatDirectory.Scan, Fat83;
      if path.None? { return -1; }
      var ok, name := PathToFat83(path.value);
      if !ok { return -1; }
      var found, file := FindFile(drive, bpb, name, n, root);
      if !found { return -1; }
      ghost var fds := FdsOf(files[..]);
      for i := 0 to MAX_FD
        invariant files[..] == old(files[..]) && FreeFd(fds, i) == FreeFd(fds, 0)
      {
        if !files[i].used {
          files[i] := KernelFile(true, flags % 2 == 1, file, 0);
          FdsUpdate(old(files[..]), i, files[i]);
          return i;
        }
      }
      fd := -1;
    }

    method Close(fd: int) returns (r: int)
      requires Valid()
      modifies files
      ensures Valid() && (View(), r) == CloseFd(old(View()), fd)
    {
      hide HeapOk, Volume, Files;
      if fd < 0 || fd >= MAX_FD || !files[fd].used { return -1; }
      files[fd] := KernelFile(false, false, FatFile(0, 0), 0);
      FdsUpdate(old(files[..]), fd, files[fd]);
      r := 0;
    }

    lemma SizeFits(f: FatFile)
      requires Mounted() && f in catalog
      ensures bpb.spc > 0 && f.size <= 0xFFFF_FFF8
      ensures ReadFrom(drive.sectors, bpb, f.first, f.size) == Some(Files(drive.sectors, bpb, n, catalog)[f])
    {
      VolumeReads(drive.sectors, bpb, n, root, catalog, f);
      assert Stored(drive.sectors, bpb, n, f, catalog[f]);
    }
  }

  lemma FdsUpdate(ks: seq<KernelFile>, i: nat, k: KernelFile)
    requires i < |ks|
    ensures FdsOf(ks[i := k]) == FdsOf(ks)[i := FdOf(k)]
  {
  }

  /** Overwriting part of a region: nothing changes outside it, and it holds the spliced bytes. */
  lemma InsideOnly(m: seq<byte>, o: nat, size: nat, offset: nat, data: seq<byte>, m': seq<byte>)
    requires o + size <= |m| && offset + |data| <= size
    requires m' == m[..o + offset] + data + m[o + offset + |data|..]
    ensures SameOutside(m, m', o, o + size)
    ensures m'[o..o + size] == Splice(m[o..o + size], offset, data)
  {
    var a, b := m'[o..o + size], Splice(m[o..o + size], offset, data);
    forall i | 0 <= i < size ensures a[i] == b[i] { assert a[i] == m'[o + i]; }
  }

  lemma PrefixBound(d: seq<Sector>, e: seq<Sector>, lbas: seq<nat>, data: seq<byte>, k: nat)
    requires WrittenUpTo(d, e, lbas, data, k)
    ensures k <= |data|
  {
  }

  lemma BorrowPlace(base: nat, end: nat, s: HeapSpec.State, m: seq<byte>, p: nat, size: u32, t: HeapSpec.State,
                    cur: seq<byte>)
    requires Borrowed(base, end, s, m, p, size, t, cur)
    ensures base + HEADER <= p && p + size <= end && |cur| == end - base
  {
  }
}
