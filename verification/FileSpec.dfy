/** The descriptor layer as fixed-size byte files with one cursor per descriptor. */
module FileSpec {
  import opened Bytes
  import opened Fat32
  import opened FatData

  const MAX_FD: nat := 16

  datatype Fd = Closed | Open(file: FatFile, writable: bool, offset: nat)

  /** The bytes of every file of the volume, and the descriptor table. */
  datatype Fs = Fs(files: map<FatFile, seq<byte>>, fds: seq<Fd>)

  ghost predicate FdOk(files: map<FatFile, seq<byte>>, fd: Fd)
  {
    fd.Open? ==> fd.file in files && |files[fd.file]| == fd.file.size && fd.offset <= fd.file.size
  }

  /** Sizes are those of the directory and no cursor is past the end of its file. */
  ghost predicate Wf(s: Fs)
  {
    && |s.fds| == MAX_FD
    && (forall f :: f in s.files ==> |s.files[f]| == f.size)
    && (forall i :: 0 <= i < MAX_FD ==> FdOk(s.files, s.fds[i]))
  }

  predicate IsOpen(s: Fs, fd: int) { 0 <= fd < |s.fds| && s.fds[fd].Open? }

  function FreeFd(fds: seq<Fd>, k: nat): (i: int)
    requires k <= |fds|
    ensures i == -1 || (k <= i < |fds| && fds[i].Closed? && forall j :: k <= j < i ==> fds[j].Open?)
    ensures i == -1 ==> forall j :: k <= j < |fds| ==> fds[j].Open?
    decreases |fds| - k
  {
    if k == |fds| then -1 else if fds[k].Closed? then k else FreeFd(fds, k + 1)
  }

  function OpenFile(s: Fs, found: Option<FatFile>, writable: bool): (r: (Fs, int))
  {
    var i := FreeFd(s.fds, 0);
    if found.None? || i < 0 then (s, -1) else (s.(fds := s.fds[i := Open(found.value, writable, 0)]), i)
  }

  /** How many bytes a transfer of len bytes moves at the cursor. */
  function Transfer(fd: Fd, len: nat): nat
    requires fd.Open?
  {
    if fd.offset >= fd.file.size then 0 else Min(len, fd.file.size - fd.offset)
  }

  function Advance(s: Fs, fd: nat, n: nat): (r: Fs)
    requires fd < |s.fds| && s.fds[fd].Open?
  {
    s.(fds := s.fds[fd := s.fds[fd].(offset := s.fds[fd].offset + n)])
  }

  function ReadFd(s: Fs, fd: int, len: nat): (r: (Fs, int, seq<byte>))
    requires Wf(s)
  {
    if !IsOpen(s, fd) then (s, -1, [])
    else
      var d := s.fds[fd];
      var n := Transfer(d, len);
      (Advance(s, fd, n), n, s.files[d.file][d.offset..d.offset + n])
  }

  function Splice(a: seq<byte>, at: nat, data: seq<byte>): (r: seq<byte>)
    requires at + |data| <= |a|
    ensures |r| == |a|
  {
    a[..at] + data + a[at + |data|..]
  }

  function WriteFd(s: Fs, fd: int, data: seq<byte>): (r: (Fs, int))
    requires Wf(s)
  {
    if !IsOpen(s, fd) || !s.fds[fd].writable then (s, -1)
    else
      var d := s.fds[fd];
      var n: int := Transfer(d, |data|);
      (Advance(s.(files := s.files[d.file := Splice(s.files[d.file], d.offset, data[..n])]), fd, n), n)
  }

  function CloseFd(s: Fs, fd: int): (r: (Fs, int))
  {
    if !IsOpen(s, fd) then (s, -1) else (s.(fds := s.fds[fd := Closed]), 0)
  }

  /** A transfer of no bytes changes nothing. */
  lemma NoTransfer(s: Fs, fd: nat, len: nat)
    requires Wf(s) && fd < MAX_FD && s.fds[fd].Open? && Transfer(s.fds[fd], len) == 0
    ensures ReadFd(s, fd, len) == (s, 0, [])
    ensures forall data: seq<byte> :: s.fds[fd].writable && |data| == len ==> WriteFd(s, fd, data) == (s, 0)
  {
    var f := s.fds[fd].file;
    assert s.fds[fd := s.fds[fd]] == s.fds && Advance(s, fd, 0) == s;
    assert s.files[f][s.fds[fd].offset..s.fds[fd].offset] == [];
    assert s.files[f := s.files[f]] == s.files;
    forall data: seq<byte> | s.fds[fd].writable && |data| == len ensures WriteFd(s, fd, data) == (s, 0) {
      assert Splice(s.files[f], s.fds[fd].offset, data[..0]) == s.files[f];
    }
  }

  // ----- what each call does, by fields -----

  /** Every other descriptor is as it was. */
  ghost predicate OthersStay(s: Fs, t: Fs, fd: nat)
  {
    |t.fds| == |s.fds| && forall i :: 0 <= i < |s.fds| && i != fd ==> t.fds[i] == s.fds[i]
  }

  /**
   * Opening fails exactly when the name is not listed or every descriptor is open. Otherwise the lowest closed
   * descriptor is on the listed file, at its first byte, with the permission asked for.
   */
  lemma OpenEffect(s: Fs, found: Option<FatFile>, writable: bool)
    ensures var (t, fd) := OpenFile(s, found, writable);
      && t.files == s.files
      && (fd == -1 <==> found.None? || forall i :: 0 <= i < |s.fds| ==> s.fds[i].Open?)
      && (fd == -1 ==> t == s)
      && (fd != -1 ==>
            && 0 <= fd < |s.fds| && s.fds[fd].Closed? && (forall i :: 0 <= i < fd ==> s.fds[i].Open?)
            && OthersStay(s, t, fd) && t.fds[fd].Open? && t.fds[fd].file == found.value
            && t.fds[fd].offset == 0 && t.fds[fd].writable == writable)
  {
  }

  lemma CloseEffect(s: Fs, fd: int)
    ensures var (t, r) := CloseFd(s, fd);
      && t.files == s.files
      && (r == 0 <==> 0 <= fd < |s.fds| && s.fds[fd].Open?)
      && (r == 0 ==> OthersStay(s, t, fd) && t.fds[fd].Closed?)
      && (r != 0 ==> r == -1 && t == s)
  {
  }

  /** As many of len bytes as are left from the cursor to the end of the file. */
  function Left(fd: Fd, len: nat): (n: int)
    requires fd.Open?
  {
    if fd.offset + len <= fd.file.size then len else fd.file.size - fd.offset
  }

  /** A read delivers the bytes at the cursor, as many as asked for or left, and moves the cursor past them. */
  lemma ReadEffect(s: Fs, fd: int, len: nat)
    requires Wf(s)
    ensures var (t, r, data) := ReadFd(s, fd, len);
      && t.files == s.files
      && (r == -1 <==> !(0 <= fd < 16 && s.fds[fd].Open?))
      && (r == -1 ==> t == s && data == [])
      && (r != -1 ==>
            && r == |data| == Left(s.fds[fd], len) && OthersStay(s, t, fd)
            && t.fds[fd] == s.fds[fd].(offset := s.fds[fd].offset + r)
            && forall k :: 0 <= k < r ==> data[k] == s.files[s.fds[fd].file][s.fds[fd].offset + k])
  {
  }

  /** A write puts its bytes at the cursor, all of them or as many as fit, and changes no other byte of any file. */
  lemma WriteEffect(s: Fs, fd: int, data: seq<byte>)
    requires Wf(s)
    ensures var (t, r) := WriteFd(s, fd, data);
      && t.files.Keys == s.files.Keys
      && (r == -1 <==> !(0 <= fd < 16 && s.fds[fd].Open? && s.fds[fd].writable))
      && (r == -1 ==> t == s)
      && (r != -1 ==>
            && r == Left(s.fds[fd], |data|) && OthersStay(s, t, fd)
            && t.fds[fd] == s.fds[fd].(offset := s.fds[fd].offset + r)
            && (forall f :: f in s.files && f != s.fds[fd].file ==> t.files[f] == s.files[f])
            && var (was, now, at) := (s.files[s.fds[fd].file], t.files[s.fds[fd].file], s.fds[fd].offset);
               && |now| == |was|
               && forall k :: 0 <= k < |was| ==> now[k] == if at <= k < at + r then data[k - at] else was[k])
  {
  }

  // ----- runs -----

  datatype Op =
    | OpOpen(found: Option<FatFile>, writable: bool)
    | OpRead(fd: int, len: nat)
    | OpWrite(fd: int, data: seq<byte>)
    | OpClose(fd: int)

  /** An open names a file the directory lists. */
  predicate Listed(s: Fs, op: Op) { op.OpOpen? && op.found.Some? ==> op.found.value in s.files }

  /** A transfer of at least one byte needs a buffer for the whole file; room is the set of files the heap can hold. */
  predicate Refused(s: Fs, room: set<FatFile>, op: Op)
  {
    match op
    case OpRead(fd, len) => IsOpen(s, fd) && Transfer(s.fds[fd], len) > 0 && s.fds[fd].file !in room
    case OpWrite(fd, data) =>
      && IsOpen(s, fd) && s.fds[fd].writable && Transfer(s.fds[fd], |data|) > 0 && s.fds[fd].file !in room
    case _ => false
  }

  function Step(s: Fs, room: set<FatFile>, op: Op): (r: Fs)
    requires Wf(s)
  {
    if Refused(s, room, op) then s
    else match op
      case OpOpen(found, writable) => OpenFile(s, found, writable).0
      case OpRead(fd, len) => ReadFd(s, fd, len).0
      case OpWrite(fd, data) => WriteFd(s, fd, data).0
      case OpClose(fd) => CloseFd(s, fd).0
  }

  /** What the caller gets: the result, and the bytes a read delivers. */
  function Outcome(s: Fs, room: set<FatFile>, op: Op): (r: (int, seq<byte>))
    requires Wf(s)
  {
    if Refused(s, room, op) then (-1, [])
    else match op
      case OpOpen(found, writable) => (OpenFile(s, found, writable).1, [])
      case OpRead(fd, len) => (ReadFd(s, fd, len).1, ReadFd(s, fd, len).2)
      case OpWrite(fd, data) => (WriteFd(s, fd, data).1, [])
      case OpClose(fd) => (CloseFd(s, fd).1, [])
  }

  /** A read or write of no bytes, or at the end of the file, is never refused for lack of room, any other one is. */
  lemma RefusedExactly(s: Fs, room: set<FatFile>, op: Op)
    requires Wf(s)
    ensures op.OpRead? ==>
      (Outcome(s, room, op).0 == -1 <==>
         || !IsOpen(s, op.fd)
         || (op.len > 0 && s.fds[op.fd].offset < s.fds[op.fd].file.size && s.fds[op.fd].file !in room))
    ensures op.OpWrite? ==>
      (Outcome(s, room, op).0 == -1 <==>
         || !IsOpen(s, op.fd) || !s.fds[op.fd].writable
         || (op.data != [] && s.fds[op.fd].offset < s.fds[op.fd].file.size && s.fds[op.fd].file !in room))
    ensures (op.OpRead? || op.OpWrite?) && Outcome(s, room, op).0 == -1 ==> Step(s, room, op) == s
  {
  }

  /** Every operation keeps sizes, the set of files, and every cursor inside its file. */
  lemma StepWf(s: Fs, room: set<FatFile>, op: Op)
    requires Wf(s) && Listed(s, op)
    ensures Wf(Step(s, room, op)) && Step(s, room, op).files.Keys == s.files.Keys
  {
  }

  /** The operation changes no byte of file f. */
  predicate Spares(s: Fs, op: Op, f: FatFile)
  {
    op.OpWrite? && IsOpen(s, op.fd) && s.fds[op.fd].writable ==> s.fds[op.fd].file != f
  }

  /** Files written through one descriptor do not change others; only a write changes any. */
  lemma StepSpares(s: Fs, room: set<FatFile>, op: Op, f: FatFile)
    requires Wf(s) && f in s.files && Spares(s, op, f)
    ensures Step(s, room, op).files[f] == s.files[f]
  {
  }

  ghost predicate RunOk(s: Fs, room: set<FatFile>, ops: seq<Op>)
    requires Wf(s)
    decreases |ops|
  {
    ops == [] || (Listed(s, ops[0]) && (StepWf(s, room, ops[0]); RunOk(Step(s, room, ops[0]), room, ops[1..])))
  }

  function Run(s: Fs, room: set<FatFile>, ops: seq<Op>): (r: Fs)
    requires Wf(s) && RunOk(s, room, ops)
    ensures Wf(r) && r.files.Keys == s.files.Keys
    decreases |ops|
  {
    if ops == [] then s else StepWf(s, room, ops[0]); Run(Step(s, room, ops[0]), room, ops[1..])
  }

  function Outcomes(s: Fs, room: set<FatFile>, ops: seq<Op>): (r: seq<(int, seq<byte>)>)
    requires Wf(s) && RunOk(s, room, ops)
    decreases |ops|
  {
    if ops == [] then []
    else StepWf(s, room, ops[0]); [Outcome(s, room, ops[0])] + Outcomes(Step(s, room, ops[0]), room, ops[1..])
  }

  /** The bytes that descriptor fd reads in a run, in order. */
  function Reads(s: Fs, room: set<FatFile>, ops: seq<Op>, fd: int): (data: seq<byte>)
    requires Wf(s) && RunOk(s, room, ops)
    decreases |ops|
  {
    if ops == [] then []
    else
      StepWf(s, room, ops[0]);
      (if ops[0].OpRead? && ops[0].fd == fd then Outcome(s, room, ops[0]).1 else [])
      + Reads(Step(s, room, ops[0]), room, ops[1..], fd)
  }

  /** Nobody writes file f, and fd is neither closed nor written through, at any point of the run. */
  ghost predicate Undisturbed(s: Fs, room: set<FatFile>, ops: seq<Op>, fd: nat, f: FatFile)
    requires Wf(s) && RunOk(s, room, ops)
    decreases |ops|
  {
    ops == [] ||
    (&& Spares(s, ops[0], f) && ops[0] != OpClose(fd) && !(ops[0].OpWrite? && ops[0].fd == fd)
     && (StepWf(s, room, ops[0]); Undisturbed(Step(s, room, ops[0]), room, ops[1..], fd, f)))
  }

  /**
   * However the reads of a descriptor are cut into pieces, and whatever the other descriptors do
   * meanwhile, together they return the file's bytes from the old cursor to the new one.
   */
  lemma {:induction false} ChunkedReads(s: Fs, room: set<FatFile>, ops: seq<Op>, fd: nat)
    requires Wf(s) && RunOk(s, room, ops) && fd < MAX_FD && s.fds[fd].Open?
    requires Undisturbed(s, room, ops, fd, s.fds[fd].file)
    ensures var d, e := s.fds[fd], Run(s, room, ops).fds[fd];
      && e.Open? && e.file == d.file && d.offset <= e.offset <= d.file.size
      && Reads(s, room, ops, fd) == s.files[d.file][d.offset..e.offset]
    decreases |ops|
  {
    if ops != [] {
      var op := ops[0];
      StepWf(s, room, op);
      var t, f := Step(s, room, op), s.fds[fd].file;
      StepSpares(s, room, op, f);
      StepCursor(s, room, op, fd);
      assert Run(s, room, ops) == Run(t, room, ops[1..]);
      var now := if op.OpRead? && op.fd == fd then Outcome(s, room, op).1 else [];
      assert Reads(s, room, ops, fd) == now + Reads(t, room, ops[1..], fd);
      hide Step, Outcome;
      ChunkedReads(t, room, ops[1..], fd);
      hide *;
      SlicesJoin(s.files[f], s.fds[fd].offset, t.fds[fd].offset, Run(s, room, ops).fds[fd].offset);
    }
  }

  lemma SlicesJoin(x: seq<byte>, a: nat, m: nat, z: nat)
    requires a <= m <= z <= |x|
    ensures x[a..m] + x[m..z] == x[a..z]
  {
  }

  /**
   * Opening a file and reading it in pieces of any lengths, while others do as they like but do not write it, gives its
   * bytes from the first on; once a read finds nothing more, that is the whole file.
   */
  lemma OpenThenRead(s: Fs, room: set<FatFile>, f: FatFile, writable: bool, ops: seq<Op>, len: nat)
    requires Wf(s) && f in s.files && OpenFile(s, Some(f), writable).1 >= 0
    requires var (t, fd) := OpenFile(s, Some(f), writable);
      Wf(t) && RunOk(t, room, ops) && Undisturbed(t, room, ops, fd, f)
    ensures var (t, fd) := OpenFile(s, Some(f), writable);
      var (data, u) := (Reads(t, room, ops, fd), Run(t, room, ops));
      && |data| <= f.size && data == s.files[f][..|data|]
      && (len > 0 && ReadFd(u, fd, len).1 == 0 ==> data == s.files[f])
  {
    OpenEffect(s, Some(f), writable);
    var (t, fd) := OpenFile(s, Some(f), writable);
    hide OpenFile, Step, Outcome, Run, Reads;
    ChunkedReads(t, room, ops, fd);
    ReadEffect(Run(t, room, ops), fd, len);
    hide ReadFd;
    assert s.files[f][0..f.size] == s.files[f];
  }

  /** What one operation does to a descriptor that it does not close or write through. */
  lemma StepCursor(s: Fs, room: set<FatFile>, op: Op, fd: nat)
    requires Wf(s) && fd < MAX_FD && s.fds[fd].Open?
    requires op != OpClose(fd) && !(op.OpWrite? && op.fd == fd)
    ensures var d, e := s.fds[fd], Step(s, room, op).fds[fd];
      && e.Open? && e.file == d.file && d.offset <= e.offset <= d.file.size
      && (if op.OpRead? && op.fd == fd
          then Outcome(s, room, op).1 == s.files[d.file][d.offset..e.offset]
          else e.offset == d.offset)
  {
  }

  /**
   * A write is seen through every descriptor of the same file, the writing one included: whatever it reads next,
   * from its cursor and of any length, is that part of the file with the new bytes spliced in.
   */
  lemma WritesAreShared(s: Fs, fd: nat, data: seq<byte>, other: nat, len: nat)
    requires Wf(s) && fd < MAX_FD && other < MAX_FD
    requires s.fds[fd].Open? && s.fds[fd].writable && s.fds[other].Open? && s.fds[other].file == s.fds[fd].file
    ensures Wf(WriteFd(s, fd, data).0)
    ensures var d, t, n := s.fds[fd], WriteFd(s, fd, data).0, Transfer(s.fds[fd], |data|);
      var e := t.fds[other];
      && e.Open? && e.file == d.file && e.offset == s.fds[other].offset + (if other == fd then n else 0)
      && ReadFd(t, other, len).2 == Splice(s.files[d.file], d.offset, data[..n])[e.offset..e.offset + Transfer(e, len)]
  {
    StepWf(s, {s.fds[fd].file}, OpWrite(fd, data));
  }

  // ----- 8.3 names -----

  const DOT: byte := 46
  const SPACE: byte := 32

  function Upper(c: byte): byte { if 97 <= c <= 122 then c - 32 else c }

  function UpperAll(s: seq<byte>): (r: seq<byte>)
    ensures |r| == |s|
  {
    if s == [] then [] else [Upper(s[0])] + UpperAll(s[1..])
  }

  function Padded(s: seq<byte>, n: nat): (r: seq<byte>)
    requires |s| <= n
    ensures |r| == n
  {
    s + seq(n - |s|, i => SPACE)
  }

  /** Index of the first dot, or the length. */
  function FirstDot(s: seq<byte>): (i: nat)
    ensures i <= |s| && DOT !in s[..i] && (i < |s| ==> s[i] == DOT)
  {
    if s == [] || s[0] == DOT then 0
    else
      var i := FirstDot(s[1..]);
      assert s[..i + 1] == [s[0]] + s[1..][..i];
      i + 1
  }

  lemma {:induction false} UpperAllAt(s: seq<byte>, k: nat)
    requires k < |s|
    ensures UpperAll(s)[k] == if 97 <= s[k] <= 122 then s[k] - 32 else s[k]
  {
    if k > 0 { UpperAllAt(s[1..], k - 1); }
  }

  lemma {:induction false} FirstDotIs(base: seq<byte>, rest: seq<byte>)
    requires 46 !in base && (rest == [] || rest[0] == 46)
    ensures FirstDot(base + rest) == |base|
  {
    if base == [] {
      assert base + rest == rest;
    } else {
      assert (base + rest)[1..] == base[1..] + rest;
      FirstDotIs(base[1..], rest);
    }
  }

  /** Character k of a padded name: the base's or the extension's letter in upper case, or a space. */
  function NameChar(base: seq<byte>, ext: seq<byte>, k: nat): (c: byte)
  {
    var c := if k < 8 && k < |base| then base[k] else if k >= 8 && k - 8 < |ext| then ext[k - 8] else 32;
    if 97 <= c <= 122 then c - 32 else c
  }

  /**
   * A name of a base and, after a dot, an extension is accepted exactly when the base has one to eight characters and
   * the extension, without a further dot, at most three; the result is both in upper case, padded with spaces.
   */
  lemma Fat83Exact(base: seq<byte>, dot: bool, ext: seq<byte>)
    requires 46 !in base && (!dot ==> ext == [])
    ensures var r := Fat83(base + (if dot then [46] + ext else []));
      && (r.Some? <==> 1 <= |base| <= 8 && |ext| <= 3 && 46 !in ext)
      && (r.Some? ==> |r.value| == 11 && forall k :: 0 <= k < 11 ==> r.value[k] == NameChar(base, ext, k))
  {
    Fat83Is(base, dot, ext);
    hide Fat83;
    if 1 <= |base| <= 8 && |ext| <= 3 && 46 !in ext {
      forall k | 0 <= k < 11
        ensures (Padded(UpperAll(base), 8) + Padded(UpperAll(ext), 3))[k] == NameChar(base, ext, k)
      {
        PaddedAt(base, ext, k);
      }
    }
  }

  lemma Fat83Is(base: seq<byte>, dot: bool, ext: seq<byte>)
    requires 46 !in base && (!dot ==> ext == [])
    ensures Fat83(base + (if dot then [46] + ext else [])) == Joined(base, ext)
  {
    hide *;
    FirstDotIs(base, if dot then [46] + ext else []);
    PathParts(base, dot, ext);
    Fat83Parts(base + (if dot then [46] + ext else []), base, ext);
  }

  lemma Fat83Parts(path: seq<byte>, base: seq<byte>, ext: seq<byte>)
    requires FirstDot(path) == |base| <= |path| && path[..|base|] == base
    requires ext == if |base| < |path| then path[|base| + 1..] else []
    ensures Fat83(path) == Joined(base, ext)
  {
    hide FirstDot, Joined;
  }

  lemma PathParts(base: seq<byte>, dot: bool, ext: seq<byte>)
    ensures var path := base + (if dot then [46] + ext else []);
      && path[..|base|] == base && |path| == |base| + (if dot then 1 + |ext| else 0)
      && (dot ==> path[|base| + 1..] == ext)
  {
  }

  lemma PaddedAt(base: seq<byte>, ext: seq<byte>, k: nat)
    requires |base| <= 8 && |ext| <= 3 && k < 11
    ensures (Padded(UpperAll(base), 8) + Padded(UpperAll(ext), 3))[k] == NameChar(base, ext, k)
  {
    hide UpperAll, Padded;
    if k < 8 {
      PadAt(UpperAll(base), 8, k);
      if k < |base| { UpperAllAt(base, k); }
    } else {
      PadAt(UpperAll(ext), 3, k - 8);
      if k - 8 < |ext| { UpperAllAt(ext, k - 8); }
    }
  }

  lemma PadAt(s: seq<byte>, n: nat, k: nat)
    requires |s| <= n && k < n
    ensures Padded(s, n)[k] == if k < |s| then s[k] else 32
  {
  }

  /** An 8.3 name: one to eight characters, and after an optional single dot up to three more. */
  function Fat83(path: seq<byte>): (r: Option<seq<byte>>)
    ensures r.Some? ==> |r.value| == 11
  {
    var i := FirstDot(path);
    var ext := if i < |path| then path[i + 1..] else [];
    Joined(path[..i], ext)
  }

  function Joined(base: seq<byte>, ext: seq<byte>): (r: Option<seq<byte>>)
    ensures r.Some? ==> |r.value| == 11
  {
    if 1 <= |base| <= 8 && |ext| <= 3 && DOT !in ext then Some(Padded(UpperAll(base), 8) + Padded(UpperAll(ext), 3))
    else None
  }
}
