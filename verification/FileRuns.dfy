/** Sessions: any interleaving of file system calls on the real table, drive and heap. */
module FileRuns {
  import opened Bytes
  import opened Fat32
  import opened FatDirectory
  import opened FileVolume
  import opened FileSpec
  import opened HeapList
  import opened HeapMemory
  import opened HeapBorrow
  import opened KernelFiles

  datatype Req =
    | Open(path: Option<seq<byte>>, flags: u64)
    | Read(fd: int, len: u64)
    | Write(fd: int, data: seq<byte>)
    | Close(fd: int)

  /** The specification's operation for a call, given the directory. */
  function OpOf(dir: seq<byte>, req: Req): (op: Op)
  {
    match req
    case Open(path, flags) => OpOpen(Lookup(dir, path), flags % 2 == 1)
    case Read(fd, len) => OpRead(fd, len)
    case Write(fd, data) => OpWrite(fd, data)
    case Close(fd) => OpClose(fd)
  }

  function OpsOf(dir: seq<byte>, reqs: seq<Req>): (ops: seq<Op>)
    ensures |ops| == |reqs|
  {
    if reqs == [] then [] else [OpOf(dir, reqs[0])] + OpsOf(dir, reqs[1..])
  }

  /** The listed files for which a buffer can be found. */
  ghost function Fitting(bs: seq<Block>, cat: Catalog): (r: set<FatFile>) { set f | f in cat && !NoRoom(bs, f.size) }

  /** The block list, the live payloads and the directory are as they were. */
  twostate predicate Intact(t: FileTable)
    requires old(t.Mounted()) && t.Mounted()
    reads t.heap, t.heap.mem, t.drive
  {
    && t.heap.blocks == old(t.heap.blocks)
    && UsedKept(old(t.heap.mem[..]), t.heap.mem[..], t.heap.base, UsedSet(t.heap.blocks), -1)
    && t.Directory() == old(t.Directory())
  }

  lemma OpenIsListed(t: FileTable, req: Req)
    requires t.Mounted()
    ensures Listed(t.View(), OpOf(t.Directory(), req))
  {
  }

  /** One call on a working drive: answer, files and cursors as specified, the heap and the directory as they were. */
  method Perform(t: FileTable, req: Req) returns (r: int, data: seq<byte>)
    requires t.Valid() && t.drive.Working()
    modifies t.heap`hint, t.heap`totalAlloc, t.heap`totalFreed, t.heap`blocks, t.heap.mem, t.drive`clock,
             t.drive`sectors, t.files
    ensures t.Valid() && Intact(t)
    ensures var op, room := OpOf(old(t.Directory()), req), Fitting(old(t.heap.blocks), t.catalog);
      && Wf(old(t.View())) && Listed(old(t.View()), op)
      && t.View() == Step(old(t.View()), room, op) && (r, data) == Outcome(old(t.View()), room, op)
  {
    hide HeapOk, Volume, Files, NoRoom, RootBytes, Lookup, UsedKept, UsedSet;
    t.ViewWf();
    OpenIsListed(t, req);
    NothingChanged(t.heap.mem[..], t.heap.base, UsedSet(t.heap.blocks));
    data := [];
    match req
    case Open(path, flags) => r := t.Open(path, flags);
    case Read(fd, len) => r, data := PerformRead(t, fd, len);
    case Write(fd, bytes) => r := PerformWrite(t, fd, bytes);
    case Close(fd) => r := t.Close(fd);
  }

  method PerformRead(t: FileTable, fd: int, len: u64) returns (r: int, data: seq<byte>)
    requires t.Valid() && t.drive.Working()
    modifies t.heap`hint, t.heap`totalAlloc, t.heap`totalFreed, t.heap`blocks, t.heap.mem, t.drive`clock, t.files
    ensures t.Valid() && Intact(t)
    ensures var op, room := OpRead(fd, len), Fitting(old(t.heap.blocks), t.catalog);
      Wf(old(t.View())) && t.View() == Step(old(t.View()), room, op) && (r, data) == Outcome(old(t.View()), room, op)
  {
    hide HeapOk, Volume, Files, NoRoom, RootBytes, UsedKept, UsedSet;
    ghost var s := t.View();
    var n := if t.Usable(fd) then Transfer(FdOf(t.files[fd]), len) else 0;
    var buf := new byte[n];
    r := t.Read(fd, buf, len);
    data := if r < 0 then [] else buf[..r];
  }

  method PerformWrite(t: FileTable, fd: int, bytes: seq<byte>) returns (r: int)
    requires t.Valid() && t.drive.Working()
    modifies t.heap`hint, t.heap`totalAlloc, t.heap`totalFreed, t.heap`blocks, t.heap.mem, t.drive`clock,
             t.drive`sectors, t.files
    ensures t.Valid() && Intact(t)
    ensures var op, room := OpWrite(fd, bytes), Fitting(old(t.heap.blocks), t.catalog);
      Wf(old(t.View())) && t.View() == Step(old(t.View()), room, op) && (r, []) == Outcome(old(t.View()), room, op)
  {
    hide HeapOk, Volume, Files, NoRoom, RootBytes, UsedKept, UsedSet;
    r := t.Write(fd, Some(bytes));
  }

  /**
   * Any session on a working drive: files, cursors, answers and bytes read are those of byte files with cursors, in
   * which a transfer on a file the heap cannot hold is refused; every live payload of the heap keeps its bytes.
   */
  method Execute(t: FileTable, reqs: seq<Req>) returns (rs: seq<(int, seq<byte>)>)
    requires t.Valid() && t.drive.Working()
    modifies t.heap`hint, t.heap`totalAlloc, t.heap`totalFreed, t.heap`blocks, t.heap.mem, t.drive`clock,
             t.drive`sectors, t.files
    ensures t.Valid() && Intact(t)
    ensures var ops, room := OpsOf(old(t.Directory()), reqs), Fitting(old(t.heap.blocks), t.catalog);
      && Wf(old(t.View())) && RunOk(old(t.View()), room, ops)
      && t.View() == Run(old(t.View()), room, ops) && rs == Outcomes(old(t.View()), room, ops)
    decreases |reqs|
  {
    hide HeapOk, Volume, Files, Fitting, RootBytes, Lookup, OpOf, Step, Outcome, UsedKept, UsedSet;
    t.ViewWf();
    NothingChanged(t.heap.mem[..], t.heap.base, UsedSet(t.heap.blocks));
    rs := [];
    if reqs != [] {
      ghost var s, op, room := t.View(), OpOf(t.Directory(), reqs[0]), Fitting(t.heap.blocks, t.catalog);
      ghost var m := t.heap.mem[..];
      var r, data := Perform(t, reqs[0]);
      ghost var m1 := t.heap.mem[..];
      StepWf(s, room, op);
      var rest := Execute(t, reqs[1..]);
      KeptThenAll(m, m1, t.heap.mem[..], t.heap.base, UsedSet(t.heap.blocks), -1);
      ghost var ops := OpsOf(old(t.Directory()), reqs);
      assert ops[0] == op && ops[1..] == OpsOf(old(t.Directory()), reqs[1..]);
      rs := [(r, data)] + rest;
    }
  }
}
