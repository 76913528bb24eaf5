/** The process table and the scheduling step of every system call, as functions on values. */
module SchedulerSpec {
  import opened Bytes

  const MAX: nat := 16

  const STACK_SIZE: nat := 0x4000

  const FRAME_BYTES: nat := 120

  datatype Status = Unused | Ready | Running | Dead

  datatype Process = Process(status: Status, entry: u64, savedRsp: u64, savedUserRsp: u64, stackBase: u64)

  datatype Table = Table(procs: seq<Process>, current: int)

  /** Address given by the kernel allocator, or 0: a whole stack fits above it. */
  type StackPtr = x: nat | x + 0x4000 < 0x1_0000_0000_0000_0000

  /** What a system call asks of the process manager; every other call is Other. */
  datatype Request = Create(entry: u64, stack: StackPtr) | Yield | Exit | Thread(entry: u64, stack: StackPtr) | Other

  /** A system call: the request and the pointer pair of the caller's saved frame. */
  datatype Call = Call(request: Request, rsp: u64, userRsp: u64)

  datatype Outcome = Resume(table: Table, rsp: u64, userRsp: u64) | Halt

  ghost predicate Wf(t: Table) { |t.procs| == MAX }

  predicate Available(p: Process) { p.status == Unused || p.status == Dead }

  /** First unused or dead slot from k on, or -1. */
  function FreeSlot(ps: seq<Process>, k: nat): (i: int)
    requires k <= |ps|
    ensures i == -1 || (k <= i < |ps| && Available(ps[i]) && forall j :: k <= j < i ==> !Available(ps[j]))
    ensures i == -1 ==> forall j :: k <= j < |ps| ==> !Available(ps[j])
    decreases |ps| - k
  {
    if k == |ps| then -1 else if Available(ps[k]) then k else FreeSlot(ps, k + 1)
  }

  /** First slot from k on that is ready or running, or -1. */
  function FirstRunnable(ps: seq<Process>, k: nat): (i: int)
    requires k <= |ps|
    ensures i == -1 || (k <= i < |ps| && (ps[i].status == Ready || ps[i].status == Running))
    ensures -1 <= i && forall j :: k <= j < (if i == -1 then |ps| else i) ==>
      ps[j].status != Ready && ps[j].status != Running
    decreases |ps| - k
  {
    if k == |ps| then -1
    else if ps[k].status == Ready || ps[k].status == Running then k
    else FirstRunnable(ps, k + 1)
  }

  /** Slot reached from cur after the given number of steps around the table. */
  function Around(cur: nat, step: nat): (i: nat)
    requires cur < MAX && 0 < step <= MAX
    ensures i < MAX
  {
    (cur + step) % MAX
  }

  /** First ready slot at the given distance from cur or further, at most once around; or -1. */
  function NextReady(ps: seq<Process>, cur: nat, step: nat): (i: int)
    requires |ps| == MAX && cur < MAX && 0 < step <= MAX + 1
    ensures i == -1 || (0 <= i < MAX && ps[i].status == Ready)
    decreases MAX + 1 - step
  {
    if step == MAX + 1 then -1
    else if ps[Around(cur, step)].status == Ready then Around(cur, step)
    else NextReady(ps, cur, step + 1)
  }

  function Pick(ps: seq<Process>, cur: int): (i: int)
    requires |ps| == MAX && cur < MAX
    ensures -1 <= i < MAX
  {
    if cur < 0 then FirstRunnable(ps, 0)
    else
      var i := NextReady(ps, cur, 1);
      if i >= 0 then i
      else if ps[cur].status == Running || ps[cur].status == Ready then cur
      else -1
  }

  // ----- operations -----

  function StackTop(stack: StackPtr): (r: u64) { (stack + STACK_SIZE) / 16 * 16 }

  /** The process as process_create_user sets it up: a zeroed frame below an aligned stack top. */
  function NewProcess(entry: u64, stack: StackPtr): (p: Process)
  {
    Process(Ready, entry, StackTop(stack) - FRAME_BYTES, StackTop(stack), stack)
  }

  function CreateUser(t: Table, entry: u64, stack: StackPtr): (r: (Table, int))
    requires Wf(t)
  {
    var slot := FreeSlot(t.procs, 0);
    if entry == 0 || slot < 0 || stack == 0 then (t, -1)
    else (t.(procs := t.procs[slot := NewProcess(entry, stack)]), slot)
  }

  function ExitCurrent(t: Table): (r: Table)
    requires Wf(t)
  {
    if t.current < 0 || t.current >= MAX then t
    else t.(procs := t.procs[t.current := t.procs[t.current].(status := Dead)])
  }

  /** The caller's frame is recorded unless the caller just exited. */
  function SaveCurrent(t: Table, rsp: u64, userRsp: u64): (r: Table)
    requires Wf(t) && 0 <= t.current < MAX
  {
    var p := t.procs[t.current];
    if p.status == Running || p.status == Ready
    then t.(procs := t.procs[t.current := p.(status := Ready, savedRsp := rsp, savedUserRsp := userRsp)])
    else t
  }

  function Enter(t: Table, pid: nat): (r: Outcome)
    requires Wf(t) && pid < MAX
  {
    var p := t.procs[pid];
    Resume(Table(t.procs[pid := p.(status := Running)], pid), p.savedRsp, p.savedUserRsp)
  }

  function Schedule(t: Table, rsp: u64, userRsp: u64, switch: bool): (r: Outcome)
    requires Wf(t)
  {
    if t.current < 0 || t.current >= MAX then Resume(t, rsp, userRsp)
    else
      var s := SaveCurrent(t, rsp, userRsp);
      if !switch && s.procs[s.current].status != Dead then Enter(s, s.current)
      else
        var next := Pick(s.procs, s.current);
        if next < 0 then Halt else Enter(s, next)
  }

  /** The table after the request itself, the pid it returns, and whether it asks for a switch. */
  function Serve(t: Table, req: Request): (r: (Table, int, bool))
    requires Wf(t)
  {
    match req
    case Create(entry, stack) => var (u, pid) := CreateUser(t, entry, stack); (u, pid, false)
    case Thread(entry, stack) => var (u, pid) := CreateUser(t, entry, stack); (u, pid, pid >= 0)
    case Yield => (t, 0, true)
    case Exit => (ExitCurrent(t), 0, true)
    case Other => (t, 0, false)
  }

  function Step(t: Table, c: Call): (r: Outcome)
    requires Wf(t)
  {
    var (u, _, switch) := Serve(t, c.request);
    Schedule(u, c.rsp, c.userRsp, switch)
  }

  /** The calls that give up the processor: yield, exit, and starting a thread when there is a slot for it. */
  predicate Switches(t: Table, c: Call)
    requires Wf(t)
  {
    match c.request
    case Yield => true
    case Exit => true
    case Thread(entry, stack) =>
      entry != 0 && stack != 0 && exists i :: 0 <= i < MAX && (t.procs[i].status == Unused || t.procs[i].status == Dead)
    case _ => false
  }

  lemma ServeSwitches(t: Table, c: Call)
    requires Wf(t)
    ensures Serve(t, c.request).2 == Switches(t, c)
  {
    if c.request.Thread? && FreeSlot(t.procs, 0) >= 0 {
      var i := FreeSlot(t.procs, 0);
      assert t.procs[i].status == Unused || t.procs[i].status == Dead;
    }
  }

  /** Every slot holds a process that is ready or running. */
  ghost predicate Full(t: Table)
    requires Wf(t)
  {
    forall i :: 0 <= i < 16 ==> t.procs[i].status == Ready || t.procs[i].status == Running
  }

  /**
   * Creation fails exactly without an entry point, a stack or a free slot. Otherwise the lowest unused or dead slot
   * becomes a ready process whose saved frame of 120 bytes lies in its stack, below a 16-aligned top at most 15 bytes
   * under the end. No other slot changes.
   */
  lemma CreateExact(t: Table, entry: u64, stack: StackPtr)
    requires Wf(t)
    ensures var (u, pid) := CreateUser(t, entry, stack);
      && u.current == t.current && Wf(u)
      && (pid == -1 <==> entry == 0 || stack == 0 || Full(t))
      && (pid == -1 ==> u == t)
      && (pid != -1 ==>
            && 0 <= pid < MAX && (t.procs[pid].status == Unused || t.procs[pid].status == Dead)
            && (forall i :: 0 <= i < pid ==> t.procs[i].status == Ready || t.procs[i].status == Running)
            && (forall i :: 0 <= i < MAX && i != pid ==> u.procs[i] == t.procs[i])
            && var p := u.procs[pid];
               && p.status == Ready && p.entry == entry && p.stackBase == stack
               && p.savedRsp + 120 == p.savedUserRsp && p.savedUserRsp % 16 == 0
               && stack < p.savedRsp && stack + 0x4000 - 16 < p.savedUserRsp <= stack + 0x4000)
  {
    StackTopIn(stack);
    hide StackTop;
  }

  lemma StackTopIn(stack: StackPtr)
    ensures stack + 0x4000 - 16 < StackTop(stack) <= stack + 0x4000 && StackTop(stack) % 16 == 0
  {
    var x := stack + 0x4000;
    var q, r := x / 16, x % 16;
    assert x == 16 * q + r && StackTop(stack) == 16 * q;
    hide StackTop;
    DivMod(16 * q, 16, q, 0);
  }

  // ----- invariant -----

  /** Exactly one process runs, and it is the current one. */
  ghost predicate Inv(t: Table)
  {
    && Wf(t) && 0 <= t.current < MAX
    && forall i :: 0 <= i < MAX ==> (t.procs[i].status == Running <==> i == t.current)
  }

  /** The table right after boot registration. */
  function Boot(entry: u64, top: u64): (t: Table)
    ensures Inv(t)
  {
    var empty := Process(Unused, 0, 0, 0, 0);
    Table(seq(MAX, i => if i == 0 then Process(Running, entry, top, top, 0) else empty), 0)
  }

  lemma ServeEffect(t: Table, req: Request)
    requires Inv(t)
    ensures var (u, pid, _) := Serve(t, req);
      && Wf(u) && u.current == t.current
      && (forall i :: 0 <= i < MAX && i != t.current ==> u.procs[i].status != Running)
      && u.procs[t.current].status == (if req == Exit then Dead else Running)
      && (forall i :: 0 <= i < MAX && t.procs[i].status == Ready ==> u.procs[i] == t.procs[i])
      && (forall i :: 0 <= i < MAX && u.procs[i].status == Ready ==>
            || t.procs[i].status == Ready
            || ((req.Create? || req.Thread?) && i == pid && u.procs[i] == NewProcess(req.entry, req.stack)))
  {
  }

  /** Every system call keeps the invariant, unless nothing is left to run and the kernel halts. */
  lemma StepKeepsInv(t: Table, c: Call)
    requires Inv(t)
    ensures Step(t, c).Resume? ==> Inv(Step(t, c).table)
    ensures Step(t, c).Halt? <==> c.request == Exit && forall i :: 0 <= i < MAX ==> t.procs[i].status != Ready
  {
    ServeEffect(t, c.request);
    var (u, _, switch) := Serve(t, c.request);
    hide Serve;
    var s := SaveCurrent(u, c.rsp, c.userRsp);
    hide NextReady;
    if c.request == Exit {
      assert s == u;
      NoneReady(s.procs, s.current);
    }
  }

  /** A call that does not switch resumes its caller. */
  lemma NoSwitchStays(t: Table, c: Call)
    requires Inv(t) && !Switches(t, c)
    ensures Step(t, c).Resume? && Step(t, c).table.current == t.current
    ensures Step(t, c).rsp == c.rsp && Step(t, c).userRsp == c.userRsp
  {
    ServeSwitches(t, c);
    ServeEffect(t, c.request);
    hide Serve, Switches;
  }

  // ----- round robin -----

  /** Distance from slot a forward to slot b, going around the table. */
  function Dist(a: int, b: int): (d: nat)
    ensures d < MAX
  {
    (b - a) % MAX
  }

  lemma {:induction false} NextReadyFirst(ps: seq<Process>, cur: nat, step: nat)
    requires |ps| == MAX && cur < MAX && 0 < step <= MAX + 1
    ensures var i := NextReady(ps, cur, step);
      if i < 0 then forall d :: step <= d <= MAX ==> ps[Around(cur, d)].status != Ready
      else exists d ::
        && step <= d <= MAX && i == Around(cur, d)
        && forall e :: step <= e < d ==> ps[Around(cur, e)].status != Ready
    decreases MAX + 1 - step
  {
    if step <= MAX && ps[Around(cur, step)].status != Ready {
      NextReadyFirst(ps, cur, step + 1);
    }
  }

  lemma NoneReady(ps: seq<Process>, cur: nat)
    requires |ps| == MAX && cur < MAX
    ensures NextReady(ps, cur, 1) < 0 <==> forall i :: 0 <= i < MAX ==> ps[i].status != Ready
  {
    NextReadyFirst(ps, cur, 1);
    hide NextReady;
    if NextReady(ps, cur, 1) < 0 {
      forall i | 0 <= i < MAX ensures ps[i].status != Ready { AroundBack(cur, i); }
    }
  }

  lemma AroundBack(cur: nat, i: nat)
    requires cur < MAX && i < MAX
    ensures Around(cur, if i > cur then i - cur else i - cur + MAX) == i
  {
  }

  lemma AroundDist(cur: nat, p: nat)
    requires cur < MAX && p < MAX && p != cur
    ensures 0 < Dist(cur, p) && Around(cur, Dist(cur, p)) == p
  {
  }

  lemma DistAround(cur: nat, e: nat)
    requires cur < MAX && 0 < e < MAX
    ensures Dist(cur, Around(cur, e)) == e && Around(cur, e) != cur
  {
  }

  /** The scan never passes over a ready process: its choice is no further away than any ready slot. */
  lemma PickIsNearest(ps: seq<Process>, cur: nat, p: nat)
    requires |ps| == MAX && cur < MAX && p < MAX && p != cur && ps[p].status == Ready
    ensures var i := NextReady(ps, cur, 1); i >= 0 && i != cur && Dist(cur, i) <= Dist(cur, p)
  {
    hide Around, Dist, NextReady;
    NextReadyFirst(ps, cur, 1);
    AroundDist(cur, p);
    var i := NextReady(ps, cur, 1);
    var e :| 1 <= e <= MAX && i == Around(cur, e) && forall f :: 1 <= f < e ==> ps[Around(cur, f)].status != Ready;
    DistAround(cur, e);
  }

  /** Yield and exit hand the processor to the nearest ready process, going around the table from the caller. */
  lemma SwitchRunsNearest(t: Table, c: Call, p: nat)
    requires Inv(t) && (c.request == Yield || c.request == Exit) && p < MAX && t.procs[p].status == Ready
    ensures Step(t, c).Resume?
    ensures var q := Step(t, c).table.current;
      && 0 <= q < MAX && q != t.current && t.procs[q].status == Ready && Dist(t.current, q) <= Dist(t.current, p)
      && Step(t, c).rsp == t.procs[q].savedRsp && Step(t, c).userRsp == t.procs[q].savedUserRsp
  {
    ServeSwitches(t, c);
    var s := SaveCurrent(Serve(t, c.request).0, c.rsp, c.userRsp);
    assert forall i :: 0 <= i < MAX && i != t.current ==> s.procs[i] == t.procs[i];
    assert p != t.current;
    PickIsNearest(s.procs, s.current, p);
    hide NextReady, Dist;
  }

  /** A yield with no other process ready, and nothing else, comes straight back. */
  lemma YieldAlone(t: Table, c: Call)
    requires Inv(t) && c.request == Yield && forall i :: 0 <= i < MAX ==> t.procs[i].status != Ready
    ensures Step(t, c).Resume? && Step(t, c).table.current == t.current
    ensures Step(t, c).rsp == c.rsp && Step(t, c).userRsp == c.userRsp
  {
    var s := SaveCurrent(t, c.rsp, c.userRsp);
    NextReadyFirst(s.procs, s.current, 1);
    var q := NextReady(s.procs, s.current, 1);
    hide NextReady;
    assert forall i :: 0 <= i < MAX && s.procs[i].status == Ready ==> i == t.current;
  }

  /** A thread that is started gets its turn with the other ready processes: the nearest one runs. */
  lemma ThreadRunsNearest(t: Table, c: Call, p: nat)
    requires Inv(t) && c.request.Thread? && Switches(t, c)
    requires p < MAX && Serve(t, c.request).0.procs[p].status == Ready
    ensures Step(t, c).Resume?
    ensures var q := Step(t, c).table.current;
      && 0 <= q < MAX && q != t.current && Serve(t, c.request).0.procs[q].status == Ready
      && Dist(t.current, q) <= Dist(t.current, p)
  {
    ServeSwitches(t, c);
    ServeEffect(t, c.request);
    var u := Serve(t, c.request).0;
    hide Serve, Switches;
    var s := SaveCurrent(u, c.rsp, c.userRsp);
    assert p != t.current;
    PickIsNearest(s.procs, s.current, p);
    hide NextReady, Dist;
  }

  /** Walking on from the chosen slot: the rest of the way to p is what is left of the distance. */
  lemma DistShrinks(a: nat, b: nat, p: nat)
    requires a < MAX && b < MAX && p < MAX && b != a && b != p && Dist(a, b) <= Dist(a, p)
    ensures Dist(b, p) < Dist(a, p)
  {
  }
}
