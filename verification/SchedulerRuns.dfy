/** Whole runs of system calls: bounded waiting, and every resumed process gets its own frame back. */
module SchedulerRuns {
  import opened Bytes
  import opened SchedulerSpec

  /** The table after a sequence of calls, or None once the kernel has halted. */
  function Run(t: Table, cs: seq<Call>): (r: Option<Table>)
    requires Inv(t)
    ensures r.Some? ==> Inv(r.value)
    decreases |cs|
  {
    if cs == [] then Some(t)
    else
      var r := Step(t, cs[0]);
      StepKeepsInv(t, cs[0]);
      if r.Halt? then None else Run(r.table, cs[1..])
  }

  /** Number of calls that ask for a switch before the run ends or halts. */
  function SwitchCount(t: Table, cs: seq<Call>): (n: nat)
    requires Inv(t)
    decreases |cs|
  {
    if cs == [] then 0
    else
      StepKeepsInv(t, cs[0]);
      (if Switches(t, cs[0]) then 1 else 0)
      + (if Step(t, cs[0]).Halt? then 0 else SwitchCount(Step(t, cs[0]).table, cs[1..]))
  }

  /** One call seen from a ready process p: it runs, or it is still ready and closer by any switch. */
  lemma StepSeenFrom(t: Table, c: Call, p: nat)
    requires Inv(t) && p < MAX && t.procs[p].status == Ready
    ensures var r := Step(t, c);
      && r.Resume?
      && (r.table.current == p ||
          (r.table.procs[p] == t.procs[p]
           && (if Switches(t, c) then Dist(r.table.current, p) < Dist(t.current, p) else r.table.current == t.current)))
  {
    StepKeepsInv(t, c);
    ServeEffect(t, c.request);
    ServeSwitches(t, c);
    var (u, _, switch) := Serve(t, c.request);
    assert c.request == Exit ==> switch;
    hide Serve, Dist, Switches;
    var s := SaveCurrent(u, c.rsp, c.userRsp);
    assert s.procs[p] == t.procs[p];
    if switch || c.request == Exit {
      PickIsNearest(s.procs, s.current, p);
      var q := NextReady(s.procs, s.current, 1);
      if q != p { DistShrinks(t.current, q, p); }
    }
  }

  /**
   * Bounded waiting: once a run has made as many switching calls as the circular distance from the
   * running process to a ready process p, some prefix of it, with no more switching calls than that
   * distance, has p running, whatever the other processes did meanwhile.
   */
  lemma {:induction false} BoundedWaiting(t: Table, cs: seq<Call>, p: nat) returns (k: nat)
    requires Inv(t) && p < MAX && t.procs[p].status == Ready
    requires SwitchCount(t, cs) >= Dist(t.current, p)
    ensures 0 < k <= |cs|
    ensures Run(t, cs[..k]).Some? && Run(t, cs[..k]).value.current == p
    ensures SwitchCount(t, cs[..k]) <= Dist(t.current, p)
    decreases |cs|
  {
    assert t.current != p;
    AroundDist(t.current, p);
    var c := cs[0];
    StepSeenFrom(t, c, p);
    var u := Step(t, c).table;
    StepKeepsInv(t, c);
    hide Step, Dist, Inv, Switches;
    if u.current == p {
      k := 1;
      assert cs[..1] == [c] && cs[..1][1..] == [];
    } else {
      var j := BoundedWaiting(u, cs[1..], p);
      k := j + 1;
      TakeTail(cs, j);
    }
  }

  lemma TakeTail(cs: seq<Call>, j: nat)
    requires j < |cs|
    ensures cs[..j + 1][0] == cs[0] && cs[..j + 1][1..] == cs[1..][..j]
  {
  }

  // ----- saved frames -----

  /** What happened to a slot: it was created with a pair, its process called with one, or was resumed with one. */
  datatype Event =
    | Created(pid: int, rsp: u64, userRsp: u64)
    | Called(pid: int, rsp: u64, userRsp: u64)
    | Resumed(pid: int, rsp: u64, userRsp: u64)

  /** The pair most recently recorded for pid, by its creation or by its own last call. */
  function LastPair(log: seq<Event>, pid: int): (r: (u64, u64))
  {
    if log == [] then (0, 0)
    else
      var e := log[|log| - 1];
      if !e.Resumed? && e.pid == pid then (e.rsp, e.userRsp) else LastPair(log[..|log| - 1], pid)
  }

  function Creation(t: Table, req: Request): (es: seq<Event>)
    requires Wf(t)
  {
    if (req.Create? || req.Thread?) && Serve(t, req).1 >= 0
    then [Created(Serve(t, req).1, StackTop(req.stack) - FRAME_BYTES, StackTop(req.stack))]
    else []
  }

  function Frame(t: Table, c: Call): (es: seq<Event>)
  {
    if c.request == Exit then [] else [Called(t.current, c.rsp, c.userRsp)]
  }

  function Resumption(r: Outcome): (es: seq<Event>)
  {
    if r.Halt? then [] else [Resumed(r.table.current, r.rsp, r.userRsp)]
  }

  /** Events of one call: the creation it makes, the caller's frame unless it exits, and the resumption. */
  function Events(t: Table, c: Call): (es: seq<Event>)
    requires Inv(t)
  {
    Creation(t, c.request) + Frame(t, c) + Resumption(Step(t, c))
  }

  function Log(t: Table, cs: seq<Call>): (log: seq<Event>)
    requires Inv(t)
    decreases |cs|
  {
    if cs == [] then []
    else
      StepKeepsInv(t, cs[0]);
      Events(t, cs[0]) + (if Step(t, cs[0]).Halt? then [] else Log(Step(t, cs[0]).table, cs[1..]))
  }

  /** Every resumption hands out the pair last recorded for that process. */
  ghost predicate Faithful(log: seq<Event>, from: nat)
  {
    forall k :: from <= k < |log| && log[k].Resumed? ==> (log[k].rsp, log[k].userRsp) == LastPair(log[..k], log[k].pid)
  }

  /** The table agrees with the log on every slot that can still be resumed. */
  ghost predicate Recorded(t: Table, log: seq<Event>)
    requires Wf(t)
  {
    forall i :: 0 <= i < MAX && t.procs[i].status == Ready ==>
      (t.procs[i].savedRsp, t.procs[i].savedUserRsp) == LastPair(log, i)
  }

  lemma LastPairPush(log: seq<Event>, e: Event, pid: int)
    ensures LastPair(log + [e], pid) == if !e.Resumed? && e.pid == pid then (e.rsp, e.userRsp) else LastPair(log, pid)
  {
  }

  lemma CreationRecorded(t: Table, req: Request, log: seq<Event>)
    requires Inv(t) && Recorded(t, log)
    ensures Recorded(Serve(t, req).0, log + Creation(t, req))
  {
    ServeEffect(t, req);
    var (u, pid, _) := Serve(t, req);
    var es := Creation(t, req);
    forall i | 0 <= i < MAX && u.procs[i].status == Ready
      ensures (u.procs[i].savedRsp, u.procs[i].savedUserRsp) == LastPair(log + es, i)
    {
      if es == [] { assert log + es == log; } else { LastPairPush(log, es[0], i); }
    }
  }

  lemma FrameRecorded(u: Table, c: Call, log: seq<Event>)
    requires Wf(u) && 0 <= u.current < MAX && Recorded(u, log)
    requires u.procs[u.current].status == if c.request == Exit then Dead else Running
    ensures Recorded(SaveCurrent(u, c.rsp, c.userRsp), log + Frame(u, c))
  {
    var s := SaveCurrent(u, c.rsp, c.userRsp);
    var es := Frame(u, c);
    forall i | 0 <= i < MAX && s.procs[i].status == Ready
      ensures (s.procs[i].savedRsp, s.procs[i].savedUserRsp) == LastPair(log + es, i)
    {
      if es == [] { assert log + es == log; } else { LastPairPush(log, es[0], i); }
    }
  }

  /** Entering a ready slot hands out its recorded pair and keeps the record of the others. */
  lemma EnterRecorded(s: Table, q: nat, log: seq<Event>)
    requires Wf(s) && q < MAX && s.procs[q].status == Ready && Recorded(s, log)
    ensures var r := Enter(s, q);
      (r.rsp, r.userRsp) == LastPair(log, q) && Recorded(r.table, log + Resumption(r))
  {
  }

  lemma StepEnters(t: Table, c: Call)
    requires Inv(t) && Step(t, c).Resume?
    ensures var s := SaveCurrent(Serve(t, c.request).0, c.rsp, c.userRsp);
      var q := Step(t, c).table.current;
      0 <= q < MAX && s.procs[q].status == Ready && Step(t, c) == Enter(s, q)
  {
  }

  lemma StepRecorded(t: Table, c: Call, log: seq<Event>)
    requires Inv(t) && Recorded(t, log)
    ensures Faithful(log + Events(t, c), |log|)
    ensures Step(t, c).Resume? ==> Recorded(Step(t, c).table, log + Events(t, c))
  {
    ServeEffect(t, c.request);
    StepKeepsInv(t, c);
    var u := Serve(t, c.request).0;
    var a := log + Creation(t, c.request);
    var b := a + Frame(t, c);
    CreationRecorded(t, c.request, log);
    FrameRecorded(u, c, a);
    var after := log + Events(t, c);
    var r := Step(t, c);
    assert after == b + Resumption(r);
    if r.Resume? {
      StepEnters(t, c);
      EnterRecorded(SaveCurrent(u, c.rsp, c.userRsp), r.table.current, b);
      assert after[..|b|] == b;
    }
    hide Step, Serve, SaveCurrent, LastPair, Recorded, Inv;
    forall k | |log| <= k < |after| && after[k].Resumed?
      ensures (after[k].rsp, after[k].userRsp) == LastPair(after[..k], after[k].pid)
    {
      assert k == |b|;
    }
  }

  lemma {:induction false} RunFaithful(t: Table, cs: seq<Call>, log: seq<Event>)
    requires Inv(t) && Recorded(t, log)
    ensures Faithful(log + Log(t, cs), |log|)
    decreases |cs|
  {
    if cs != [] {
      StepKeepsInv(t, cs[0]);
      StepRecorded(t, cs[0], log);
      var mid := log + Events(t, cs[0]);
      var r := Step(t, cs[0]);
      var tail := if r.Halt? then [] else Log(r.table, cs[1..]);
      if r.Resume? { RunFaithful(r.table, cs[1..], mid); }
      var all := log + Log(t, cs);
      assert all == mid + tail by { Regroup(log, Events(t, cs[0]), tail); }
      hide Log, Faithful, Events, Step, Recorded, Inv;
      FaithfulJoin(mid, all, |log|);
    }
  }

  lemma Regroup(a: seq<Event>, b: seq<Event>, c: seq<Event>)
    ensures a + (b + c) == a + b + c
  {
  }

  lemma FaithfulJoin(mid: seq<Event>, all: seq<Event>, from: nat)
    requires mid <= all && Faithful(mid, from) && Faithful(all, |mid|)
    ensures Faithful(all, from)
  {
    forall k | from <= k < |all| && all[k].Resumed?
      ensures (all[k].rsp, all[k].userRsp) == LastPair(all[..k], all[k].pid)
    {
      if k < |mid| { assert all[..k] == mid[..k] && all[k] == mid[k]; }
    }
  }

  /** From boot on, every process that is resumed gets exactly the pair of its own last call, or of its creation. */
  lemma EveryResumeIsFaithful(entry: u64, top: u64, cs: seq<Call>)
    ensures Faithful([Created(0, top, top)] + Log(Boot(entry, top), cs), 0)
  {
    var first := [Created(0, top, top)];
    RunFaithful(Boot(entry, top), cs, first);
    var all := first + Log(Boot(entry, top), cs);
    assert all[0] == first[0];
  }
}
