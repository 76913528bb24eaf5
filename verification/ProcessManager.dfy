/** The process table of ProcessManager_Create.c and the system-call dispatcher that drives it. */
module ProcessManager {
  import opened Bytes
  import opened SchedulerSpec
  import Spec = SchedulerSpec

  const SYSCALL_PROCESS_CREATE: nat := 3
  const SYSCALL_PROCESS_YIELD: nat := 4
  const SYSCALL_PROCESS_EXIT: nat := 5
  const SYSCALL_THREAD_CREATE: nat := 6
  const SYSCALL_USER_KMALLOC: nat := 24
  const SYSCALL_USER_KFREE: nat := 25

  /** The request a call number stands for; the allocator calls 24 and 25 never reach the scheduler. */
  function Decode(num: u64, arg1: u64, stack: StackPtr): (r: Request)
    requires num != SYSCALL_USER_KMALLOC && num != SYSCALL_USER_KFREE
  {
    if num == SYSCALL_PROCESS_CREATE then Create(arg1, stack)
    else if num == SYSCALL_PROCESS_YIELD then Yield
    else if num == SYSCALL_PROCESS_EXIT then Exit
    else if num == SYSCALL_THREAD_CREATE then Thread(arg1, stack)
    else Other
  }

  /** The numbers of the calls; 24 and 25 are the allocator's, and every other number leaves the processes alone. */
  lemma CallNumbers(num: u64, arg1: u64, stack: StackPtr)
    ensures SYSCALL_USER_KMALLOC == 24 && SYSCALL_USER_KFREE == 25
    ensures num == 3 ==> Decode(num, arg1, stack) == Create(arg1, stack)
    ensures num == 4 ==> Decode(num, arg1, stack) == Yield
    ensures num == 5 ==> Decode(num, arg1, stack) == Exit
    ensures num == 6 ==> Decode(num, arg1, stack) == Thread(arg1, stack)
    ensures num !in {3, 4, 5, 6, 24, 25} ==> Decode(num, arg1, stack) == Other
  {
  }

  /** A pid as the 64-bit value stored in the caller's frame. */
  function AsWord(pid: int): (r: u64)
    requires -1 <= pid < MAX
    ensures r == (pid + 0x1_0000_0000_0000_0000) % 0x1_0000_0000_0000_0000
  {
    if pid < 0 then 0xFFFF_FFFF_FFFF_FFFF else pid
  }

  class Manager {
    const procs: array<Process>
    var current: int

    ghost predicate Valid() reads this { procs.Length == MAX }

    ghost function View(): Table
      reads this, procs
    {
      Table(procs[..], current)
    }

    constructor ()
      ensures Valid() && fresh(procs) && current == -1
      ensures forall i :: 0 <= i < MAX ==> procs[i] == Process(Unused, 0, 0, 0, 0)
    {
      procs := new Process[16](_ => Process(Unused, 0, 0, 0, 0));
      current := -1;
    }

    method FindFreeSlot() returns (pid: int)
      requires Valid()
      ensures pid == FreeSlot(procs[..], 0)
    {
      for i := 0 to MAX
        invariant FreeSlot(procs[..], i) == FreeSlot(procs[..], 0)
      {
        if procs[i].status == Unused || procs[i].status == Dead { return i; }
      }
      return -1;
    }

    method PickNextReady(cur: int) returns (pid: int)
      requires Valid() && cur < MAX
      ensures pid == Pick(procs[..], cur)
    {
      if cur < 0 {
        for i := 0 to MAX
          invariant FirstRunnable(procs[..], i) == FirstRunnable(procs[..], 0)
        {
          if procs[i].status == Ready || procs[i].status == Running { return i; }
        }
        return -1;
      }
      for step := 1 to MAX + 1
        invariant NextReady(procs[..], cur, step) == NextReady(procs[..], cur, 1)
      {
        var idx := (cur + step) % MAX;
        if procs[idx].status == Ready { return idx; }
      }
      if procs[cur].status == Running || procs[cur].status == Ready { return cur; }
      return -1;
    }

    method RegisterBootProcess(entry: u64, top: u64) returns (pid: int)
      requires Valid()
      modifies this, procs
      ensures pid == FreeSlot(old(procs[..]), 0)
      ensures pid < 0 ==> View() == old(View())
      ensures pid >= 0 ==> View() == Table(old(procs[..])[pid := Process(Running, entry, top, top, 0)], pid)
      ensures (forall i :: 0 <= i < MAX ==> old(procs[i]) == Process(Unused, 0, 0, 0, 0)) ==> View() == Boot(entry, top)
    {
      pid := FindFreeSlot();
      if pid < 0 { return -1; }
      procs[pid] := Process(Running, entry, top, top, 0);
      current := pid;
    }

    method CreateUserProcess(entry: u64, stack: StackPtr) returns (pid: int)
      requires Valid()
      modifies procs
      ensures (View(), pid) == CreateUser(old(View()), entry, stack)
    {
      if entry == 0 { return -1; }
      pid := FindFreeSlot();
      if pid < 0 || stack == 0 { return -1; }
      var top := (stack + STACK_SIZE) / 16 * 16;
      procs[pid] := Process(Ready, entry, top - FRAME_BYTES, top, stack);
    }

    method ExitCurrentProcess()
      requires Valid()
      modifies procs
      ensures View() == ExitCurrent(old(View()))
    {
      if current < 0 || current >= MAX { return; }
      procs[current] := procs[current].(status := Dead);
    }

    /** Returns the pointer pair to resume with, or halts when nothing can run. */
    method ScheduleOnSyscall(rsp: u64, userRsp: u64, switch: bool)
      returns (halted: bool, nextRsp: u64, nextUserRsp: u64)
      requires Valid()
      modifies this, procs
      ensures halted <==> Schedule(old(View()), rsp, userRsp, switch).Halt?
      ensures !halted ==> Resume(View(), nextRsp, nextUserRsp) == Schedule(old(View()), rsp, userRsp, switch)
    {
      halted, nextRsp, nextUserRsp := false, rsp, userRsp;
      if current < 0 || current >= MAX { return; }
      if procs[current].status == Running || procs[current].status == Ready {
        procs[current] := procs[current].(status := Ready, savedRsp := rsp, savedUserRsp := userRsp);
      }
      assert View() == SaveCurrent(old(View()), rsp, userRsp);
      var next := current;
      if switch || procs[current].status == Dead {
        next := PickNextReady(current);
        if next < 0 { return true, rsp, userRsp; }
      }
      current := next;
      procs[next] := procs[next].(status := Running);
      nextRsp, nextUserRsp := procs[next].savedRsp, procs[next].savedUserRsp;
    }

    /**
     * One trip through syscall_dispatch: the scheduling step of the decoded request, and the value
     * stored in the caller's frame (none for exit). Calls 24 and 25 return the allocator's answer, given here as a
     * parameter, in place of a stack pointer.
     */
    method SyscallDispatch(savedRsp: u64, num: u64, arg1: u64, stack: StackPtr, granted: u64, userRsp: u64)
      returns (halted: bool, nextRsp: u64, nextUserRsp: u64, stored: bool, result: u64)
      requires Valid()
      modifies this, procs
      ensures num == SYSCALL_USER_KMALLOC || num == SYSCALL_USER_KFREE ==>
        && View() == old(View()) && !halted && !stored && nextUserRsp == userRsp
        && nextRsp == if num == SYSCALL_USER_KMALLOC then granted else 0
      ensures num != SYSCALL_USER_KMALLOC && num != SYSCALL_USER_KFREE ==>
        var req := Decode(num, arg1, stack);
        var r := Step(old(View()), Call(req, savedRsp, userRsp));
        && (halted <==> r.Halt?)
        && (!halted ==> Resume(View(), nextRsp, nextUserRsp) == r)
        && (stored <==> req != Exit)
        && (req.Create? || req.Thread? ==> result == AsWord(Serve(old(View()), req).1))
        && (req == Yield ==> result == 0)
    {
      halted, nextRsp, nextUserRsp, stored, result := false, savedRsp, userRsp, true, 0;
      var switch := false;
      if num == SYSCALL_USER_KMALLOC || num == SYSCALL_USER_KFREE {
        stored, nextRsp := false, if num == SYSCALL_USER_KMALLOC then granted else 0;
        return;
      } else if num == SYSCALL_PROCESS_CREATE {
        var pid := CreateUserProcess(arg1, stack);
        result := AsWord(pid);
      } else if num == SYSCALL_PROCESS_YIELD {
        switch := true;
      } else if num == SYSCALL_PROCESS_EXIT {
        ExitCurrentProcess();
        stored, switch := false, true;
      } else if num == SYSCALL_THREAD_CREATE {
        var tid := CreateUserProcess(arg1, stack);
        result := AsWord(tid);
        switch := tid >= 0;
      }
      halted, nextRsp, nextUserRsp := ScheduleOnSyscall(savedRsp, userRsp, switch);
    }
  }
}
