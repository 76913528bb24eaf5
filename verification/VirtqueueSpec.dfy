/** The control virtqueue: a driver that submits one request at a time and a device that runs beside it. */
module VirtqueueSpec {
  import opened Bytes

  const DESC_F_NEXT: u16 := 1
  const DESC_F_WRITE: u16 := 2

  datatype Desc = Desc(addr: u64, len: u32, flags: u16, next: u16)

  /** A command buffer the device reads and a response buffer it writes. */
  datatype Request = Request(cmd: u64, cmdLen: u32, resp: u64, respLen: u32) | Malformed

  /**
   * The shared rings, the driver's two private indices, the device's position, and three histories: what the
   * device has executed, how many entries were ever published, and how many completions the driver has seen.
   */
  datatype Queue = Queue(size: u16, desc: seq<Desc>, ring: seq<u16>, availIdx: u16, sharedIdx: u16, usedSeen: u16,
                         usedIdx: u16, lastAvail: u16, log: seq<Request>, published: nat, seen: nat, clock: nat)

  predicate Wf(q: Queue) { |q.desc| == q.size && |q.ring| == q.size }

  function Low16(n: nat): (r: u16) { n % 0x1_0000 }

  function Next16(n: u16): (r: u16) { ((n as int) + 1) % 0x1_0000 }

  lemma LowNext(n: nat)
    ensures Next16(Low16(n)) == Low16(n + 1)
  {
  }

  lemma LowEqual(a: nat, b: nat)
    requires a <= b < a + 0x1_0000
    ensures Low16(a) == Low16(b) <==> a == b
  {
  }

  // ----- the device: each available entry once and in order -----

  /** The request whose chain starts at a descriptor: a readable buffer, then a writable one. */
  function Fetch(desc: seq<Desc>, head: u16): (r: Request)
  {
    if && head < |desc| && desc[head].flags == DESC_F_NEXT
       && desc[head].next < |desc| && desc[desc[head].next].flags == DESC_F_WRITE
    then var d, e := desc[head], desc[desc[head].next]; Request(d.addr, d.len, e.addr, e.len)
    else Malformed
  }

  function DeviceStep(q: Queue): (t: Queue)
    requires Wf(q)
    ensures Wf(t) && t.size == q.size
  {
    if q.lastAvail == q.sharedIdx || q.size == 0 then q
    else q.(log := q.log + [Fetch(q.desc, q.ring[q.lastAvail % q.size])],
            lastAvail := Next16(q.lastAvail), usedIdx := Next16(q.usedIdx))
  }

  function Steps(q: Queue, n: nat): (t: Queue)
    requires Wf(q)
    ensures Wf(t) && t.size == q.size
    decreases n
  {
    if n == 0 then q else Steps(DeviceStep(q), n - 1)
  }

  /** The device's progress between two accesses of the driver is whatever the schedule says. */
  function Turn(q: Queue, schedule: nat -> nat): (t: Queue)
    requires Wf(q)
    ensures Wf(t) && t.size == q.size
  {
    Steps(q, schedule(q.clock)).(clock := q.clock + 1)
  }

  // ----- the driver -----

  function HeadDesc(r: Request): (d: Desc)
    requires r.Request?
  {
    Desc(r.cmd, r.cmdLen, DESC_F_NEXT, 1)
  }

  function TailDesc(r: Request): (d: Desc)
    requires r.Request?
  {
    Desc(r.resp, r.respLen, DESC_F_WRITE, 0)
  }

  function Publish(q: Queue): (t: Queue)
    requires Wf(q)
    ensures Wf(t) && t.size == q.size
  {
    q.(availIdx := Next16(q.availIdx), sharedIdx := Next16(q.availIdx), published := q.published + 1)
  }

  /** The driver's writes before it publishes: one field of one descriptor each, and the ring entry. */
  datatype Edit =
    | SetAddr(tail: bool, addr: u64)
    | SetLen(tail: bool, len: u32)
    | SetFlags(tail: bool, flags: u16)
    | SetNext(tail: bool, next: u16)
    | SetRing

  function Edited(d: Desc, e: Edit): (r: Desc)
  {
    match e
    case SetAddr(_, v) => d.(addr := v)
    case SetLen(_, v) => d.(len := v)
    case SetFlags(_, v) => d.(flags := v)
    case SetNext(_, v) => d.(next := v)
    case SetRing => d
  }

  function Apply(q: Queue, e: Edit): (t: Queue)
    requires Wf(q) && q.size >= 2
    ensures Wf(t) && t == q.(desc := t.desc, ring := t.ring)
  {
    if e.SetRing? then q.(ring := q.ring[q.availIdx % q.size := 0])
    else
      var i := if e.tail then 1 else 0;
      q.(desc := q.desc[i := Edited(q.desc[i], e)])
  }

  function HeadEdits(r: Request): (es: seq<Edit>)
    requires r.Request?
  {
    [SetAddr(false, r.cmd), SetLen(false, r.cmdLen), SetFlags(false, DESC_F_NEXT), SetNext(false, 1)]
  }

  function TailEdits(r: Request): (es: seq<Edit>)
    requires r.Request?
  {
    [SetAddr(true, r.resp), SetLen(true, r.respLen), SetFlags(true, DESC_F_WRITE), SetNext(true, 0)]
  }

  function Edits(r: Request): (es: seq<Edit>)
    requires r.Request?
    ensures |es| == 9
  {
    HeadEdits(r) + TailEdits(r) + [SetRing]
  }

  lemma EditsList(r: Request)
    requires r.Request?
    ensures var es, h, t := Edits(r), HeadDesc(r), TailDesc(r);
      && es[0..] == es && es[9..] == [] && es[8] == SetRing
      && es[0] == SetAddr(false, h.addr) && es[1] == SetLen(false, h.len) && es[2] == SetFlags(false, h.flags)
      && es[3] == SetNext(false, h.next)
      && es[4] == SetAddr(true, t.addr) && es[5] == SetLen(true, t.len) && es[6] == SetFlags(true, t.flags)
      && es[7] == SetNext(true, t.next)
  {
  }

  /** The writes in order, with the device free to move before each of them and after the last. */
  function ApplyAll(q: Queue, es: seq<Edit>, schedule: nat -> nat): (t: Queue)
    requires Wf(q) && q.size >= 2
    ensures Wf(t) && t.size == q.size
    decreases |es|
  {
    if es == [] then Turn(q, schedule) else ApplyAll(Apply(Turn(q, schedule), es[0]), es[1..], schedule)
  }

  lemma ApplyNone(q: Queue, schedule: nat -> nat)
    requires Wf(q) && q.size >= 2
    ensures ApplyAll(q, [], schedule) == Turn(q, schedule)
  {
  }

  function Prepare(q: Queue, r: Request, schedule: nat -> nat): (t: Queue)
    requires Wf(q) && q.size >= 2 && r.Request?
    ensures Wf(t) && t.size == q.size
  {
    Publish(ApplyAll(q, Edits(r), schedule))
  }

  function Acknowledge(q: Queue): (t: Queue)
    requires Wf(q)
    ensures Wf(t) && t.size == q.size
  {
    q.(usedSeen := q.usedIdx, seen := |q.log|)
  }

  /** Polling: the used index is read once per round, and once more after it was seen to move. */
  function Poll(q: Queue, schedule: nat -> nat, budget: nat): (r: (Queue, bool))
    requires Wf(q)
    ensures Wf(r.0) && r.0.size == q.size
    decreases budget
  {
    var t := Turn(q, schedule);
    if t.usedIdx != t.usedSeen then (Acknowledge(Turn(t, schedule)), true)
    else if budget <= 1 then (t, false)
    else Poll(t, schedule, budget - 1)
  }

  function Submit(q: Queue, r: Request, schedule: nat -> nat, timeout: nat): (res: (Queue, bool))
    requires Wf(q) && r.Request?
    ensures Wf(res.0) && res.0.size == q.size
  {
    if q.size < 2 then (q, false) else Poll(Prepare(q, r, schedule), schedule, timeout)
  }

  function Init(size: u16): (q: Queue)
    ensures Wf(q)
  {
    Queue(size, seq<Desc>(size, i => Desc(0, 0, 0, 0)), seq<u16>(size, i => 0), 0, 0, 0, 0, 0, [], 0, 0, 0)
  }

  // ----- what every schedule keeps -----

  ghost predicate Zero(ring: seq<u16>) { forall i :: 0 <= i < |ring| ==> ring[i] == 0 }

  /** The 16-bit indices are the histories' low halves, and the histories are ordered. */
  ghost predicate Inv(q: Queue)
  {
    && Wf(q) && Zero(q.ring) && q.seen <= |q.log| <= q.published
    && q.availIdx == q.sharedIdx == Low16(q.published)
    && q.usedSeen == Low16(q.seen) && q.usedIdx == q.lastAvail == Low16(|q.log|)
  }

  lemma InitInv(size: u16)
    ensures Inv(Init(size))
  {
  }

  /** What device steps leave alone, and that its log only grows. */
  ghost predicate DeviceOnly(q: Queue, t: Queue)
  {
    && q.log <= t.log
    && t == q.(log := t.log, lastAvail := t.lastAvail, usedIdx := t.usedIdx, clock := t.clock)
  }

  lemma StepInv(q: Queue)
    requires Inv(q)
    ensures Inv(DeviceStep(q)) && DeviceOnly(q, DeviceStep(q))
  {
    LowNext(|q.log|);
    hide Low16, Next16;
  }

  lemma {:induction false} StepsInv(q: Queue, n: nat)
    requires Inv(q)
    ensures Inv(Steps(q, n)) && DeviceOnly(q, Steps(q, n))
    decreases n
  {
    if n > 0 {
      StepInv(q);
      assert Wf(q);
      hide DeviceStep, Low16, Zero;
      StepsInv(DeviceStep(q), n - 1);
    }
  }

  lemma TurnInv(q: Queue, schedule: nat -> nat)
    requires Inv(q)
    ensures Inv(Turn(q, schedule)) && DeviceOnly(q, Turn(q, schedule))
  {
    StepsInv(q, schedule(q.clock));
    hide Steps, Low16;
  }

  lemma ApplyInv(q: Queue, e: Edit)
    requires Inv(q) && q.size >= 2
    ensures Inv(Apply(q, e))
  {
  }

  lemma {:induction false} ApplyAllInv(q: Queue, es: seq<Edit>, schedule: nat -> nat)
    requires Inv(q) && q.size >= 2
    ensures var t := ApplyAll(q, es, schedule);
      Inv(t) && q.log <= t.log && t.published == q.published && t.seen == q.seen
    decreases |es|
  {
    TurnInv(q, schedule);
    hide Turn, Low16, Zero;
    if es != [] {
      ApplyInv(Turn(q, schedule), es[0]);
      hide Apply;
      ApplyAllInv(Apply(Turn(q, schedule), es[0]), es[1..], schedule);
    }
  }

  lemma PrepareInv(q: Queue, r: Request, schedule: nat -> nat)
    requires Inv(q) && q.size >= 2 && r.Request?
    ensures var t := Prepare(q, r, schedule);
      Inv(t) && q.log <= t.log && t.published == q.published + 1 && t.seen == q.seen && |t.log| <= q.published
  {
    ApplyAllInv(q, Edits(r), schedule);
    LowNext(q.published);
    hide ApplyAll, Low16, Next16;
  }

  lemma {:induction false} PollInv(q: Queue, schedule: nat -> nat, budget: nat)
    requires Inv(q)
    ensures var (t, ok) := Poll(q, schedule, budget);
      Inv(t) && q.log <= t.log && t.published == q.published && t.seen == if ok then |t.log| else q.seen
    decreases budget
  {
    var t := Turn(q, schedule);
    TurnInv(q, schedule);
    TurnInv(t, schedule);
    hide Turn, Low16, Zero;
    if t.usedIdx == t.usedSeen && budget > 1 {
      PollInv(t, schedule, budget - 1);
    }
  }

  /**
   * In every state and under every schedule: one more entry published, nothing un-done, and success means all
   * completions are seen.
   */
  lemma SubmitInv(q: Queue, r: Request, schedule: nat -> nat, timeout: nat)
    requires Inv(q) && r.Request?
    ensures var (t, ok) := Submit(q, r, schedule, timeout);
      && Inv(t) && q.log <= t.log && t.published == q.published + (if q.size < 2 then 0 else 1)
      && t.seen == if ok then |t.log| else q.seen
  {
    if q.size >= 2 {
      PrepareInv(q, r, schedule);
      PollInv(Prepare(q, r, schedule), schedule, timeout);
      hide Prepare, Poll, Inv;
    }
  }

  // ----- no request outstanding -----

  /** Everything published was executed, and no completion is waiting to be seen. */
  ghost predicate Clean(q: Queue) { Inv(q) && |q.log| == q.published && q.usedIdx == q.usedSeen }

  /** Nothing left for the device to do. */
  lemma {:induction false} IdleSteps(q: Queue, n: nat)
    requires Wf(q) && q.lastAvail == q.sharedIdx
    ensures Steps(q, n) == q
    decreases n
  {
    if n > 0 { IdleSteps(q, n - 1); }
  }

  lemma IdleTurn(q: Queue, schedule: nat -> nat)
    requires Wf(q) && q.lastAvail == q.sharedIdx
    ensures Turn(q, schedule) == q.(clock := q.clock + 1)
  {
    IdleSteps(q, schedule(q.clock));
  }

  ghost predicate Still(schedule: nat -> nat, from: nat, to: nat) { forall t :: from <= t < to ==> schedule(t) == 0 }

  /** The device does not move in the next n turns: it has nothing to do, or the schedule holds it. */
  ghost predicate Quiet(q: Queue, schedule: nat -> nat, n: nat)
  {
    q.lastAvail == q.sharedIdx || Still(schedule, q.clock, q.clock + n)
  }

  lemma QuietTurn(q: Queue, schedule: nat -> nat, n: nat)
    requires Wf(q) && Quiet(q, schedule, n) && n > 0
    ensures Turn(q, schedule) == q.(clock := q.clock + 1)
  {
    if q.lastAvail == q.sharedIdx { IdleTurn(q, schedule); }
  }

  /** The writes alone. */
  function EditAll(q: Queue, es: seq<Edit>): (t: Queue)
    requires Wf(q) && q.size >= 2
    ensures Wf(t) && t == q.(desc := t.desc, ring := t.ring)
    decreases |es|
  {
    if es == [] then q else EditAll(Apply(q, es[0]), es[1..])
  }

  lemma {:induction false} EditAllAt(q: Queue, es: seq<Edit>, c: nat)
    requires Wf(q) && q.size >= 2
    ensures EditAll(q.(clock := c), es) == EditAll(q, es).(clock := c)
    decreases |es|
  {
    if es != [] {
      assert Apply(q.(clock := c), es[0]) == Apply(q, es[0]).(clock := c);
      EditAllAt(Apply(q, es[0]), es[1..], c);
    }
  }

  lemma {:induction false} QuietApply(q: Queue, es: seq<Edit>, schedule: nat -> nat)
    requires Wf(q) && q.size >= 2 && Quiet(q, schedule, |es| + 1)
    ensures ApplyAll(q, es, schedule) == EditAll(q, es).(clock := q.clock + |es| + 1)
    decreases |es|
  {
    QuietTurn(q, schedule, |es| + 1);
    hide Turn, Apply;
    if es != [] {
      var t := q.(clock := q.clock + 1);
      QuietApply(Apply(t, es[0]), es[1..], schedule);
      EditAllAt(q, es, q.clock + 1);
    }
  }

  lemma {:induction false} EditTwice(q: Queue, a: seq<Edit>, b: seq<Edit>)
    requires Wf(q) && q.size >= 2
    ensures EditAll(q, a + b) == EditAll(EditAll(q, a), b)
    decreases |a|
  {
    if a == [] {
      assert a + b == b;
    } else {
      assert (a + b)[1..] == a[1..] + b;
      hide Apply;
      EditTwice(Apply(q, a[0]), a[1..], b);
    }
  }

  lemma FirstEdit(q: Queue, es: seq<Edit>)
    requires Wf(q) && q.size >= 2 && es != []
    ensures EditAll(q, es) == EditAll(Apply(q, es[0]), es[1..])
  {
  }

  lemma NoEdits(q: Queue, es: seq<Edit>)
    requires Wf(q) && q.size >= 2 && es == []
    ensures EditAll(q, es) == q
  {
  }

  /** Four field writes to one descriptor set all of it. */
  lemma FourEdits(q: Queue, es: seq<Edit>)
    requires Wf(q) && q.size >= 2 && |es| == 4
    ensures EditAll(q, es) == Apply(Apply(Apply(Apply(q, es[0]), es[1]), es[2]), es[3])
  {
    var a, b, c, d := es[1..], es[2..], es[3..], es[4..];
    assert a[1..] == b && b[1..] == c && c[1..] == d && d == [];
    hide *;
    var q1 := Apply(q, es[0]);
    var q2 := Apply(q1, es[1]);
    var q3 := Apply(q2, es[2]);
    FirstEdit(q, es);
    FirstEdit(q1, a);
    FirstEdit(q2, b);
    FirstEdit(q3, c);
    NoEdits(Apply(q3, es[3]), d);
  }

  lemma HeadEdited(q: Queue, r: Request)
    requires Wf(q) && q.size >= 2 && r.Request?
    ensures EditAll(q, HeadEdits(r)) == q.(desc := q.desc[0 := HeadDesc(r)])
  {
    var es := HeadEdits(r);
    FourEdits(q, es);
    hide EditAll;
  }

  lemma TailEdited(q: Queue, r: Request)
    requires Wf(q) && q.size >= 2 && r.Request?
    ensures EditAll(q, TailEdits(r)) == q.(desc := q.desc[1 := TailDesc(r)])
  {
    var es := TailEdits(r);
    FourEdits(q, es);
    hide EditAll;
  }

  /** Together the writes leave the two descriptors of the request, at the head of a ring of zeroes. */
  lemma AllEdited(q: Queue, r: Request)
    requires Wf(q) && Zero(q.ring) && q.size >= 2 && r.Request?
    ensures EditAll(q, Edits(r)) == q.(desc := q.desc[0 := HeadDesc(r)][1 := TailDesc(r)])
  {
    HeadEdited(q, r);
    var q1 := EditAll(q, HeadEdits(r));
    TailEdited(q1, r);
    var q2 := EditAll(q1, TailEdits(r));
    EditTwice(q, HeadEdits(r), TailEdits(r));
    EditTwice(q, HeadEdits(r) + TailEdits(r), [SetRing]);
    assert [SetRing][1..] == [];
    assert q2.ring[q2.availIdx % q2.size := 0] == q2.ring;
    assert q2.(ring := q2.ring) == q2;
    assert EditAll(q2, [SetRing]) == Apply(q2, SetRing);
    hide EditAll;
  }

  /** The queue with a request written and published, ten turns later. */
  function Ready(q: Queue, r: Request): (t: Queue)
    requires Wf(q) && q.size >= 2 && r.Request?
    ensures Wf(t) && t.size == q.size
  {
    Publish(q.(desc := q.desc[0 := HeadDesc(r)][1 := TailDesc(r)], clock := q.clock + 10))
  }

  lemma QuietPrepare(q: Queue, r: Request, schedule: nat -> nat)
    requires Wf(q) && Zero(q.ring) && q.size >= 2 && r.Request? && Quiet(q, schedule, 10)
    ensures Prepare(q, r, schedule) == Ready(q, r)
  {
    QuietApply(q, Edits(r), schedule);
    AllEdited(q, r);
    hide ApplyAll, EditAll, Edits;
  }

  /** One entry outstanding, which the device will read as r. */
  ghost predicate Pending(q: Queue, r: Request)
  {
    && Inv(q) && q.size >= 2 && q.published == |q.log| + 1 && q.usedIdx == q.usedSeen
    && Fetch(q.desc, 0) == r
  }

  lemma PendingStep(q: Queue, r: Request)
    requires Pending(q, r)
    ensures var t := DeviceStep(q);
      Inv(t) && t.log == q.log + [r] && t.lastAvail == t.sharedIdx && t.usedIdx != t.usedSeen
    ensures DeviceOnly(q, DeviceStep(q))
  {
    StepInv(q);
    LowNext(|q.log|);
    LowEqual(|q.log|, |q.log| + 1);
    assert q.ring[q.lastAvail % q.size] == 0;
    hide Low16, Next16, Fetch;
  }

  lemma PendingTurn(q: Queue, r: Request, schedule: nat -> nat)
    requires Pending(q, r)
    ensures var t := Turn(q, schedule);
      t == if schedule(q.clock) == 0 then q.(clock := q.clock + 1) else DeviceStep(q).(clock := q.clock + 1)
  {
    PendingStep(q, r);
    if schedule(q.clock) > 0 {
      hide DeviceStep, Pending;
      IdleSteps(DeviceStep(q), schedule(q.clock) - 1);
    }
  }

  /** Polling for a single outstanding request: success is its completion, a timeout means the device never moved. */
  lemma {:induction false} PendingPoll(q: Queue, r: Request, schedule: nat -> nat, budget: nat)
    requires Pending(q, r)
    ensures var (t, ok) := Poll(q, schedule, budget);
      if ok then Clean(t) && t.log == q.log + [r] && t.size == q.size && t.published == q.published
      else t == q.(clock := t.clock)
    decreases budget
  {
    PendingTurn(q, r, schedule);
    PendingStep(q, r);
    var t := Turn(q, schedule);
    if schedule(q.clock) == 0 {
      if budget > 1 {
        assert Pending(t, r);
        hide Turn, Pending, Clean, DeviceStep;
        PendingPoll(t, r, schedule, budget - 1);
      }
    } else {
      IdleTurn(t, schedule);
      AcknowledgeClean(q, r, t);
    }
  }

  lemma AcknowledgeClean(q: Queue, r: Request, t: Queue)
    requires Pending(q, r) && t == DeviceStep(q).(clock := t.clock)
    ensures var u := Acknowledge(t.(clock := t.clock + 1));
      Clean(u) && u.log == q.log + [r] && u.size == q.size && u.published == q.published
  {
    PendingStep(q, r);
    hide DeviceStep, Low16, Fetch;
  }

  lemma ReadyPending(q: Queue, r: Request)
    requires Clean(q) && q.size >= 2 && r.Request?
    ensures Pending(Ready(q, r), r)
  {
    LowNext(q.published);
    hide Low16, Next16;
  }

  /** With nothing outstanding, success means that the request just submitted is the one executed. */
  lemma CleanSubmit(q: Queue, r: Request, schedule: nat -> nat, timeout: nat)
    requires Clean(q) && q.size >= 2 && r.Request?
    ensures var (t, ok) := Submit(q, r, schedule, timeout); t.size == q.size && t.published == q.published + 1
    ensures var (t, ok) := Submit(q, r, schedule, timeout);
      if ok then Clean(t) && t.log == q.log + [r] else t.log == q.log && t.seen == q.seen
  {
    QuietPrepare(q, r, schedule);
    ReadyPending(q, r);
    PendingPoll(Ready(q, r), r, schedule, timeout);
    hide Prepare, Poll, Clean, Pending;
  }

  /**
   * What the device finds: the command in descriptor 0, marked as continued in descriptor 1, which is the answer's and
   * marked as writable, and one more available entry, which names descriptor 0.
   */
  lemma Written(q: Queue, r: Request, schedule: nat -> nat)
    requires Clean(q) && q.size >= 2 && r.Request?
    ensures var t := Prepare(q, r, schedule);
      && t.desc[0] == Desc(r.cmd, r.cmdLen, 1, 1) && t.desc[1] == Desc(r.resp, r.respLen, 2, 0)
      && t.ring[q.availIdx % q.size] == 0
      && t.availIdx == t.sharedIdx == (q.availIdx + 1) % 0x1_0000
  {
    QuietPrepare(q, r, schedule);
    hide Prepare;
  }

  lemma {:induction false} PollAnswers(q: Queue, r: Request, schedule: nat -> nat, budget: nat)
    requires Pending(q, r)
    ensures Poll(q, schedule, budget).1 <==> !Still(schedule, q.clock, q.clock + (if budget <= 1 then 1 else budget))
    decreases budget
  {
    PendingTurn(q, r, schedule);
    PendingStep(q, r);
    var t := Turn(q, schedule);
    if schedule(q.clock) == 0 && budget > 1 {
      assert Pending(t, r);
      hide Turn, Pending, DeviceStep;
      PollAnswers(t, r, schedule, budget - 1);
    } else {
      hide Pending;
    }
  }

  /**
   * With nothing outstanding, a submission succeeds exactly when the device moves in one of the polls: the first comes
   * after ten accesses to the queue, and there are as many as the timeout says, but at least one.
   */
  lemma AnswersInTime(q: Queue, r: Request, schedule: nat -> nat, timeout: nat)
    requires Clean(q) && q.size >= 2 && r.Request?
    ensures Submit(q, r, schedule, timeout).1 <==>
      exists k: nat :: q.clock + 10 <= k < q.clock + 10 + (if timeout <= 1 then 1 else timeout) && schedule(k) > 0
  {
    QuietPrepare(q, r, schedule);
    ReadyPending(q, r);
    PollAnswers(Ready(q, r), r, schedule, timeout);
    hide Prepare, Poll, Clean, Pending;
  }

  // ----- runs -----

  function Run(q: Queue, rs: seq<Request>, schedule: nat -> nat, timeout: nat): (res: (Queue, seq<bool>))
    requires Wf(q) && forall i :: 0 <= i < |rs| ==> rs[i].Request?
    ensures Wf(res.0) && |res.1| == |rs|
    decreases |rs|
  {
    if rs == [] then (q, [])
    else
      var (t, ok) := Submit(q, rs[0], schedule, timeout);
      var (u, oks) := Run(t, rs[1..], schedule, timeout);
      (u, [ok] + oks)
  }

  lemma RunStep(q: Queue, rs: seq<Request>, schedule: nat -> nat, timeout: nat)
    requires Wf(q) && forall i :: 0 <= i < |rs| ==> rs[i].Request?
    ensures rs == [] ==> Run(q, rs, schedule, timeout).0 == q
    ensures rs != [] ==> var (t, ok) := Submit(q, rs[0], schedule, timeout);
      var (u, oks) := Run(t, rs[1..], schedule, timeout);
      Run(q, rs, schedule, timeout) == (u, [ok] + oks)
  {
  }

  ghost predicate AllTrue(oks: seq<bool>) { forall i :: 0 <= i < |oks| ==> oks[i] }

  lemma AllTrueStep(ok: bool, oks: seq<bool>)
    requires AllTrue([ok] + oks)
    ensures ok && AllTrue(oks)
  {
    assert ([ok] + oks)[0] == ok && forall i :: 0 <= i < |oks| ==> oks[i] == ([ok] + oks)[i + 1];
  }

  lemma Rejoin(log: seq<Request>, rs: seq<Request>)
    requires rs != []
    ensures log + [rs[0]] + rs[1..] == log + rs
  {
  }

  /**
   * A run without a timeout, however long and under whatever schedule, executes exactly its requests, each once and in
   * order.
   */
  lemma {:induction false} RunExecutes(q: Queue, rs: seq<Request>, schedule: nat -> nat, timeout: nat)
    requires Clean(q) && q.size >= 2 && (forall i :: 0 <= i < |rs| ==> rs[i].Request?)
    requires AllTrue(Run(q, rs, schedule, timeout).1)
    ensures var t := Run(q, rs, schedule, timeout).0;
      Clean(t) && t.log == q.log + rs && t.published == q.published + |rs|
    decreases |rs|
  {
    assert Wf(q);
    hide *;
    RunStep(q, rs, schedule, timeout);
    if rs == [] {
      assert q.log + rs == q.log;
    } else {
      var (t, ok) := Submit(q, rs[0], schedule, timeout);
      CleanSubmit(q, rs[0], schedule, timeout);
      AllTrueStep(ok, Run(t, rs[1..], schedule, timeout).1);
      RunExecutes(t, rs[1..], schedule, timeout);
      Rejoin(q.log, rs);
    }
  }

  /** From set-up: all three indices agree after any number of submissions, past the 16-bit wrap too. */
  lemma IndicesAgree(size: u16, rs: seq<Request>, schedule: nat -> nat, timeout: nat)
    requires size >= 2 && (forall i :: 0 <= i < |rs| ==> rs[i].Request?)
    requires AllTrue(Run(Init(size), rs, schedule, timeout).1)
    ensures var t := Run(Init(size), rs, schedule, timeout).0;
      t.log == rs && t.availIdx == t.sharedIdx == t.usedSeen == t.usedIdx == Low16(|rs|)
  {
    InitInv(size);
    RunExecutes(Init(size), rs, schedule, timeout);
    assert [] + rs == rs;
  }

  // ----- requests outstanding -----

  ghost predicate Completes(q: Queue, r: Request, schedule: nat -> nat, timeout: nat)
    requires Wf(q) && r.Request?
  {
    var (t, ok) := Submit(q, r, schedule, timeout);
    ok ==> |t.log| > q.published
  }

  /** At rest, but for one step at one moment. */
  function StepAt(at: nat): (schedule: nat -> nat) { (t: nat) => if t == at then 1 else 0 }

  /**
   * Executes one outstanding request, at once if the device sees it or else after the next is published; at rest
   * when a completion is already waiting to be seen.
   */
  function Hasty(q: Queue): (schedule: nat -> nat)
  {
    if q.usedIdx != q.usedSeen then (t: nat) => 0
    else StepAt(if q.lastAvail != q.sharedIdx then q.clock else q.clock + 10)
  }

  /** Success at the first poll, if the device moves at most before it. */
  lemma PollOnce(p: Queue, schedule: nat -> nat, budget: nat)
    requires Wf(p) && Turn(p, schedule).usedIdx != p.usedSeen && Turn(p, schedule).usedSeen == p.usedSeen
    requires schedule(p.clock + 1) == 0
    ensures Poll(p, schedule, budget).1 && Poll(p, schedule, budget).0.log == Turn(p, schedule).log
  {
    var t := Turn(p, schedule);
    assert t.clock == p.clock + 1;
    QuietTurn(t, schedule, 1);
    hide Turn;
  }

  /** A waiting completion is taken for the new request's. */
  lemma WaitingSucceeds(q: Queue, r: Request, timeout: nat)
    requires Inv(q) && q.size >= 2 && r.Request? && q.usedIdx != q.usedSeen
    ensures !Completes(q, r, Hasty(q), timeout)
  {
    var h := Hasty(q);
    QuietPrepare(q, r, h);
    var p := Ready(q, r);
    QuietTurn(p, h, 1);
    PollOnce(p, h, timeout);
    hide Prepare, Poll, Turn;
  }

  lemma OneStep(q: Queue, schedule: nat -> nat)
    requires Inv(q) && q.size >= 2 && schedule(q.clock) == 1 && q.lastAvail != q.sharedIdx
    ensures var t := Turn(q, schedule);
      Inv(t) && |t.log| == |q.log| + 1 && DeviceOnly(q, t) && t.clock == q.clock + 1 && t.usedIdx != q.usedIdx
  {
    TurnInv(q, schedule);
    assert Steps(q, 1) == DeviceStep(q);
    LowEqual(|q.log|, |q.log| + 1);
    hide Low16;
  }

  /** A request the device sees outstanding is executed before the new one is written. */
  lemma EarlySucceeds(q: Queue, r: Request, timeout: nat)
    requires Inv(q) && q.size >= 2 && r.Request? && |q.log| < q.published && q.usedIdx == q.usedSeen
    requires q.lastAvail != q.sharedIdx
    ensures !Completes(q, r, Hasty(q), timeout)
  {
    var h := Hasty(q);
    OneStep(q, h);
    var t, es := Turn(q, h), Edits(r);
    var q1 := Apply(t, es[0]);
    QuietApply(q1, es[1..], h);
    var p := Prepare(q, r, h);
    assert p == Publish(EditAll(q1, es[1..]).(clock := q.clock + 10));
    QuietTurn(p, h, 1);
    hide Turn, Prepare, ApplyAll, EditAll, Apply, Edits, Inv;
    PollOnce(p, h, timeout);
    hide Poll;
  }

  /** 65536 outstanding requests look like none; one of them is executed right after the new one is published. */
  lemma LateSucceeds(q: Queue, r: Request, timeout: nat)
    requires Inv(q) && q.size >= 2 && r.Request? && |q.log| < q.published && q.usedIdx == q.usedSeen
    requires q.lastAvail == q.sharedIdx
    ensures !Completes(q, r, Hasty(q), timeout)
  {
    var h := Hasty(q);
    QuietPrepare(q, r, h);
    PrepareInv(q, r, h);
    var p := Ready(q, r);
    LowNext(q.published);
    LowEqual(q.published, q.published + 1);
    hide Prepare, Turn, Low16, Next16;
    OneStep(p, h);
    PollOnce(p, h, timeout);
    hide Poll;
  }

  /**
   * Success is a promise about the request just submitted, under every schedule, exactly when nothing is
   * outstanding at the call and the driver's two indices agree.
   */
  lemma SuccessMeansCompleted(q: Queue, r: Request, timeout: nat)
    requires Inv(q) && q.size >= 2 && r.Request?
    ensures (forall schedule: nat -> nat :: Completes(q, r, schedule, timeout)) <==>
      |q.log| == q.published && q.availIdx == q.usedSeen
  {
    if |q.log| == q.published && q.availIdx == q.usedSeen {
      forall schedule: nat -> nat ensures Completes(q, r, schedule, timeout) { CleanSubmit(q, r, schedule, timeout); }
    } else if q.usedIdx != q.usedSeen {
      WaitingSucceeds(q, r, timeout);
    } else if q.lastAvail != q.sharedIdx {
      EarlySucceeds(q, r, timeout);
    } else {
      LateSucceeds(q, r, timeout);
    }
  }

  /** What the driver can check itself: with fewer than 65536 submissions since the last success, its indices decide. */
  lemma IndicesDecide(q: Queue, r: Request, timeout: nat)
    requires Inv(q) && q.size >= 2 && r.Request? && q.published < q.seen + 0x1_0000
    ensures (forall schedule: nat -> nat :: Completes(q, r, schedule, timeout)) <==> q.availIdx == q.usedSeen
  {
    SuccessMeansCompleted(q, r, timeout);
    LowEqual(q.seen, q.published);
    hide Completes;
  }

  // ----- timeouts -----

  function Rounds(timeout: nat): (n: nat) { if timeout <= 1 then 1 else timeout }

  lemma {:induction false} StillPoll(q: Queue, schedule: nat -> nat, budget: nat)
    requires Wf(q) && q.usedIdx == q.usedSeen && Still(schedule, q.clock, q.clock + Rounds(budget))
    ensures Poll(q, schedule, budget) == (q.(clock := q.clock + Rounds(budget)), false)
    decreases budget
  {
    QuietTurn(q, schedule, Rounds(budget));
    hide Turn;
    if budget > 1 {
      StillPoll(q.(clock := q.clock + 1), schedule, budget - 1);
    }
  }

  /** The state after a submission that timed out with the device at rest. */
  function TimedOut(q: Queue, r: Request, timeout: nat): (t: Queue)
    requires Wf(q) && q.size >= 2 && r.Request?
    ensures Wf(t)
  {
    Ready(q, r).(clock := q.clock + 10 + Rounds(timeout))
  }

  lemma StillSubmit(q: Queue, r: Request, schedule: nat -> nat, timeout: nat)
    requires Wf(q) && Zero(q.ring) && q.size >= 2 && r.Request? && q.usedIdx == q.usedSeen
    requires Still(schedule, q.clock, q.clock + 10 + Rounds(timeout))
    ensures Submit(q, r, schedule, timeout) == (TimedOut(q, r, timeout), false)
  {
    QuietPrepare(q, r, schedule);
    hide Prepare, Zero;
    StillPoll(Ready(q, r), schedule, timeout);
  }

  lemma TimedOutInv(q: Queue, r: Request, timeout: nat)
    requires Inv(q) && q.size >= 2 && r.Request?
    ensures var t := TimedOut(q, r, timeout);
      && Inv(t) && t.size == q.size && t.log == q.log && t.seen == q.seen && t.published == q.published + 1
      && t.usedIdx == q.usedIdx && t.usedSeen == q.usedSeen
  {
    LowNext(q.published);
    hide Low16, Next16;
  }

  /** A device that never moves: every submission times out and stays outstanding. */
  lemma {:induction false} StillRun(q: Queue, rs: seq<Request>, timeout: nat)
    requires Inv(q) && q.size >= 2 && q.usedIdx == q.usedSeen && forall i :: 0 <= i < |rs| ==> rs[i].Request?
    ensures var t := Run(q, rs, (_: nat) => 0, timeout).0;
      && Inv(t) && t.size == q.size && t.log == q.log && t.seen == q.seen && t.published == q.published + |rs|
      && t.usedIdx == t.usedSeen
    decreases |rs|
  {
    var still := (_: nat) => 0;
    if rs != [] {
      StillSubmit(q, rs[0], still, timeout);
      TimedOutInv(q, rs[0], timeout);
      var t := TimedOut(q, rs[0], timeout);
      RunStep(q, rs, still, timeout);
      hide Submit, Inv, TimedOut, Run;
      StillRun(t, rs[1..], timeout);
    }
  }

  /**
   * The indices alone are not enough: after 65536 timeouts they agree again, and there is a schedule in which the
   * next submission succeeds without having been executed.
   */
  lemma AliasedIndices(size: u16, rs: seq<Request>, r: Request, timeout: nat)
    requires size >= 2 && |rs| == 0x1_0000 && (forall i :: 0 <= i < |rs| ==> rs[i].Request?) && r.Request?
    ensures var q := Run(Init(size), rs, (_: nat) => 0, timeout).0;
      q.log == [] && q.availIdx == q.usedSeen && !Completes(q, r, Hasty(q), timeout)
  {
    InitInv(size);
    StillRun(Init(size), rs, timeout);
    var q := Run(Init(size), rs, (_: nat) => 0, timeout).0;
    hide Run, Completes;
    LateSucceeds(q, r, timeout);
  }

  /**
   * After a timeout the next submission overwrites the descriptors of the one still outstanding. There is a
   * schedule in which it succeeds, its own request has been executed in place of the lost one, and the device
   * is about to execute it again.
   */
  lemma RequestLost(q: Queue, r1: Request, r2: Request, timeout: nat)
    requires Clean(q) && q.size >= 2 && r1.Request? && r2.Request?
    ensures var schedule := StepAt(q.clock + 20 + Rounds(timeout));
      var (q1, ok1) := Submit(q, r1, schedule, timeout);
      var (q2, ok2) := Submit(q1, r2, schedule, timeout);
      !ok1 && ok2 && q2.log == q.log + [r2] && DeviceStep(q2).log == q.log + [r2, r2]
  {
    var schedule := StepAt(q.clock + 20 + Rounds(timeout));
    StillSubmit(q, r1, schedule, timeout);
    var q1 := TimedOut(q, r1, timeout);
    QuietPrepare(q1, r2, schedule);
    var p := Ready(q1, r2);
    LowNext(q.published);
    LowNext(q.published + 1);
    TwoOutstanding(p, r2, q.published);
    assert Steps(p, 1) == DeviceStep(p);
    var t := DeviceStep(p).(clock := p.clock + 1);
    assert Turn(p, schedule) == t;
    QuietTurn(t, schedule, 1);
    hide Submit, Prepare, Turn, DeviceStep, Low16, Next16;
    assert Poll(p, schedule, timeout) == (Acknowledge(t.(clock := t.clock + 1)), true);
  }

  lemma TwoOutstanding(p: Queue, r: Request, n: nat)
    requires Wf(p) && Zero(p.ring) && p.size >= 2 && Fetch(p.desc, 0) == r
    requires |p.log| == n && p.sharedIdx == Low16(n + 2) && p.lastAvail == p.usedIdx == p.usedSeen == Low16(n)
    ensures var t := DeviceStep(p);
      && t.usedIdx != t.usedSeen && t.log == p.log + [r]
      && DeviceStep(Acknowledge(t.(clock := p.clock + 2))).log == p.log + [r, r]
  {
    LowNext(n);
    LowEqual(n, n + 1);
    LowEqual(n, n + 2);
    LowEqual(n + 1, n + 2);
  }
}
