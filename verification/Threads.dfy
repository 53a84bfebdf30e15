/**
 The scheduler of threads/thread.c.

 `Sched` is the scheduler's state as a value: the status of every thread that
 has not been destroyed, the run queue, the running thread, the idle thread
 once it has announced itself, and the ticks used of the current time slice.
 The functions on it say what each interrupts-off section does; class
 `Scheduler` has the fields of thread.c and its methods are proved to do that.
 */
module Threads {
  import opened Common

  type Tid = nat

  const TIME_SLICE := 4

  datatype Status = Running | Ready | Blocked | Dying

  datatype Sched = Sched(
    status: map<Tid, Status>,
    ready: seq<Tid>,
    current: Tid,
    idle: Option<Tid>,   // idle_thread, a null pointer until idle() has run
    idleTid: Tid,        // the thread that thread_start creates to run idle()
    initial: Tid,        // initial_thread, whose page is never freed
    ticks: nat)

  // ---------------------------------------------------------------- sections

  /** next_thread_to_run: None is the null pointer that schedule() rejects. */
  function PickNext(s: Sched): Option<Tid> {
    if s.ready == [] then s.idle else Some(s.ready[0])
  }

  /** schedule and thread_schedule_tail: switch, start a new slice, and destroy
      the thread switched away from if it is dying. */
  function Schedule(s: Sched): Sched
    requires PickNext(s).Some?
  {
    var next := PickNext(s).value;
    var prev := s.current;
    var destroyed :=
      if prev != next && prev in s.status && s.status[prev] == Dying && prev != s.initial then {prev} else {};
    s.(ready := if s.ready == [] then [] else s.ready[1..],
       current := next,
       status := s.status[next := Running] - destroyed,
       ticks := 0)
  }

  function Block(s: Sched): Sched
    requires PickNext(s).Some?
  {
    Schedule(s.(status := s.status[s.current := Blocked]))
  }

  function Unblock(s: Sched, t: Tid): Sched {
    s.(ready := s.ready + [t], status := s.status[t := Ready])
  }

  /** The running thread gives up the processor; the idle thread does not queue. */
  function Requeue(s: Sched): Sched {
    s.(ready := if s.idle == Some(s.current) then s.ready else s.ready + [s.current],
       status := s.status[s.current := Ready])
  }

  function Yield(s: Sched): Sched
    requires PickNext(Requeue(s)).Some?
  {
    Schedule(Requeue(s))
  }

  function Exit(s: Sched): Sched
    requires PickNext(s).Some?
  {
    Schedule(s.(status := s.status[s.current := Dying]))
  }

  /** init_thread: a new thread starts out blocked. */
  function Init(s: Sched, t: Tid): Sched {
    s.(status := s.status[t := Blocked])
  }

  /** The first statement of idle(). */
  function AnnounceIdle(s: Sched): Sched {
    s.(idle := Some(s.current))
  }

  /** thread_tick, with the yield that intr_yield_on_return() brings about. */
  function Tick(s: Sched): Sched
    requires PickNext(Requeue(s)).Some?
  {
    if s.ticks + 1 >= TIME_SLICE then Yield(s) else s.(ticks := s.ticks + 1)
  }

  // ------------------------------------------------------------------- steps

  datatype Op =
    | DoBlock
    | DoUnblock(t: Tid)
    | DoYield
    | DoExit
    | DoInit(t: Tid)
    | DoAnnounceIdle
    | DoTick

  /** What the callers of thread.c see to. The thread made by thread_start runs
      idle() and nothing else: it announces itself before it blocks and never
      exits; only blocked threads are unblocked and nobody unblocks the
      announced idle thread, which waits on no semaphore. */
  predicate Enabled(s: Sched, op: Op) {
    match op
    case DoBlock => s.current != s.idleTid || s.idle.Some?
    case DoUnblock(t) => t in s.status && s.status[t] == Blocked && t != s.idleTid
    case DoYield => true
    case DoExit => s.current != s.idleTid
    case DoInit(t) => t !in s.status
    case DoAnnounceIdle => s.current == s.idleTid && s.idle.None?
    case DoTick => true
  }

  /** Does this step end in schedule()? */
  predicate Schedules(s: Sched, op: Op) {
    op.DoBlock? || op.DoYield? || op.DoExit? || (op.DoTick? && s.ticks + 1 >= TIME_SLICE)
  }

  ghost predicate Inv(s: Sched) {
    && s.current in s.status && s.status[s.current] == Running
    && (forall t :: t in s.status && s.status[t] == Running ==> t == s.current)
    && NoDup(s.ready)
    && (forall t :: t in s.ready ==> t in s.status && s.status[t] == Ready && s.idle != Some(t))
    && (forall t :: t in s.status && s.status[t] == Ready && s.idle != Some(t) ==> t in s.ready)
    && (forall t :: t in s.status && s.status[t] == Dying ==> t == s.initial)
    && s.idleTid != s.initial
    && s.idleTid in s.status && s.status[s.idleTid] != Dying
    && (s.idle.Some? ==> s.idle.value == s.idleTid)
    && (s.idle.None? ==> s.status[s.idleTid] != Blocked)
    && s.ticks < TIME_SLICE
  }

  /** schedule() never meets the null pointer: while idle_thread is null, the
      thread that will set it is on the run queue or is the one switching away,
      and that one queues itself first. */
  lemma NextExists(s: Sched, op: Op)
    requires Inv(s) && Enabled(s, op)
    ensures PickNext(Requeue(s)).Some?
    ensures op.DoBlock? || op.DoExit? ==> PickNext(s).Some?
  {
    if op.DoBlock? || op.DoExit? {
      if s.idle.None? {
        assert s.idleTid in s.ready;
      }
    }
  }

  function Apply(s: Sched, op: Op): Sched
    requires PickNext(Requeue(s)).Some?
    requires op.DoBlock? || op.DoExit? ==> PickNext(s).Some?
  {
    match op
    case DoBlock => Block(s)
    case DoUnblock(t) => Unblock(s, t)
    case DoYield => Yield(s)
    case DoExit => Exit(s)
    case DoInit(t) => Init(s, t)
    case DoAnnounceIdle => AnnounceIdle(s)
    case DoTick => Tick(s)
  }

  /** The state after thread_start has created the idle thread. */
  function Boot(main: Tid, idleTid: Tid): Sched {
    Sched(map[main := Running, idleTid := Ready], [idleTid], main, None, idleTid, main, 0)
  }

  lemma BootInv(main: Tid, idleTid: Tid)
    requires main != idleTid
    ensures Inv(Boot(main, idleTid)) && Boot(main, idleTid).current == main && Boot(main, idleTid).ticks == 0
  {
    var s := Boot(main, idleTid);
    assert s.ready[0] == idleTid;
  }

  /** What schedule() needs of the state it is called in: everything of `Inv`
      except that the running thread has just been given another status. */
  ghost predicate Leaving(s: Sched) {
    && s.current in s.status && s.status[s.current] != Running
    && (forall t :: t in s.status ==> s.status[t] != Running)
    && NoDup(s.ready)
    && (forall t :: t in s.ready ==> t in s.status && s.status[t] == Ready && s.idle != Some(t))
    && (forall t :: t in s.status && s.status[t] == Ready && s.idle != Some(t) ==> t in s.ready)
    && (forall t :: t in s.status && s.status[t] == Dying ==> t == s.initial || t == s.current)
    && s.idleTid != s.initial
    && s.idleTid in s.status && s.status[s.idleTid] != Dying
    && (s.idle.Some? ==> s.idle.value == s.idleTid)
    && (s.idle.None? ==> s.status[s.idleTid] != Blocked)
  }

  lemma ScheduleInv(s: Sched)
    requires Leaving(s) && PickNext(s).Some?
    ensures Inv(Schedule(s))
    ensures s.current != Schedule(s).current || s.status[s.current] == Ready || s.idle == Some(s.current)
  {
    var s' := Schedule(s);
    var next := PickNext(s).value;
    if s.ready != [] {
      assert s.ready[0] in s.ready;
      forall t | t in s'.status && s'.status[t] == Ready && s'.idle != Some(t)
        ensures t in s'.ready
      {
        assert t in s.ready;
        var i :| 0 <= i < |s.ready| && s.ready[i] == t;
        assert s'.ready[i - 1] == t;
      }
    }
  }

  lemma RequeueLeaves(s: Sched)
    requires Inv(s)
    ensures Leaving(Requeue(s))
  {
    var r := Requeue(s);
    assert s.current !in s.ready;
    if s.idle != Some(s.current) {
      assert r.ready[|s.ready|] == s.current;
      forall t | t in s.ready
        ensures t in r.ready
      {
        var i :| 0 <= i < |s.ready| && s.ready[i] == t;
        assert r.ready[i] == t;
      }
    }
  }

  lemma UnblockInv(s: Sched, t: Tid)
    requires Inv(s) && Enabled(s, DoUnblock(t))
    ensures Inv(Unblock(s, t))
  {
    var s' := Unblock(s, t);
    assert s'.ready[|s.ready|] == t;
    forall u | u in s.ready
      ensures u in s'.ready
    {
      var i :| 0 <= i < |s.ready| && s.ready[i] == u;
      assert s'.ready[i] == u;
    }
  }

  /** Every step keeps the invariant, and the switch it makes is defined. */
  lemma StepInv(s: Sched, op: Op)
    requires Inv(s) && Enabled(s, op)
    ensures PickNext(Requeue(s)).Some? && (op.DoBlock? || op.DoExit? ==> PickNext(s).Some?)
    ensures Inv(Apply(s, op))
  {
    NextExists(s, op);
    match op
    case DoBlock => ScheduleInv(s.(status := s.status[s.current := Blocked]));
    case DoExit => ScheduleInv(s.(status := s.status[s.current := Dying]));
    case DoUnblock(t) => UnblockInv(s, t);
    case DoYield =>
      RequeueLeaves(s);
      ScheduleInv(Requeue(s));
    case DoTick =>
      RequeueLeaves(s);
      ScheduleInv(Requeue(s));
    case DoInit(t) =>
    case DoAnnounceIdle =>
  }

  /** A thread other than the idle thread becomes blocked, or stops being
      blocked, only by blocking itself or by being unblocked; only exiting
      makes a thread die or disappear. */
  ghost predicate StatusChange(s: Sched, op: Op, s': Sched) {
    && s'.idleTid == s.idleTid
    && s.idleTid in s.status && s'.idleTid in s'.status && s'.status[s'.idleTid] != Dying
    && forall t ::
      && (t in s'.status ==> t in s.status || op == DoInit(t))
      && (op == DoInit(t) ==> t in s'.status)
      && (t in s.status && (t != s.current || !op.DoExit?) ==> t in s'.status)
      && (t in s'.status && s'.status[t] == Dying ==>
            t in s.status && (s.status[t] == Dying || (op.DoExit? && t == s.current)))
      && (t in s'.status && t != s.idleTid ==>
            (s'.status[t] == Blocked <==>
               || op == DoInit(t)
               || (op.DoBlock? && t == s.current)
               || (t in s.status && s.status[t] == Blocked && op != DoUnblock(t))))
  }

  lemma StatusOfAfterStep(s: Sched, op: Op, t: Tid)
    requires Inv(s) && Enabled(s, op)
    ensures PickNext(Requeue(s)).Some? && (op.DoBlock? || op.DoExit? ==> PickNext(s).Some?)
    ensures var s' := Apply(s, op);
      && (t in s'.status ==> t in s.status || op == DoInit(t))
      && (op == DoInit(t) ==> t in s'.status)
      && (t in s.status && (t != s.current || !op.DoExit?) ==> t in s'.status)
      && (t in s'.status && s'.status[t] == Dying ==>
            t in s.status && (s.status[t] == Dying || (op.DoExit? && t == s.current)))
      && (t in s'.status && t != s.idleTid ==>
            (s'.status[t] == Blocked <==>
               || op == DoInit(t)
               || (op.DoBlock? && t == s.current)
               || (t in s.status && s.status[t] == Blocked && op != DoUnblock(t))))
  {
    NextExists(s, op);
    assert s.ready != [] ==> s.ready[0] in s.ready;
  }

  lemma StatusAfterStep(s: Sched, op: Op)
    requires Inv(s) && Enabled(s, op)
    ensures PickNext(Requeue(s)).Some? && (op.DoBlock? || op.DoExit? ==> PickNext(s).Some?)
    ensures StatusChange(s, op, Apply(s, op))
  {
    StatusOfAfterStep(s, op, s.idleTid);
    forall t {
      StatusOfAfterStep(s, op, t);
    }
  }

  // -------------------------------------------------------------------- runs

  /** Can these steps be taken in order from s? */
  ghost predicate Legal(s: Sched, ops: seq<Op>)
    requires Inv(s)
    decreases |ops|
  {
    ops == [] || (Enabled(s, ops[0]) && (StepInv(s, ops[0]); Legal(Apply(s, ops[0]), ops[1..])))
  }

  ghost function Run(s: Sched, ops: seq<Op>): (r: Sched)
    requires Inv(s) && Legal(s, ops)
    ensures Inv(r)
    decreases |ops|
  {
    if ops == [] then s else (StepInv(s, ops[0]); Run(Apply(s, ops[0]), ops[1..]))
  }

  /** The number of schedule() calls in a run. */
  ghost function Switches(s: Sched, ops: seq<Op>): nat
    requires Inv(s) && Legal(s, ops)
    decreases |ops|
  {
    if ops == [] then 0
    else
      StepInv(s, ops[0]);
      (if Schedules(s, ops[0]) then 1 else 0) + Switches(Apply(s, ops[0]), ops[1..])
  }

  /** The number of timer interrupts in a run. */
  function Ticks(ops: seq<Op>): nat {
    if ops == [] then 0 else (if ops[0].DoTick? then 1 else 0) + Ticks(ops[1..])
  }

  /** One step: a queued thread keeps its place, or moves up by one, or, if it
      was first, is running when the schedule() call returns. */
  lemma PlaceAfterStep(s: Sched, op: Op, k: nat)
    requires Inv(s) && Enabled(s, op) && k < |s.ready|
    ensures PickNext(Requeue(s)).Some? && (op.DoBlock? || op.DoExit? ==> PickNext(s).Some?)
    ensures var s' := Apply(s, op); var t := s.ready[k];
      && (!Schedules(s, op) ==> k < |s'.ready| && s'.ready[k] == t)
      && (Schedules(s, op) && k > 0 ==> k - 1 < |s'.ready| && s'.ready[k - 1] == t)
      && (Schedules(s, op) && k == 0 ==> s'.current == t && t in s'.status && s'.status[t] == Running)
  {
    StepInv(s, op);
  }

  /** Bounded waiting, first half: until a queued thread has its turn it stays
      queued, at its place less the number of schedule() calls made so far. */
  lemma {:induction false} PlaceAfterRun(s: Sched, ops: seq<Op>, k: nat)
    requires Inv(s) && Legal(s, ops) && k < |s.ready|
    requires Switches(s, ops) <= k
    ensures var r := Run(s, ops); var j := k - Switches(s, ops);
      j < |r.ready| && r.ready[j] == s.ready[k]
    decreases |ops|
  {
    if ops != [] {
      PlaceAfterStep(s, ops[0], k);
      StepInv(s, ops[0]);
      PlaceAfterRun(Apply(s, ops[0]), ops[1..], if Schedules(s, ops[0]) then k - 1 else k);
    }
  }

  /** Bounded waiting, second half: the thread at place k is the one that the
      (k+1)-th schedule() call switches to, whatever happens in between. */
  lemma DispatchedAtItsTurn(s: Sched, ops: seq<Op>, op: Op, k: nat)
    requires Inv(s) && Legal(s, ops) && k < |s.ready|
    requires Switches(s, ops) == k
    requires Enabled(Run(s, ops), op) && Schedules(Run(s, ops), op)
    ensures PickNext(Requeue(Run(s, ops))).Some?
    ensures op.DoBlock? || op.DoExit? ==> PickNext(Run(s, ops)).Some?
    ensures Apply(Run(s, ops), op).current == s.ready[k]
  {
    PlaceAfterRun(s, ops, k);
    PlaceAfterStep(Run(s, ops), op, 0);
  }

  /** A slice is at most TIME_SLICE ticks long, whoever runs in it. */
  lemma {:induction false} TicksForceSwitches(s: Sched, ops: seq<Op>)
    requires Inv(s) && Legal(s, ops)
    ensures Ticks(ops) + s.ticks <= TIME_SLICE * Switches(s, ops) + Run(s, ops).ticks
    decreases |ops|
  {
    if ops != [] {
      StepInv(s, ops[0]);
      TicksForceSwitches(Apply(s, ops[0]), ops[1..]);
    }
  }

  /** So the thread at place k has had its turn once the clock has ticked
      TIME_SLICE * (k + 1) times, less what the slice had already used. */
  lemma TurnComesWithinTicks(s: Sched, ops: seq<Op>, k: nat)
    requires Inv(s) && Legal(s, ops) && k < |s.ready|
    requires Ticks(ops) + s.ticks >= TIME_SLICE * (k + 1)
    ensures Switches(s, ops) > k
  {
    TicksForceSwitches(s, ops);
  }

  /** The slice of the running thread, exactly: a step that calls schedule() starts a
      new one, a tick that does not adds one to it, and nothing else touches it. */
  lemma SliceAfterStep(s: Sched, op: Op)
    requires Inv(s) && Enabled(s, op)
    ensures PickNext(Requeue(s)).Some? && (op.DoBlock? || op.DoExit? ==> PickNext(s).Some?)
    ensures Schedules(s, op) ==> Apply(s, op).ticks == 0
    ensures !Schedules(s, op) ==>
      && Apply(s, op).ticks == s.ticks + (if op.DoTick? then 1 else 0)
      && Apply(s, op).current == s.current
  {
    NextExists(s, op);
  }

  /** thread_yield gives the processor to the thread that has waited longest, and the
      one that yields waits behind all others. */
  lemma YieldGoesRound(s: Sched)
    requires s.ready != []
    ensures PickNext(Requeue(s)).Some?
    ensures var s' := Yield(s);
      && s'.current == s.ready[0] && s'.ticks == 0
      && s'.ready == s.ready[1..] + if s.idle == Some(s.current) then [] else [s.current]
  {
  }

  /** The running thread does not give up the processor itself. */
  predicate Keeps(op: Op) {
    !op.DoBlock? && !op.DoYield? && !op.DoExit?
  }

  /** While no thread gives up the processor itself, the clock takes it away at every
      TIME_SLICE-th tick, no later and no earlier. */
  lemma {:induction false} ClockSwitchesExactly(s: Sched, ops: seq<Op>)
    requires Inv(s) && Legal(s, ops) && forall op :: op in ops ==> Keeps(op)
    ensures s.ticks + Ticks(ops) == TIME_SLICE * Switches(s, ops) + Run(s, ops).ticks
    ensures Switches(s, ops) == (s.ticks + Ticks(ops)) / TIME_SLICE
    decreases |ops|
  {
    if ops != [] {
      assert Keeps(ops[0]);
      StepInv(s, ops[0]);
      SliceAfterStep(s, ops[0]);
      ClockSwitchesExactly(Apply(s, ops[0]), ops[1..]);
    }
  }

  /** Without a schedule() call the same thread runs on. */
  lemma {:induction false} RunsOn(s: Sched, ops: seq<Op>)
    requires Inv(s) && Legal(s, ops) && Switches(s, ops) == 0
    ensures Run(s, ops).current == s.current && Run(s, ops).ticks == s.ticks + Ticks(ops)
    decreases |ops|
  {
    if ops != [] {
      StepInv(s, ops[0]);
      SliceAfterStep(s, ops[0]);
      RunsOn(Apply(s, ops[0]), ops[1..]);
    }
  }

  /** So the thread that schedule() has just switched to has the processor for the
      next TIME_SLICE - 1 ticks unless it gives it up, and not at the one after. */
  lemma SliceIsWhole(s: Sched, op: Op, ops: seq<Op>)
    requires Inv(s) && Enabled(s, op) && Schedules(s, op)
    requires (StepInv(s, op); Legal(Apply(s, op), ops)) && forall o :: o in ops ==> Keeps(o)
    ensures Switches(Apply(s, op), ops) == 0 <==> Ticks(ops) < TIME_SLICE
    ensures Ticks(ops) < TIME_SLICE ==> Run(Apply(s, op), ops).current == Apply(s, op).current
  {
    StepInv(s, op);
    var s' := Apply(s, op);
    SliceAfterStep(s, op);
    ClockSwitchesExactly(s', ops);
    if Switches(s', ops) == 0 {
      RunsOn(s', ops);
    }
  }

  /** A step destroys a thread exactly if that thread exits and is not the initial
      thread, whose page was not allocated. */
  lemma DestroyedExactly(s: Sched, op: Op, t: Tid)
    requires Inv(s) && Enabled(s, op) && t in s.status
    ensures PickNext(Requeue(s)).Some? && (op.DoBlock? || op.DoExit? ==> PickNext(s).Some?)
    ensures t !in Apply(s, op).status <==> op.DoExit? && t == s.current && t != s.initial
    ensures Apply(s, op).initial == s.initial
  {
    NextExists(s, op);
    assert s.ready != [] ==> s.ready[0] in s.ready;
  }

  /** So the initial thread is there in every run. */
  lemma {:induction false} InitialStays(s: Sched, ops: seq<Op>)
    requires Inv(s) && Legal(s, ops) && s.initial in s.status
    ensures Run(s, ops).initial == s.initial && s.initial in Run(s, ops).status
    decreases |ops|
  {
    if ops != [] {
      StepInv(s, ops[0]);
      DestroyedExactly(s, ops[0], s.initial);
      InitialStays(Apply(s, ops[0]), ops[1..]);
    }
  }

  // --------------------------------------------------------------- the class

  class Scheduler {
    var status: map<Tid, Status>
    var readyList: seq<Tid>
    var current: Tid
    var idleThread: Option<Tid>
    const idleTid: Tid
    const initialThread: Tid
    var threadTicks: nat

    ghost function View(): Sched
      reads this
    {
      Sched(status, readyList, current, idleThread, idleTid, initialThread, threadTicks)
    }

    constructor (main: Tid, idle: Tid)
      ensures View() == Boot(main, idle)
    {
      status := map[main := Running, idle := Ready];
      readyList := [idle];
      current := main;
      idleThread := None;
      idleTid := idle;
      initialThread := main;
      threadTicks := 0;
    }

    method NextThreadToRun() returns (next: Option<Tid>)
      modifies this`readyList
      ensures next == PickNext(old(View()))
      ensures readyList == if old(readyList) == [] then [] else old(readyList)[1..]
    {
      if |readyList| == 0 {
        next := idleThread;
      } else {
        next := Some(readyList[0]);
        readyList := readyList[1..];
      }
    }

    method ThreadScheduleTail(prev: Option<Tid>)
      modifies this`status, this`threadTicks
      ensures threadTicks == 0
      ensures status ==
        old(status)[current := Running] -
          (if prev.Some? && prev.value != current && prev.value in old(status) && old(status)[prev.value] == Dying &&
              prev.value != initialThread then {prev.value} else {})
    {
      status := status[current := Running];
      threadTicks := 0;
      if prev.Some? && prev.value in status && status[prev.value] == Dying && prev.value != initialThread {
        status := status - {prev.value};
      }
    }

    method ScheduleNext()
      requires PickNext(View()).Some?
      modifies this`status, this`readyList, this`current, this`threadTicks
      ensures View() == Schedule(old(View()))
    {
      var cur := current;
      var next := NextThreadToRun();
      var prev: Option<Tid> := None;
      if cur != next.value {
        prev := Some(cur);
        current := next.value;
      }
      ThreadScheduleTail(prev);
    }

    method ThreadBlock()
      requires PickNext(View()).Some?
      modifies this`status, this`readyList, this`current, this`threadTicks
      ensures View() == Block(old(View()))
    {
      status := status[current := Blocked];
      ScheduleNext();
    }

    method ThreadUnblock(t: Tid)
      requires t in status && status[t] == Blocked
      modifies this`status, this`readyList
      ensures View() == Unblock(old(View()), t)
    {
      readyList := readyList + [t];
      status := status[t := Ready];
    }

    method ThreadYield()
      requires PickNext(Requeue(View())).Some?
      modifies this`status, this`readyList, this`current, this`threadTicks
      ensures View() == Yield(old(View()))
    {
      if Some(current) != idleThread {
        readyList := readyList + [current];
      }
      status := status[current := Ready];
      ScheduleNext();
    }

    method ThreadExit()
      requires PickNext(View()).Some?
      modifies this`status, this`readyList, this`current, this`threadTicks
      ensures View() == Exit(old(View()))
    {
      status := status[current := Dying];
      ScheduleNext();
    }

    method ThreadTick()
      requires PickNext(Requeue(View())).Some?
      modifies this`status, this`readyList, this`current, this`threadTicks
      ensures View() == Tick(old(View()))
    {
      threadTicks := threadTicks + 1;
      if threadTicks >= TIME_SLICE {
        ThreadYield();
      }
    }
  }
}
