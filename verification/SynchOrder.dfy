/**
 In which order the threads asleep on a semaphore are woken.  Who has fallen asleep
 and who has been woken is read off from where the threads stand before and after an
 event, and ups are counted as events, so that nothing here depends on how the list of
 waiters is kept.
 */
module SynchOrder {
  import opened Common
  import Threads
  import opened Synch
  import opened SynchSystem

  /** The waiters of a semaphore; cond_wait's has none before it is made. */
  function WaitersOf(k: Kernel, s: SemaId): seq<Threads.Tid> {
    if s in k.semas then k.semas[s].m.waiters else []
  }

  predicate AsleepOn(k: Kernel, t: Threads.Tid, s: SemaId) {
    t in k.pc && k.pc[t].Asleep? && k.pc[t].sema == s
  }

  /** The thread asleep on s in one state and not in the other, if there is one. */
  ghost function OnlyIn(k: Kernel, other: Kernel, s: SemaId): seq<Threads.Tid> {
    if exists t :: AsleepOn(k, t, s) && !AsleepOn(other, t, s) then
      var t :| AsleepOn(k, t, s) && !AsleepOn(other, t, s);
      [t]
    else []
  }

  /** The semaphore that an event ups. */
  function UpOf(k: Kernel, e: Event): Option<SemaId>
    requires Active(k)
  {
    match e
    case UpUser(id) => Some(UserSema(id))
    case FinishRelease => if At(k).Releasing? then Some(LockSema(At(k).l)) else None
    case FinishSignal => if At(k).Signalling? then Some(WaiterSema(At(k).w)) else None
    case _ => None
  }

  /** The waiters after an event: an up takes off the front, and a thread that falls
      asleep comes last. */
  ghost predicate QueueMoves(w: seq<Threads.Tid>, w': seq<Threads.Tid>, up: bool, t: Threads.Tid) {
    if up then w' == if w == [] then [] else w[1..]
    else w' == w || w' == w + [t]
  }

  lemma UpQueue(k: Kernel, r: SemaId, s: SemaId)
    requires r in k.semas
    ensures QueueMoves(WaitersOf(k, s), WaitersOf(UpStep(k, r), s), r == s, k.sched.current)
  {
  }

  lemma PassQueue(k: Kernel, s: SemaId)
    requires Defined(k, Pass)
    ensures QueueMoves(WaitersOf(k, s), WaitersOf(PassStep(k), s), false, k.sched.current)
  {
  }

  lemma SchedulerQueue(k: Kernel, e: Event, s: SemaId)
    requires Defined(k, e) && SchedulerEvent(e)
    ensures WaitersOf(Step(k, e), s) == WaitersOf(k, s)
  {
  }

  lemma SemaMoveQueue(k: Kernel, e: Event, s: SemaId)
    requires Defined(k, e) && SemaMove(e)
    ensures WaitersOf(Step(k, e), s) == WaitersOf(k, s)
  {
  }

  lemma LockMoveQueue(k: Kernel, e: Event, s: SemaId)
    requires Defined(k, e) && LockMove(e)
    requires e.Wait? ==> WaitersOf(k, WaiterSema(k.sched.current)) == []
    ensures WaitersOf(Step(k, e), s) == WaitersOf(k, s)
  {
  }

  lemma FirstIsThere<T>(w: seq<T>)
    ensures w != [] ==> w[0] in w
  {
  }

  lemma NoOwnWaiters(k: Kernel, e: Event)
    requires Inv(k) && CanHappen(k, e) && e.Wait?
    ensures WaitersOf(k, WaiterSema(k.sched.current)) == []
  {
    NobodyOnOwnSema(k, k.sched.current);
    SleepersAreWaiters(k, WaiterSema(k.sched.current));
    FirstIsThere(WaitersOf(k, WaiterSema(k.sched.current)));
  }

  lemma StepMovesQueue(k: Kernel, e: Event, s: SemaId)
    requires Inv(k) && CanHappen(k, e) && Defined(k, e)
    ensures QueueMoves(WaitersOf(k, s), WaitersOf(Step(k, e), s), UpOf(k, e) == Some(s), k.sched.current)
  {
    hide QueueMoves, Inv;
    if e.Pass? {
      PassQueue(k, s);
    } else if e.UpUser? {
      UpQueue(k, UserSema(e.id), s);
    } else if e.FinishRelease? {
      UpQueue(Depart(k), LockSema(At(k).l), s);
    } else if e.FinishSignal? {
      UpQueue(Goto(k, Outside), WaiterSema(At(k).w), s);
    } else {
      if SchedulerEvent(e) {
        SchedulerQueue(k, e, s);
      } else if SemaMove(e) {
        SemaMoveQueue(k, e, s);
      } else {
        if e.Wait? {
          NoOwnWaiters(k, e);
        }
        LockMoveQueue(k, e, s);
      }
      SameMoves(WaitersOf(k, s), k.sched.current);
    }
  }

  lemma SameMoves(w: seq<Threads.Tid>, t: Threads.Tid)
    ensures QueueMoves(w, w, false, t)
  {
  }

  /** The waiters are the threads asleep, once each. */
  lemma SleepersAreWaiters(k: Kernel, s: SemaId)
    requires Inv(k)
    ensures forall t :: t in WaitersOf(k, s) <==> AsleepOn(k, t, s)
    ensures NoDup(WaitersOf(k, s))
  {
    if s in k.semas {
      assert SemaOk(k.pc, s, k.semas[s]);
    } else {
      forall t | t in k.pc ensures !AsleepOn(k, t, s) {
        assert Typed(k, t, k.pc[t]);
      }
    }
  }

  /** The running thread does not sleep. */
  lemma RunningIsAwake(k: Kernel, s: SemaId)
    requires Inv(k)
    ensures !AsleepOn(k, k.sched.current, s)
  {
    assert StatusOk(k.sched, k.sched.current, k.pc[k.sched.current]);
  }

  /** What queues that move this way say of who fell asleep and who woke. */
  lemma MovesMean(k: Kernel, k': Kernel, s: SemaId, up: bool, t: Threads.Tid)
    requires Inv(k) && Inv(k') && !AsleepOn(k, t, s)
    requires QueueMoves(WaitersOf(k, s), WaitersOf(k', s), up, t)
    ensures var w, w' := WaitersOf(k, s), WaitersOf(k', s);
      && (forall u :: AsleepOn(k, u, s) && !AsleepOn(k', u, s) <==> u in OnlyIn(k, k', s))
      && (forall u :: AsleepOn(k', u, s) && !AsleepOn(k, u, s) <==> u in OnlyIn(k', k, s))
      && OnlyIn(k, k', s) == (if up && w != [] then [w[0]] else [])
      && OnlyIn(k', k, s) == (if |w'| > |w| then [t] else [])
      && w + OnlyIn(k', k, s) == OnlyIn(k, k', s) + w'
  {
    hide Inv;
    SleepersAreWaiters(k, s);
    SleepersAreWaiters(k', s);
    var w, w' := WaitersOf(k, s), WaitersOf(k', s);
    if up && w != [] {
      assert w == [w[0]] + w[1..];
      assert w[0] !in w[1..];
      forall u ensures AsleepOn(k, u, s) && !AsleepOn(k', u, s) <==> u == w[0] {
      }
    } else if |w'| > |w| {
      forall u ensures AsleepOn(k', u, s) && !AsleepOn(k, u, s) <==> u == t {
      }
    }
  }

  /** One event: at most one thread falls asleep and at most one wakes, the one that
      wakes is the first of the waiters, and it does so exactly if the event is an up. */
  lemma QueueAfterStep(k: Kernel, e: Event, s: SemaId)
    requires Inv(k) && CanHappen(k, e)
    ensures Defined(k, e)
    ensures var k', w := Step(k, e), WaitersOf(k, s);
      && (forall u :: AsleepOn(k, u, s) && !AsleepOn(k', u, s) <==> u in OnlyIn(k, k', s))
      && (forall u :: AsleepOn(k', u, s) && !AsleepOn(k, u, s) <==> u in OnlyIn(k', k, s))
      && OnlyIn(k, k', s) == (if UpOf(k, e) == Some(s) && w != [] then [w[0]] else [])
      && w + OnlyIn(k', k, s) == OnlyIn(k, k', s) + WaitersOf(k', s)
      && (OnlyIn(k', k, s) == [] || OnlyIn(k', k, s) == [k.sched.current])
  {
    hide Inv, CanHappen, Defined, Step, UpOf, QueueMoves, OnlyIn;
    StepKeepsInv(k, e);
    StepMovesQueue(k, e, s);
    RunningIsAwake(k, s);
    MovesMean(k, Step(k, e), s, UpOf(k, e) == Some(s), k.sched.current);
  }

  // -------------------------------------------------------------------- runs

  /** Who falls asleep on s in a run, in order. */
  ghost function Slept(k: Kernel, es: seq<Event>, s: SemaId): seq<Threads.Tid>
    requires Inv(k) && Legal(k, es)
    decreases |es|
  {
    if es == [] then []
    else
      StepKeepsInv(k, es[0]);
      OnlyIn(Step(k, es[0]), k, s) + Slept(Step(k, es[0]), es[1..], s)
  }

  /** Who is woken on s in a run, in order. */
  ghost function Awoken(k: Kernel, es: seq<Event>, s: SemaId): seq<Threads.Tid>
    requires Inv(k) && Legal(k, es)
    decreases |es|
  {
    if es == [] then []
    else
      StepKeepsInv(k, es[0]);
      OnlyIn(k, Step(k, es[0]), s) + Awoken(Step(k, es[0]), es[1..], s)
  }

  /** The number of ups of s in a run. */
  ghost function Ups(k: Kernel, es: seq<Event>, s: SemaId): nat
    requires Inv(k) && Legal(k, es)
    decreases |es|
  {
    if es == [] then 0
    else
      StepKeepsInv(k, es[0]);
      (if UpOf(k, es[0]) == Some(s) then 1 else 0) + Ups(Step(k, es[0]), es[1..], s)
  }

  lemma QueuesJoin<T>(w: seq<T>, s0: seq<T>, a0: seq<T>, w': seq<T>, s1: seq<T>, a1: seq<T>, w'': seq<T>)
    requires w + s0 == a0 + w' && w' + s1 == a1 + w''
    ensures w + (s0 + s1) == (a0 + a1) + w''
  {
    assert w + (s0 + s1) == (w + s0) + s1 == a0 + (w' + s1);
  }

  /** Over every run the waiters at its start and then those who fell asleep in it are
      those woken in it and then the waiters at its end, in that order. */
  lemma {:induction false} WokenInOrder(k: Kernel, es: seq<Event>, s: SemaId)
    requires Inv(k) && Legal(k, es)
    ensures WaitersOf(k, s) + Slept(k, es, s) == Awoken(k, es, s) + WaitersOf(Run(k, es), s)
    decreases |es|
  {
    hide Inv, CanHappen, Defined, Step, UpOf, OnlyIn;
    if es != [] {
      StepKeepsInv(k, es[0]);
      var k' := Step(k, es[0]);
      QueueAfterStep(k, es[0], s);
      WokenInOrder(k', es[1..], s);
      QueuesJoin(WaitersOf(k, s), OnlyIn(k', k, s), OnlyIn(k, k', s), WaitersOf(k', s), Slept(k', es[1..], s),
        Awoken(k', es[1..], s), WaitersOf(Run(k', es[1..]), s));
    }
  }

  /** So from boot on the n-th thread woken on s is the n-th that fell asleep on it, and
      those not yet woken are the waiters. */
  lemma FirstAsleepFirstWoken(main: Threads.Tid, idleTid: Threads.Tid, values: map<SemaId, nat>, locks: set<LockId>,
                              conds: set<Cond>, es: seq<Event>, s: SemaId, n: nat)
    requires Bootable(main, idleTid, values, locks, conds)
    requires (BootKeepsInv(main, idleTid, values, locks, conds);
              Legal(Boot(main, idleTid, values, locks, conds), es))
    ensures var k := Boot(main, idleTid, values, locks, conds);
      && |Awoken(k, es, s)| <= |Slept(k, es, s)|
      && (n < |Awoken(k, es, s)| ==> Awoken(k, es, s)[n] == Slept(k, es, s)[n])
      && WaitersOf(Run(k, es), s) == Slept(k, es, s)[|Awoken(k, es, s)|..]
  {
    BootKeepsInv(main, idleTid, values, locks, conds);
    var k := Boot(main, idleTid, values, locks, conds);
    WokenInOrder(k, es, s);
    assert WaitersOf(k, s) == [];
    SplitHistory(Slept(k, es, s), Awoken(k, es, s), WaitersOf(Run(k, es), s), n);
  }

  lemma SplitHistory<T>(slept: seq<T>, awoken: seq<T>, waiters: seq<T>, n: nat)
    requires [] + slept == awoken + waiters
    ensures |awoken| <= |slept| && (n < |awoken| ==> awoken[n] == slept[n]) && waiters == slept[|awoken|..]
  {
    assert slept == awoken + waiters;
  }

  /** A thread at place i of the waiters sleeps on through i ups, at its place less the
      ups so far ... */
  lemma {:induction false} SleepsOn(k: Kernel, es: seq<Event>, s: SemaId, i: nat)
    requires Inv(k) && Legal(k, es) && i < |WaitersOf(k, s)| && Ups(k, es, s) <= i
    ensures var j, w := i - Ups(k, es, s), WaitersOf(Run(k, es), s);
      j < |w| && w[j] == WaitersOf(k, s)[i] && AsleepOn(Run(k, es), w[j], s)
    decreases |es|
  {
    hide Inv, CanHappen, Defined, Step, UpOf, OnlyIn, AsleepOn;
    if es == [] {
      SleepersAreWaiters(k, s);
      assert WaitersOf(k, s)[i] in WaitersOf(k, s);
    } else {
      StepKeepsInv(k, es[0]);
      var k' := Step(k, es[0]);
      QueueAfterStep(k, es[0], s);
      PlaceMoves(WaitersOf(k, s), OnlyIn(k', k, s), WaitersOf(k', s), UpOf(k, es[0]) == Some(s), i);
      SleepsOn(k', es[1..], s, if UpOf(k, es[0]) == Some(s) then i - 1 else i);
    }
  }

  lemma PlaceMoves<T>(w: seq<T>, slept: seq<T>, w': seq<T>, up: bool, i: nat)
    requires w + slept == (if up && w != [] then [w[0]] else []) + w' && i < |w|
    ensures var j := if up then i - 1 else i; j >= 0 ==> j < |w'| && w'[j] == w[i]
  {
    var all := w + slept;
    assert all[i] == w[i];
    if up {
      assert all[1..] == w';
    } else {
      assert all == w';
    }
  }

  /** ... and the next up wakes it, and nobody else. */
  lemma WokenAtItsUp(k: Kernel, es: seq<Event>, s: SemaId, i: nat, e: Event)
    requires Inv(k) && Legal(k, es) && i < |WaitersOf(k, s)| && Ups(k, es, s) == i
    requires CanHappen(Run(k, es), e) && UpOf(Run(k, es), e) == Some(s)
    ensures var t, r := WaitersOf(k, s)[i], Run(k, es);
      && Defined(r, e) && t in WokenOn(Step(r, e).pc, s)
      && forall u :: AsleepOn(r, u, s) && u != t ==> AsleepOn(Step(r, e), u, s)
  {
    hide Inv, CanHappen, Defined, Step, UpOf, AsleepOn;
    var t, r := WaitersOf(k, s)[i], Run(k, es);
    SleepsOn(k, es, s, i);
    StepKeepsInv(r, e);
    QueueAfterStep(r, e, s);
    UpWakesOne(r, e, s);
  }

  lemma FirstWakes(k: Kernel, s: SemaId)
    requires s in k.semas && WaitersOf(k, s) != [] && AsleepOn(k, WaitersOf(k, s)[0], s)
    ensures WaitersOf(k, s)[0] in WokenOn(UpStep(k, s).pc, s)
  {
  }

  /** A thread that an up takes off the waiters is woken: it is to retest the loop. */
  lemma UpWakesOne(k: Kernel, e: Event, s: SemaId)
    requires Inv(k) && CanHappen(k, e) && Defined(k, e) && UpOf(k, e) == Some(s) && WaitersOf(k, s) != []
    ensures WaitersOf(k, s)[0] in WokenOn(Step(k, e).pc, s)
  {
    hide Inv, WokenOn;
    FirstIsThere(WaitersOf(k, s));
    SleepersAreWaiters(k, s);
    RunningIsAwake(k, s);
    if e.UpUser? {
      FirstWakes(k, s);
    } else if e.FinishRelease? {
      FirstWakes(Depart(k), s);
    } else {
      FirstWakes(Goto(k, Outside), s);
    }
  }

  // -------------------------------------------------------- the count over runs

  /** Does this event take a unit of s? */
  predicate Takes(k: Kernel, e: Event, s: SemaId)
    requires Active(k)
  {
    && s in k.semas && k.semas[s].m.value > 0
    && match e
       case Pass => (At(k).AtDown? || At(k).Woken?) && At(k).sema == s
       case TryDownUser(id) => s == UserSema(id)
       case TryAcquire(l) => s == LockSema(l)
       case _ => false
  }

  ghost function Downs(k: Kernel, es: seq<Event>, s: SemaId): nat
    requires Inv(k) && Legal(k, es)
    decreases |es|
  {
    if es == [] then 0
    else
      StepKeepsInv(k, es[0]);
      (if Takes(k, es[0], s) then 1 else 0) + Downs(Step(k, es[0]), es[1..], s)
  }

  lemma ValueIsWord(k: Kernel, s: SemaId)
    requires Inv(k) && s in k.semas
    ensures k.semas[s].m.value < TWO32
  {
    assert SemaOk(k.pc, s, k.semas[s]);
  }

  lemma UpCount(k: Kernel, r: SemaId, s: SemaId)
    requires r in k.semas && s in k.semas && k.semas[s].m.value < TWO32
    ensures s in UpStep(k, r).semas
    ensures UpStep(k, r).semas[s].m.value == (k.semas[s].m.value + (if r == s then 1 else 0)) % TWO32
  {
  }

  lemma PassCount(k: Kernel, s: SemaId)
    requires Defined(k, Pass) && s in k.semas && k.semas[s].m.value < TWO32
    ensures s in PassStep(k).semas
    ensures PassStep(k).semas[s].m.value == (k.semas[s].m.value - (if Takes(k, Pass, s) then 1 else 0)) % TWO32
  {
    hide SleepStep, LeaveStep;
    if k.semas[At(k).sema].m.value == 0 {
      SleepCount(k, s);
    } else {
      LeaveCount(k, s);
    }
  }

  lemma SleepCount(k: Kernel, s: SemaId)
    requires Defined(k, Pass) && s in k.semas && k.semas[At(k).sema].m.value == 0
    ensures s in SleepStep(k).semas && SleepStep(k).semas[s].m.value == k.semas[s].m.value
  {
    hide Threads.Block;
  }

  lemma LeaveCount(k: Kernel, s: SemaId)
    requires Defined(k, Pass) && s in k.semas && k.semas[At(k).sema].m.value > 0
    ensures s in LeaveStep(k).semas
    ensures LeaveStep(k).semas[s].m.value == if s == At(k).sema then k.semas[s].m.value - 1 else k.semas[s].m.value
  {
  }

  lemma SemaMoveCount(k: Kernel, e: Event, s: SemaId)
    requires Defined(k, e) && SemaMove(e) && s in k.semas && k.semas[s].m.value < TWO32
    ensures s in Step(k, e).semas
    ensures Step(k, e).semas[s].m.value == (k.semas[s].m.value - (if Takes(k, e, s) then 1 else 0)) % TWO32
  {
  }

  lemma OtherCount(k: Kernel, e: Event, s: SemaId)
    requires Defined(k, e) && (SchedulerEvent(e) || LockMove(e))
    requires s in k.semas && k.semas[s].m.value < TWO32 && !s.WaiterSema?
    ensures s in Step(k, e).semas && Step(k, e).semas[s].m.value == k.semas[s].m.value
  {
  }

  lemma CountAfterStep(k: Kernel, e: Event, s: SemaId)
    requires Inv(k) && CanHappen(k, e) && Defined(k, e) && s in k.semas && !s.WaiterSema?
    ensures s in Step(k, e).semas
    ensures Step(k, e).semas[s].m.value ==
      (k.semas[s].m.value + (if UpOf(k, e) == Some(s) then 1 else 0) - (if Takes(k, e, s) then 1 else 0)) % TWO32
  {
    hide Inv;
    ValueIsWord(k, s);
    if e.Pass? {
      PassCount(k, s);
    } else if e.UpUser? {
      UpCount(k, UserSema(e.id), s);
    } else if e.FinishRelease? {
      UpCount(Depart(k), LockSema(At(k).l), s);
    } else if e.FinishSignal? {
      UpCount(Goto(k, Outside), WaiterSema(At(k).w), s);
    } else if SemaMove(e) {
      SemaMoveCount(k, e, s);
    } else {
      OtherCount(k, e, s);
    }
  }

  /** Over every run the count changes by the ups less the units taken. */
  lemma {:induction false} CountOverRun(k: Kernel, es: seq<Event>, s: SemaId)
    requires Inv(k) && Legal(k, es) && s in k.semas && !s.WaiterSema?
    ensures s in Run(k, es).semas
    ensures Run(k, es).semas[s].m.value ==
      (k.semas[s].m.value + Ups(k, es, s) - Downs(k, es, s)) % TWO32
    decreases |es|
  {
    hide Inv, CanHappen, Defined, Step, UpOf, Takes;
    if es == [] {
      CountIsUpsLessDowns(k, s);
    } else {
      StepKeepsInv(k, es[0]);
      CountAfterStep(k, es[0], s);
      CountOverRun(Step(k, es[0]), es[1..], s);
      RemainderJoins(k.semas[s].m.value,
        (if UpOf(k, es[0]) == Some(s) then 1 else 0) - (if Takes(k, es[0], s) then 1 else 0),
        Ups(Step(k, es[0]), es[1..], s) - Downs(Step(k, es[0]), es[1..], s));
    }
  }

  lemma RemainderJoins(v: int, x: int, y: int)
    ensures ((v + x) % TWO32 + y) % TWO32 == (v + (x + y)) % TWO32
  {
  }

  // ------------------------------------------------ what the calls return with

  /** In the loop of sema_down. */
  predicate InDown(pc: Pc, s: SemaId, cont: Cont) {
    (pc.AtDown? || pc.Asleep? || pc.Woken?) && pc.sema == s && pc.cont == cont
  }

  lemma UpStaysInDown(k: Kernel, r: SemaId, t: Threads.Tid, s: SemaId, cont: Cont)
    requires r in k.semas && t in k.pc && InDown(k.pc[t], s, cont)
    ensures t in UpStep(k, r).pc && InDown(UpStep(k, r).pc[t], s, cont)
  {
  }

  lemma PassInDown(k: Kernel, t: Threads.Tid, s: SemaId, cont: Cont)
    requires Defined(k, Pass) && t in k.pc && InDown(k.pc[t], s, cont)
    ensures t in PassStep(k).pc
    ensures if t == k.sched.current && Takes(k, Pass, s) then PassStep(k).pc[t] == AfterDown(cont)
      else InDown(PassStep(k).pc[t], s, cont)
  {
    hide SleepStep, LeaveStep, AfterDown;
    if k.semas[At(k).sema].m.value == 0 {
      SleepInDown(k, t, s, cont);
    } else {
      LeaveDown(k, t, s, cont);
    }
  }

  lemma SleepInDown(k: Kernel, t: Threads.Tid, s: SemaId, cont: Cont)
    requires Defined(k, Pass) && k.semas[At(k).sema].m.value == 0 && t in k.pc && InDown(k.pc[t], s, cont)
    ensures t in SleepStep(k).pc && InDown(SleepStep(k).pc[t], s, cont)
  {
    hide Threads.Block;
  }

  lemma LeaveDown(k: Kernel, t: Threads.Tid, s: SemaId, cont: Cont)
    requires Defined(k, Pass) && k.semas[At(k).sema].m.value > 0 && t in k.pc && InDown(k.pc[t], s, cont)
    ensures t in LeaveStep(k).pc
    ensures LeaveStep(k).pc[t] == if t == k.sched.current then AfterDown(cont) else k.pc[t]
  {
  }

  lemma OthersStayInDown(k: Kernel, e: Event, t: Threads.Tid, s: SemaId, cont: Cont)
    requires Defined(k, e) && CanHappen(k, e) && !e.Pass? && UpOf(k, e).None?
    requires t in k.pc && InDown(k.pc[t], s, cont)
    ensures t in Step(k, e).pc && InDown(Step(k, e).pc[t], s, cont)
  {
    hide Threads.Block, Threads.Yield, Threads.Tick, Threads.Unblock;
  }

  /** sema_down returns, to whatever is to follow, exactly when its caller takes a unit. */
  lemma DownReturnsWithUnit(k: Kernel, e: Event, t: Threads.Tid, s: SemaId, cont: Cont)
    requires Inv(k) && CanHappen(k, e) && t in k.pc && InDown(k.pc[t], s, cont)
    ensures Defined(k, e) && t in Step(k, e).pc
    ensures if e.Pass? && t == k.sched.current && Takes(k, e, s) then Step(k, e).pc[t] == AfterDown(cont)
      else InDown(Step(k, e).pc[t], s, cont)
  {
    hide Inv, InDown, Takes;
    StepKeepsInv(k, e);
    if e.Pass? {
      PassInDown(k, t, s, cont);
    } else if e.UpUser? {
      UpStaysInDown(k, UserSema(e.id), t, s, cont);
    } else if e.FinishRelease? {
      ReleaseStaysInDown(k, t, s, cont);
    } else if e.FinishSignal? {
      SignalStaysInDown(k, t, s, cont);
    } else {
      OthersStayInDown(k, e, t, s, cont);
    }
  }

  lemma ReleaseStaysInDown(k: Kernel, t: Threads.Tid, s: SemaId, cont: Cont)
    requires Defined(k, FinishRelease) && t in k.pc && InDown(k.pc[t], s, cont)
    ensures t in ReleaseStep(k).pc && InDown(ReleaseStep(k).pc[t], s, cont)
  {
    UpStaysInDown(Depart(k), LockSema(At(k).l), t, s, cont);
  }

  lemma SignalStaysInDown(k: Kernel, t: Threads.Tid, s: SemaId, cont: Cont)
    requires Defined(k, FinishSignal) && t in k.pc && InDown(k.pc[t], s, cont)
    ensures t in Step(k, FinishSignal).pc && InDown(Step(k, FinishSignal).pc[t], s, cont)
  {
    UpStaysInDown(Goto(k, Outside), WaiterSema(At(k).w), t, s, cont);
  }

  /** In lock_acquire, or in cond_wait with that lock. */
  predicate Acquiring(pc: Pc, l: LockId) {
    || Wants(pc, l) || pc == PastDown(l)
    || (pc.Enlisted? && pc.c.lock == l)
    || (pc.Releasing? && pc.wait.Some? && pc.wait.value.lock == l)
  }

  /** How far the call has come: queued, releasing, waiting for the signal, waiting for
      the lock, recording itself as the holder. */
  function Stage(pc: Pc): nat {
    match pc
    case Enlisted(_) => 0
    case Releasing(_, _) => 1
    case AtDown(_, cont) => if cont.Reacquire? then 2 else 3
    case Asleep(_, cont) => if cont.Reacquire? then 2 else 3
    case Woken(_, cont) => if cont.Reacquire? then 2 else 3
    case PastDown(_) => 4
    case _ => 5
  }

  /** Still in the call, at no earlier stage, or back in the caller as the holder. */
  ghost predicate GoesOn(k: Kernel, k': Kernel, t: Threads.Tid, l: LockId)
    requires t in k.pc
  {
    && t in k'.pc
    && (|| (Acquiring(k'.pc[t], l) && Stage(k.pc[t]) <= Stage(k'.pc[t]) <= Stage(k.pc[t]) + 1)
        || (k.pc[t] == PastDown(l) && k'.pc[t] == Outside && l in k'.holder && k'.holder[l] == Some(t)))
  }

  lemma UpGoesOn(k: Kernel, s: SemaId, t: Threads.Tid, l: LockId)
    requires s in k.semas && t in k.pc && Acquiring(k.pc[t], l)
    ensures var k' := UpStep(k, s); t in k'.pc && Acquiring(k'.pc[t], l) && Stage(k'.pc[t]) == Stage(k.pc[t])
  {
  }

  lemma PassGoesOn(k: Kernel, t: Threads.Tid, l: LockId)
    requires Defined(k, Pass) && t in k.pc && Acquiring(k.pc[t], l)
    ensures GoesOn(k, PassStep(k), t, l)
  {
    hide SleepStep, LeaveStep, GoesOn, Acquiring;
    if k.semas[At(k).sema].m.value == 0 {
      SleepGoesOn(k, t, l);
    } else {
      LeaveGoesOn(k, t, l);
    }
  }

  lemma SleepGoesOn(k: Kernel, t: Threads.Tid, l: LockId)
    requires Defined(k, Pass) && k.semas[At(k).sema].m.value == 0 && t in k.pc && Acquiring(k.pc[t], l)
    ensures GoesOn(k, SleepStep(k), t, l)
  {
    hide Threads.Block;
  }

  lemma LeaveGoesOn(k: Kernel, t: Threads.Tid, l: LockId)
    requires Defined(k, Pass) && k.semas[At(k).sema].m.value > 0 && t in k.pc && Acquiring(k.pc[t], l)
    ensures GoesOn(k, LeaveStep(k), t, l)
  {
  }

  lemma ReleaseGoesOn(k: Kernel, t: Threads.Tid, l: LockId)
    requires Defined(k, FinishRelease) && t in k.pc && Acquiring(k.pc[t], l)
    ensures GoesOn(k, ReleaseStep(k), t, l)
  {
    hide Synch.Up, Acquiring, Stage;
    DepartGoesOn(k, t, l);
    UpGoesOn(Depart(k), LockSema(At(k).l), t, l);
  }

  lemma DepartGoesOn(k: Kernel, t: Threads.Tid, l: LockId)
    requires Defined(k, FinishRelease) && t in k.pc && Acquiring(k.pc[t], l)
    ensures var k' := Depart(k);
      t in k'.pc && Acquiring(k'.pc[t], l) && Stage(k.pc[t]) <= Stage(k'.pc[t]) <= Stage(k.pc[t]) + 1
  {
  }

  lemma UserUpGoesOn(k: Kernel, e: Event, t: Threads.Tid, l: LockId)
    requires Defined(k, e) && e.UpUser? && t in k.pc && Acquiring(k.pc[t], l)
    ensures GoesOn(k, Step(k, e), t, l)
  {
    UpGoesOn(k, UserSema(e.id), t, l);
  }

  lemma SignalGoesOn(k: Kernel, t: Threads.Tid, l: LockId)
    requires Defined(k, FinishSignal) && t in k.pc && Acquiring(k.pc[t], l)
    ensures GoesOn(k, Step(k, FinishSignal), t, l)
  {
    UpGoesOn(Goto(k, Outside), WaiterSema(At(k).w), t, l);
  }

  lemma SchedulerGoesOn(k: Kernel, e: Event, t: Threads.Tid, l: LockId)
    requires Defined(k, e) && CanHappen(k, e) && SchedulerEvent(e) && t in k.pc && Acquiring(k.pc[t], l)
    ensures GoesOn(k, Step(k, e), t, l)
  {
  }

  lemma SemaMoveGoesOn(k: Kernel, e: Event, t: Threads.Tid, l: LockId)
    requires Defined(k, e) && CanHappen(k, e) && SemaMove(e) && t in k.pc && Acquiring(k.pc[t], l)
    ensures GoesOn(k, Step(k, e), t, l)
  {
  }

  lemma LockMoveGoesOn(k: Kernel, e: Event, t: Threads.Tid, l: LockId)
    requires Defined(k, e) && CanHappen(k, e) && LockMove(e) && t in k.pc && Acquiring(k.pc[t], l)
    ensures GoesOn(k, Step(k, e), t, l)
  {
  }

  /** lock_acquire and cond_wait go through their stages in order and return only as the
      holder of the lock; cond_wait is past the third stage only with the unit of its own
      semaphore, which is the signal (`SynchSystem.SignalReachesCaller`). */
  lemma ReturnsWithLock(k: Kernel, e: Event, t: Threads.Tid, l: LockId)
    requires Inv(k) && CanHappen(k, e) && t in k.pc && Acquiring(k.pc[t], l)
    ensures Defined(k, e) && GoesOn(k, Step(k, e), t, l)
  {
    hide Inv, GoesOn, Acquiring;
    StepKeepsInv(k, e);
    if SchedulerEvent(e) {
      SchedulerGoesOn(k, e, t, l);
    } else if e.Pass? {
      PassGoesOn(k, t, l);
    } else if e.UpUser? {
      UserUpGoesOn(k, e, t, l);
    } else if e.FinishRelease? {
      ReleaseGoesOn(k, t, l);
    } else if e.FinishSignal? {
      SignalGoesOn(k, t, l);
    } else if SemaMove(e) {
      SemaMoveGoesOn(k, e, t, l);
    } else {
      LockMoveGoesOn(k, e, t, l);
    }
  }

  lemma TryAcquireTakes(k: Kernel, l: LockId)
    requires Defined(k, TryAcquire(l)) && LockFine(k, l)
    ensures var k' := TryAcquireStep(k, l);
      if k.inside[l] == {} then k'.pc[k.sched.current] == PastDown(l) && k'.inside[l] == {k.sched.current}
      else k' == k
  {
  }

  /** The calls begin there, and lock_try_acquire takes the lock exactly if no thread is
      inside. */
  lemma CallsBegin(k: Kernel, e: Event)
    requires Inv(k) && CanHappen(k, e) && (e.Call? || e.Acquire? || e.Wait? || e.TryAcquire?)
    ensures Defined(k, e) && k.sched.current in Step(k, e).pc
    ensures var k', pc := Step(k, e), Step(k, e).pc[k.sched.current];
      match e
      case Call(id) => pc == AtDown(UserSema(id), Return)
      case Acquire(l) => pc == AtDown(LockSema(l), TakeLock(l)) && Acquiring(pc, l)
      case Wait(c) => pc == Enlisted(c) && Acquiring(pc, c.lock)
      case TryAcquire(l) =>
        && l in k.inside && l in k'.inside
        && if k.inside[l] == {} then pc == PastDown(l) && k'.inside[l] == {k.sched.current} else k' == k
      case _ => true
  {
    hide Inv, LockFine;
    StepKeepsInv(k, e);
    if e.TryAcquire? {
      LockIsFine(k, e.l);
      TryAcquireTakes(k, e.l);
    }
  }

  lemma LockIsFine(k: Kernel, l: LockId)
    requires Inv(k) && l in k.holder
    ensures LockFine(k, l)
  {
  }
}
