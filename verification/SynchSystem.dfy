/**
 Any number of threads running the primitives of threads/synch.c, interleaved
 by the scheduler of threads/thread.c.

 `Kernel` is the whole state; an `Event` is one step of the running thread, of
 an interrupt handler or of the timer.  A section that runs with interrupts off
 is one event; between two events of a thread anything else may happen.  A
 thread that has just been switched back to inside sema_down still has
 interrupts off, so its next event is the retest of the loop.
 */
module SynchSystem {
  import opened Common
  import opened Threads
  import opened Synch

  type LockId = nat

  /** A condition variable and the one lock it is used with. */
  datatype Cond = Cond(lock: LockId, id: nat)

  /** A plain semaphore, the one in a lock, or the one cond_wait has on the
      stack of thread t. */
  datatype SemaId = UserSema(id: nat) | LockSema(l: LockId) | WaiterSema(t: Tid)

  /** A semaphore with what happened to it since it was initialised. */
  datatype Counted = Counted(m: Sema, initial: nat, ups: nat, downs: nat)

  /** What a thread does after its sema_down returns. */
  datatype Cont = Return | TakeLock(l: LockId) | Reacquire(c: Cond)

  /** Where a thread stands in synch.c. */
  datatype Pc =
    | Outside
    | Fresh                                     // made by init_thread, not yet unblocked
    | AtDown(sema: SemaId, cont: Cont)          // about to test the loop of sema_down
    | Asleep(sema: SemaId, cont: Cont)          // in the waiters
    | Woken(sema: SemaId, cont: Cont)           // taken off the waiters, loop not retested
    | PastDown(l: LockId)                       // lock_acquire: holder not yet set
    | Releasing(l: LockId, wait: Option<Cond>)  // holder cleared, semaphore not yet upped
    | Enlisted(c: Cond)                         // cond_wait: queued, lock not yet released
    | Signalling(c: Cond, w: Tid)               // cond_signal: w taken off, not yet upped

  datatype Kernel = Kernel(
    sched: Sched,
    semas: map<SemaId, Counted>,
    holder: map<LockId, Option<Tid>>,
    queue: map<Cond, seq<Tid>>,      // cond->waiters
    pc: map<Tid, Pc>,
    inside: map<LockId, set<Tid>>,   // threads between a completed down of the lock and its up
    waits: map<Cond, seq<Tid>>,      // every call of cond_wait so far, in order
    signals: map<Cond, seq<Tid>>)    // the call each effective cond_signal chose, in order

  datatype Event =
    | Call(id: nat)            // sema_down on a plain semaphore is called
    | Pass                     // one pass of the loop in sema_down
    | TryDownUser(id: nat)     // sema_try_down, by the running thread or an interrupt handler
    | UpUser(id: nat)          // sema_up, by the running thread or an interrupt handler
    | Acquire(l: LockId)
    | TryAcquire(l: LockId)
    | SetHolder
    | Release(l: LockId)
    | FinishRelease
    | Wait(c: Cond)
    | ReleaseForWait
    | Signal(c: Cond)
    | FinishSignal
    | Preempt                  // thread_yield, called or forced
    | TimerTick
    | ThreadExits
    | Spawn(t: Tid)            // init_thread for a new thread
    | Start(t: Tid)            // thread_unblock of a new thread
    | IdleStarts
    | IdleBlocks

  // ---------------------------------------------------------------- the steps

  predicate Active(k: Kernel) {
    k.sched.current in k.pc
  }

  function At(k: Kernel): Pc
    requires Active(k)
  {
    k.pc[k.sched.current]
  }

  /** A thread other than the idle thread is running its own code. */
  predicate Free(k: Kernel) {
    Active(k) && At(k) == Outside && k.sched.current != k.sched.idleTid
  }

  predicate Holds(k: Kernel, l: LockId) {
    l in k.holder && k.holder[l] == Some(k.sched.current)
  }

  /** When can this event happen?  Thread code follows synch.c and the
      assertions in it; a lock is used only through the lock functions and
      cond_wait's semaphore only by cond_wait and cond_signal. */
  predicate CanHappen(k: Kernel, e: Event) {
    && Active(k)
    && (At(k).Woken? ==> e == Pass)
    && match e
       case Call(id) => Free(k) && UserSema(id) in k.semas
       case Pass => (At(k).AtDown? || At(k).Woken?) && At(k).sema in k.semas
       case TryDownUser(id) => UserSema(id) in k.semas
       case UpUser(id) => UserSema(id) in k.semas
       case Acquire(l) => Free(k) && l in k.holder && !Holds(k, l)
       case TryAcquire(l) => Free(k) && l in k.holder && !Holds(k, l)
       case SetHolder => At(k).PastDown?
       case Release(l) => Free(k) && Holds(k, l)
       case FinishRelease => At(k).Releasing?
       case Wait(c) => Free(k) && Holds(k, c.lock) && c in k.queue
       case ReleaseForWait => At(k).Enlisted?
       case Signal(c) => Free(k) && Holds(k, c.lock) && c in k.queue
       case FinishSignal => At(k).Signalling?
       case Preempt => true
       case TimerTick => true
       case ThreadExits => Free(k)
       case Spawn(t) => Free(k) && t !in k.pc
       case Start(t) => Free(k) && t in k.pc && k.pc[t].Fresh?
       case IdleStarts => Enabled(k.sched, DoAnnounceIdle)
       case IdleBlocks => k.sched.idle == Some(k.sched.current) && k.sched.current == k.sched.idleTid
  }

  function Goto(k: Kernel, pc: Pc): Kernel {
    k.(pc := k.pc[k.sched.current := pc])
  }

  function AfterDown(cont: Cont): Pc {
    match cont
    case Return => Outside
    case TakeLock(l) => PastDown(l)
    case Reacquire(c) => AtDown(LockSema(c.lock), TakeLock(c.lock))
  }

  function Took(c: Counted): Counted
    requires c.m.value > 0
  {
    c.(m := TryDown(c.m).0, downs := c.downs + 1)
  }

  /** A thread has taken the unit of a lock's semaphore. */
  function Enter(k: Kernel, s: SemaId): Kernel {
    if s.LockSema? && s.l in k.inside then
      k.(inside := k.inside[s.l := k.inside[s.l] + {k.sched.current}])
    else k
  }

  /** One pass of the loop by the running thread: it goes to sleep ... */
  function SleepStep(k: Kernel): Kernel
    requires Active(k) && (At(k).AtDown? || At(k).Woken?) && At(k).sema in k.semas
    requires k.semas[At(k).sema].m.value == 0 && PickNext(k.sched).Some?
  {
    var s := At(k).sema;
    var (m, sched, _) := Synch.DownPass(k.semas[s].m, k.sched);
    Goto(k, Asleep(s, At(k).cont)).(semas := k.semas[s := k.semas[s].(m := m)], sched := sched)
  }

  /** ... or takes a unit and is past the loop. */
  function LeaveStep(k: Kernel): Kernel
    requires Active(k) && (At(k).AtDown? || At(k).Woken?) && At(k).sema in k.semas
    requires k.semas[At(k).sema].m.value > 0
  {
    var s := At(k).sema;
    Goto(Enter(k.(semas := k.semas[s := Took(k.semas[s])]), s), AfterDown(At(k).cont))
  }

  function PassStep(k: Kernel): Kernel
    requires Active(k) && (At(k).AtDown? || At(k).Woken?) && At(k).sema in k.semas
    requires PickNext(k.sched).Some?
  {
    if k.semas[At(k).sema].m.value == 0 then SleepStep(k) else LeaveStep(k)
  }

  /** What a pass does to the semaphore and the scheduler is `DownPass`. */
  lemma PassIsDownPass(k: Kernel)
    requires Active(k) && (At(k).AtDown? || At(k).Woken?) && At(k).sema in k.semas
    requires PickNext(k.sched).Some?
    ensures var (m, sched, done) := Synch.DownPass(k.semas[At(k).sema].m, k.sched);
      && PassStep(k).semas[At(k).sema].m == m
      && PassStep(k).sched == sched
      && done == !PassStep(k).pc[k.sched.current].Asleep?
  {
  }

  /** sema_try_down on s. */
  function TryDownStep(k: Kernel, s: SemaId): Kernel
    requires s in k.semas
  {
    if TryDown(k.semas[s].m).1 then k.(semas := k.semas[s := Took(k.semas[s])]) else k
  }

  function TryAcquireStep(k: Kernel, l: LockId): Kernel
    requires LockSema(l) in k.semas
  {
    var s := LockSema(l);
    if TryDown(k.semas[s].m).1 then Goto(Enter(TryDownStep(k, s), s), PastDown(l)) else k
  }

  /** sema_up on s: the thread it wakes is no longer in the waiters. */
  function UpStep(k: Kernel, s: SemaId): Kernel
    requires s in k.semas
  {
    var before := k.semas[s].m;
    var (m, sched) := Synch.Up(before, k.sched);
    var woken :=
      if before.waiters != [] && before.waiters[0] in k.pc && k.pc[before.waiters[0]].Asleep? then
        k.pc[before.waiters[0] := Woken(k.pc[before.waiters[0]].sema, k.pc[before.waiters[0]].cont)]
      else k.pc;
    k.(semas := k.semas[s := k.semas[s].(m := m, ups := k.semas[s].ups + 1)], sched := sched, pc := woken)
  }

  /** Where lock_release returns to: the caller, or the middle of cond_wait. */
  function AfterRelease(t: Tid, wait: Option<Cond>): Pc {
    if wait.Some? then AtDown(WaiterSema(t), Reacquire(wait.value)) else Outside
  }

  /** The end of lock_release: the thread is no longer inside ... */
  function Depart(k: Kernel): Kernel
    requires Active(k) && At(k).Releasing? && At(k).l in k.inside
  {
    var t, l := k.sched.current, At(k).l;
    Goto(k, AfterRelease(t, At(k).wait)).(inside := k.inside[l := k.inside[l] - {t}])
  }

  /** ... and the semaphore goes up. */
  function ReleaseStep(k: Kernel): Kernel
    requires Active(k) && At(k).Releasing? && LockSema(At(k).l) in k.semas && At(k).l in k.inside
  {
    UpStep(Depart(k), LockSema(At(k).l))
  }

  function WaitStep(k: Kernel, c: Cond): Kernel
    requires c in k.queue && c in k.waits
  {
    var t := k.sched.current;
    Goto(k, Enlisted(c)).(
      semas := k.semas[WaiterSema(t) := Counted(Sema(0, []), 0, 0, 0)],
      queue := k.queue[c := k.queue[c] + [t]],
      waits := k.waits[c := k.waits[c] + [t]])
  }

  function SignalStep(k: Kernel, c: Cond): Kernel
    requires c in k.queue && c in k.signals
  {
    if k.queue[c] == [] then k
    else
      var w := k.queue[c][0];
      Goto(k, Signalling(c, w)).(
        queue := k.queue[c := k.queue[c][1..]],
        signals := k.signals[c := k.signals[c] + [w]])
  }

  function ExitStep(k: Kernel): Kernel
    requires PickNext(k.sched).Some?
  {
    var t, sched := k.sched.current, Threads.Exit(k.sched);
    k.(sched := sched, pc := if t in sched.status then k.pc else k.pc - {t})
  }

  /** Nothing in the step is a null pointer or unknown: there is a thread to
      switch to, and the semaphores and lists it touches exist. */
  predicate Defined(k: Kernel, e: Event) {
    && Active(k)
    && match e
       case Pass => (At(k).AtDown? || At(k).Woken?) && At(k).sema in k.semas && PickNext(k.sched).Some?
       case TryDownUser(id) => UserSema(id) in k.semas
       case UpUser(id) => UserSema(id) in k.semas
       case TryAcquire(l) => LockSema(l) in k.semas && l in k.inside
       case SetHolder => At(k).PastDown?
       case FinishRelease => At(k).Releasing? && LockSema(At(k).l) in k.semas && At(k).l in k.inside
       case Wait(c) => c in k.queue && c in k.waits
       case ReleaseForWait => At(k).Enlisted?
       case Signal(c) => c in k.queue && c in k.signals
       case FinishSignal => At(k).Signalling? && WaiterSema(At(k).w) in k.semas
       case Preempt => PickNext(Requeue(k.sched)).Some?
       case TimerTick => PickNext(Requeue(k.sched)).Some?
       case ThreadExits => PickNext(k.sched).Some?
       case IdleBlocks => PickNext(k.sched).Some?
       case _ => true
  }

  function Step(k: Kernel, e: Event): Kernel
    requires Defined(k, e)
  {
    match e
    case Call(id) => Goto(k, AtDown(UserSema(id), Return))
    case Pass => PassStep(k)
    case TryDownUser(id) => TryDownStep(k, UserSema(id))
    case UpUser(id) => UpStep(k, UserSema(id))
    case Acquire(l) => Goto(k, AtDown(LockSema(l), TakeLock(l)))
    case TryAcquire(l) => TryAcquireStep(k, l)
    case SetHolder => Goto(k, Outside).(holder := k.holder[At(k).l := Some(k.sched.current)])
    case Release(l) => Goto(k, Releasing(l, None)).(holder := k.holder[l := None])
    case FinishRelease => ReleaseStep(k)
    case Wait(c) => WaitStep(k, c)
    case ReleaseForWait =>
      var c := At(k).c;
      Goto(k, Releasing(c.lock, Some(c))).(holder := k.holder[c.lock := None])
    case Signal(c) => SignalStep(k, c)
    case FinishSignal => UpStep(Goto(k, Outside), WaiterSema(At(k).w))
    case Preempt => k.(sched := Threads.Yield(k.sched))
    case TimerTick => k.(sched := Threads.Tick(k.sched))
    case ThreadExits => ExitStep(k)
    case Spawn(t) => k.(sched := Threads.Init(k.sched, t), pc := k.pc[t := Fresh])
    case Start(t) => k.(sched := Threads.Unblock(k.sched, t), pc := k.pc[t := Outside])
    case IdleStarts => k.(sched := AnnounceIdle(k.sched))
    case IdleBlocks => k.(sched := Threads.Block(k.sched))
  }

  /** After thread_start has created the idle thread, with any semaphores, locks
      and conditions initialised: `values` is what sema_init was given. */
  function Boot(main: Tid, idleTid: Tid, values: map<SemaId, nat>, locks: set<LockId>, conds: set<Cond>): Kernel {
    Kernel(
      Threads.Boot(main, idleTid),
      map s | s in values :: Counted(Sema(values[s], []), values[s], 0, 0),
      map l | l in locks :: None,
      map c | c in conds :: [],
      map[main := Outside, idleTid := Outside],
      map l | l in locks :: {},
      map c | c in conds :: [],
      map c | c in conds :: [])
  }

  // ----------------------------------------------------------- the invariants

  /** Where a thread stands refers only to locks, conditions and semaphores
      that exist, and a thread sleeps only where its call put it. */
  ghost predicate Typed(k: Kernel, t: Tid, pc: Pc) {
    match pc
    case Outside => true
    case Fresh => true
    case AtDown(s, cont) => Calls(k, t, s, cont)
    case Asleep(s, cont) => Calls(k, t, s, cont)
    case Woken(s, cont) => Calls(k, t, s, cont)
    case PastDown(l) => l in k.holder
    case Releasing(l, wait) =>
      l in k.holder && (wait.Some? ==> wait.value in k.queue && wait.value.lock == l && WaiterSema(t) in k.semas)
    case Enlisted(c) => c in k.queue && c.lock in k.holder && WaiterSema(t) in k.semas
    case Signalling(c, w) => c in k.queue && c.lock in k.holder && WaiterSema(w) in k.semas
  }

  /** The semaphore is the one that goes with what the thread does next. */
  ghost predicate Calls(k: Kernel, t: Tid, s: SemaId, cont: Cont) {
    && s in k.semas
    && match cont
       case Return => s.UserSema?
       case TakeLock(l) => s == LockSema(l) && l in k.holder
       case Reacquire(c) => s == WaiterSema(t) && c in k.queue && c.lock in k.holder
  }

  /** The tables agree on what exists, and every thread stands somewhere that
      makes sense. */
  ghost predicate TypesInv(k: Kernel) {
    && k.queue.Keys == k.waits.Keys == k.signals.Keys
    && k.holder.Keys == k.inside.Keys
    && (forall l :: l in k.holder ==> LockSema(l) in k.semas)
    && (forall t :: t in k.pc ==> Typed(k, t, k.pc[t]))
  }

  /** A thread is blocked exactly when it sleeps on a semaphore, is new, or is
      the idle thread; a dying thread is in no primitive. */
  ghost predicate StatusOk(sched: Sched, t: Tid, pc: Pc)
    requires t in sched.status
  {
    && (pc.Asleep? || pc.Fresh? ==> sched.status[t] == Blocked)
    && (sched.status[t] == Blocked ==> pc.Asleep? || pc.Fresh? || t == sched.idleTid)
    && (sched.status[t] == Dying ==> pc.Outside?)
    && (t == sched.idleTid ==> pc.Outside?)
  }

  ghost predicate StatusInv(sched: Sched, pc: map<Tid, Pc>) {
    && pc.Keys == sched.status.Keys
    && (forall t :: t in pc ==> StatusOk(sched, t, pc[t]))
  }

  function WokenOn(pc: map<Tid, Pc>, s: SemaId): set<Tid> {
    set t | t in pc && pc[t].Woken? && pc[t].sema == s
  }

  /** One semaphore: its waiters are the threads asleep on it, once each; no
      wakeup is lost; the count is what was given less what was taken. */
  ghost predicate SemaOk(pc: map<Tid, Pc>, s: SemaId, c: Counted) {
    && NoDup(c.m.waiters)
    && (forall t :: t in c.m.waiters <==> t in pc && pc[t].Asleep? && pc[t].sema == s)
    && (c.m.waiters != [] ==> c.m.value <= |WokenOn(pc, s)|)
    && c.downs <= c.initial + c.ups
    && c.m.value == (c.initial + c.ups - c.downs) % TWO32
  }

  ghost predicate SemaInv(k: Kernel) {
    forall s :: s in k.semas ==> SemaOk(k.pc, s, k.semas[s])
  }

  // ------------------------------------------- the semaphores, step by step

  predicate Sleepy(pc: Pc) {
    pc.Asleep? || pc.Woken?
  }

  ghost predicate SameSleepers(pc: map<Tid, Pc>, pc': map<Tid, Pc>) {
    && (forall t :: t in pc && Sleepy(pc[t]) ==> t in pc' && pc'[t] == pc[t])
    && (forall t :: t in pc' && Sleepy(pc'[t]) ==> t in pc && pc'[t] == pc[t])
  }

  lemma SemaFrame(pc: map<Tid, Pc>, pc': map<Tid, Pc>, s: SemaId, c: Counted)
    requires SameSleepers(pc, pc') && SemaOk(pc, s, c)
    ensures SemaOk(pc', s, c)
  {
    assert WokenOn(pc', s) == WokenOn(pc, s);
  }

  /** A step in which nobody falls asleep, wakes or leaves a semaphore. */
  lemma QuietSemas(k: Kernel, k': Kernel)
    requires SemaInv(k) && SameSleepers(k.pc, k'.pc) && k'.semas == k.semas
    ensures SemaInv(k')
  {
    forall s | s in k'.semas
      ensures SemaOk(k'.pc, s, k'.semas[s])
    {
      SemaFrame(k.pc, k'.pc, s, k.semas[s]);
    }
  }

  /** Taking a unit by sema_try_down: the waiters stay and the count drops. */
  lemma TakeSema(pc: map<Tid, Pc>, pc': map<Tid, Pc>, s: SemaId, c: Counted)
    requires SemaOk(pc, s, c) && c.m.value > 0 && SameSleepers(pc, pc')
    ensures SemaOk(pc', s, Took(c))
  {
    SemaFrame(pc, pc', s, c);
  }

  /** Leaving the loop of sema_down, with the unit just taken: a woken thread
      uses up one count, a barging thread one count too. */
  lemma LeaveLoop(pc: map<Tid, Pc>, t: Tid, next: Pc, s: SemaId, c: Counted)
    requires t in pc && (pc[t].AtDown? || pc[t].Woken?) && pc[t].sema == s && !Sleepy(next)
    requires SemaOk(pc, s, c) && c.m.value > 0
    ensures SemaOk(pc[t := next], s, Took(c))
  {
    assert WokenOn(pc[t := next], s) == WokenOn(pc, s) - {t};
  }

  lemma FallAsleep(pc: map<Tid, Pc>, t: Tid, s: SemaId, cont: Cont, c: Counted)
    requires t in pc && (pc[t].AtDown? || pc[t].Woken?) && pc[t].sema == s
    requires SemaOk(pc, s, c) && c.m.value == 0
    ensures SemaOk(pc[t := Asleep(s, cont)], s, c.(m := c.m.(waiters := c.m.waiters + [t])))
  {
    var w := c.m.waiters + [t];
    assert t !in c.m.waiters;
    assert forall u :: u in w <==> u in c.m.waiters || u == t;
  }

  /** A thread that moves on semaphore s does not disturb the others. */
  lemma OtherSema(pc: map<Tid, Pc>, t: Tid, next: Pc, s: SemaId, r: SemaId, c: Counted)
    requires t in pc && r != s && SemaOk(pc, r, c)
    requires Sleepy(pc[t]) ==> pc[t].sema == s
    requires Sleepy(next) ==> next.sema == s
    ensures SemaOk(pc[t := next], r, c)
  {
    assert WokenOn(pc[t := next], r) == WokenOn(pc, r);
  }

  lemma LeaveSema(k: Kernel)
    requires Active(k) && (At(k).AtDown? || At(k).Woken?) && At(k).sema in k.semas
    requires SemaInv(k) && k.semas[At(k).sema].m.value > 0
    ensures SemaInv(LeaveStep(k))
  {
    var t, s := k.sched.current, At(k).sema;
    var next := AfterDown(At(k).cont);
    LeaveLoop(k.pc, t, next, s, k.semas[s]);
    forall r | r in k.semas && r != s
      ensures SemaOk(k.pc[t := next], r, k.semas[r])
    {
      OtherSema(k.pc, t, next, s, r, k.semas[r]);
    }
  }

  lemma SleepSema(k: Kernel)
    requires Active(k) && (At(k).AtDown? || At(k).Woken?) && At(k).sema in k.semas
    requires SemaInv(k) && k.semas[At(k).sema].m.value == 0 && PickNext(k.sched).Some?
    ensures SemaInv(SleepStep(k))
  {
    var t, s := k.sched.current, At(k).sema;
    var next := Asleep(s, At(k).cont);
    FallAsleep(k.pc, t, s, At(k).cont, k.semas[s]);
    forall r | r in k.semas && r != s
      ensures SemaOk(k.pc[t := next], r, k.semas[r])
    {
      OtherSema(k.pc, t, next, s, r, k.semas[r]);
    }
  }

  lemma PassSema(k: Kernel)
    requires Active(k) && (At(k).AtDown? || At(k).Woken?) && At(k).sema in k.semas
    requires PickNext(k.sched).Some? && SemaInv(k)
    ensures SemaInv(PassStep(k))
  {
    if k.semas[At(k).sema].m.value > 0 {
      LeaveSema(k);
    } else {
      SleepSema(k);
    }
  }

  /** sema_up without sleepers. */
  lemma UpEmpty(pc: map<Tid, Pc>, s: SemaId, c: Counted, sched: Sched)
    requires SemaOk(pc, s, c) && c.m.waiters == []
    ensures SemaOk(pc, s, c.(m := Synch.Up(c.m, sched).0, ups := c.ups + 1))
  {
  }

  /** sema_up with sleepers: one more count, and one more woken thread to use it. */
  lemma UpWakes(pc: map<Tid, Pc>, s: SemaId, c: Counted, sched: Sched, cont: Cont)
    requires SemaOk(pc, s, c) && c.m.waiters != []
    ensures SemaOk(pc[c.m.waiters[0] := Woken(s, cont)], s, c.(m := Synch.Up(c.m, sched).0, ups := c.ups + 1))
  {
    var w := c.m.waiters[0];
    assert w in c.m.waiters;
    assert WokenOn(pc[w := Woken(s, cont)], s) == WokenOn(pc, s) + {w};
    assert c.m.waiters == [w] + c.m.waiters[1..];
  }

  lemma UpSema(k: Kernel, s: SemaId)
    requires s in k.semas && SemaInv(k)
    ensures SemaInv(UpStep(k, s))
    ensures k.semas[s].m.waiters != [] ==>
      k.semas[s].m.waiters[0] in k.pc && k.pc[k.semas[s].m.waiters[0]].Asleep?
  {
    var k', c := UpStep(k, s), k.semas[s];
    if c.m.waiters == [] {
      UpEmpty(k.pc, s, c, k.sched);
    } else {
      var w := c.m.waiters[0];
      assert w in c.m.waiters;
      UpWakes(k.pc, s, c, k.sched, k.pc[w].cont);
      forall r | r in k'.semas && r != s
        ensures SemaOk(k'.pc, r, k'.semas[r])
      {
        OtherSema(k.pc, w, k'.pc[w], s, r, k.semas[r]);
      }
    }
  }

  /** Nobody can still be on cond_wait's semaphore when it is made anew. */
  lemma NobodyOnOwnSema(k: Kernel, t: Tid)
    requires forall u :: u in k.pc ==> Typed(k, u, k.pc[u])
    requires t in k.pc && k.pc[t] == Outside
    ensures forall u :: u in k.pc && k.pc[u].Asleep? ==> k.pc[u].sema != WaiterSema(t)
  {
    forall u | u in k.pc && k.pc[u].Asleep?
      ensures k.pc[u].sema != WaiterSema(t)
    {
      assert Typed(k, u, k.pc[u]);
    }
  }

  lemma WaitSema(k: Kernel, c: Cond)
    requires SemaInv(k) && Active(k) && At(k) == Outside && c in k.queue && c in k.waits
    requires forall u :: u in k.pc && k.pc[u].Asleep? ==> k.pc[u].sema != WaiterSema(k.sched.current)
    ensures SemaInv(WaitStep(k, c))
  {
    var t, k' := k.sched.current, WaitStep(k, c);
    forall r | r in k'.semas
      ensures SemaOk(k'.pc, r, k'.semas[r])
    {
      if r != WaiterSema(t) {
        SemaFrame(k.pc, k'.pc, r, k.semas[r]);
      }
    }
  }

  lemma TryDownSema(k: Kernel, s: SemaId)
    requires s in k.semas && SemaInv(k)
    ensures SemaInv(TryDownStep(k, s))
  {
    if k.semas[s].m.value > 0 {
      TakeSema(k.pc, k.pc, s, k.semas[s]);
    }
  }

  lemma TryAcquireSema(k: Kernel, l: LockId)
    requires Active(k) && !Sleepy(At(k)) && LockSema(l) in k.semas && SemaInv(k)
    ensures SemaInv(TryAcquireStep(k, l))
  {
    var s := LockSema(l);
    if k.semas[s].m.value > 0 {
      var mid := Enter(TryDownStep(k, s), s);
      TryDownSema(k, s);
      QuietSemas(mid, Goto(mid, PastDown(l)));
    }
  }

  lemma ReleaseSema(k: Kernel)
    requires Active(k) && At(k).Releasing? && LockSema(At(k).l) in k.semas && At(k).l in k.inside
    requires SemaInv(k)
    ensures SemaInv(ReleaseStep(k))
  {
    QuietSemas(k, Depart(k));
    UpSema(Depart(k), LockSema(At(k).l));
  }

  lemma FinishSignalSema(k: Kernel)
    requires Active(k) && At(k).Signalling? && WaiterSema(At(k).w) in k.semas && SemaInv(k)
    ensures SemaInv(UpStep(Goto(k, Outside), WaiterSema(At(k).w)))
  {
    var mid := Goto(k, Outside);
    QuietSemas(k, mid);
    UpSema(mid, WaiterSema(At(k).w));
  }

  /** Events of the scheduler alone. */
  predicate SchedulerEvent(e: Event) {
    e.Preempt? || e.TimerTick? || e.ThreadExits? || e.Spawn? || e.Start? || e.IdleStarts? || e.IdleBlocks?
  }

  /** Other events of the running thread that leave every sleeper alone: on
      semaphores, and on locks and conditions. */
  predicate SemaMove(e: Event) {
    e.Call? || e.TryDownUser? || e.Acquire? || e.TryAcquire?
  }

  predicate LockMove(e: Event) {
    e.SetHolder? || e.Release? || e.Wait? || e.ReleaseForWait? || e.Signal?
  }

  lemma PlaceSema(k: Kernel, k': Kernel, t: Tid, next: Pc)
    requires SemaInv(k) && k'.semas == k.semas && k'.pc == k.pc[t := next]
    requires !Sleepy(next) && (t in k.pc ==> !Sleepy(k.pc[t]))
    ensures SemaInv(k')
  {
    QuietSemas(k, k');
  }

  lemma SchedulerSema(k: Kernel, e: Event)
    requires Defined(k, e) && CanHappen(k, e) && SchedulerEvent(e) && SemaInv(k)
    ensures SemaInv(Step(k, e))
  {
    hide SemaOk;
    if e.Spawn? {
      PlaceSema(k, Step(k, e), e.t, Fresh);
    } else if e.Start? {
      PlaceSema(k, Step(k, e), e.t, Outside);
    } else if e.ThreadExits? {
      QuietSemas(k, ExitStep(k));
    }
  }

  lemma SemaMoveSema(k: Kernel, e: Event)
    requires Defined(k, e) && CanHappen(k, e) && SemaMove(e) && SemaInv(k)
    ensures SemaInv(Step(k, e))
  {
    if e.TryDownUser? {
      TryDownSema(k, UserSema(e.id));
    } else if e.TryAcquire? {
      TryAcquireSema(k, e.l);
    } else if e.Call? {
      PlaceSema(k, Step(k, e), k.sched.current, AtDown(UserSema(e.id), Return));
    } else {
      PlaceSema(k, Step(k, e), k.sched.current, AtDown(LockSema(e.l), TakeLock(e.l)));
    }
  }

  lemma LockMoveSema(k: Kernel, e: Event)
    requires Defined(k, e) && CanHappen(k, e) && LockMove(e) && SemaInv(k)
    requires e.Wait? ==> forall u :: u in k.pc && k.pc[u].Asleep? ==> k.pc[u].sema != WaiterSema(k.sched.current)
    ensures SemaInv(Step(k, e))
  {
    var t, k' := k.sched.current, Step(k, e);
    if e.Wait? {
      WaitSema(k, e.c);
    } else if e.SetHolder? {
      PlaceSema(k, k', t, Outside);
    } else if e.Release? {
      PlaceSema(k, k', t, Releasing(e.l, None));
    } else if e.ReleaseForWait? {
      PlaceSema(k, k', t, Releasing(At(k).c.lock, Some(At(k).c)));
    } else if k.queue[e.c] != [] {
      PlaceSema(k, k', t, Signalling(e.c, k.queue[e.c][0]));
    }
  }

  lemma StepSema(k: Kernel, e: Event)
    requires Defined(k, e) && CanHappen(k, e) && SemaInv(k)
    requires e.Wait? ==> forall u :: u in k.pc && k.pc[u].Asleep? ==> k.pc[u].sema != WaiterSema(k.sched.current)
    ensures SemaInv(Step(k, e))
  {
    if SchedulerEvent(e) {
      SchedulerSema(k, e);
    } else if e.Pass? {
      PassSema(k);
    } else if e.UpUser? {
      UpSema(k, UserSema(e.id));
    } else if e.FinishRelease? {
      ReleaseSema(k);
    } else if e.FinishSignal? {
      FinishSignalSema(k);
    } else if SemaMove(e) {
      SemaMoveSema(k, e);
    } else {
      LockMoveSema(k, e);
    }
  }

  // --------------------------------------------- the scheduler, step by step

  /** The scheduler's part in an event, if it has one. */
  function OpOf(k: Kernel, e: Event): Option<Op>
    requires Defined(k, e)
  {
    match e
    case Pass => if k.semas[At(k).sema].m.value == 0 then Some(DoBlock) else None
    case UpUser(id) => WakeOp(k, UserSema(id))
    case FinishRelease => WakeOp(k, LockSema(At(k).l))
    case FinishSignal => WakeOp(k, WaiterSema(At(k).w))
    case Preempt => Some(DoYield)
    case TimerTick => Some(DoTick)
    case ThreadExits => Some(DoExit)
    case Spawn(u) => Some(DoInit(u))
    case Start(u) => Some(DoUnblock(u))
    case IdleStarts => Some(DoAnnounceIdle)
    case IdleBlocks => Some(DoBlock)
    case _ => None
  }

  function WakeOp(k: Kernel, s: SemaId): Option<Op>
    requires s in k.semas
  {
    var ws := k.semas[s].m.waiters;
    if ws == [] then None else Some(DoUnblock(ws[0]))
  }

  /** An event moves the scheduler by its operation, or not at all. */
  lemma StepUsesOp(k: Kernel, e: Event)
    requires Defined(k, e)
    ensures OpOf(k, e).None? ==> Step(k, e).sched == k.sched
    ensures OpOf(k, e).Some? && PickNext(Requeue(k.sched)).Some? ==>
      Step(k, e).sched == Apply(k.sched, OpOf(k, e).value)
  {
  }

  lemma WakeEnabled(k: Kernel, s: SemaId)
    requires s in k.semas && SemaOk(k.pc, s, k.semas[s]) && StatusInv(k.sched, k.pc)
    ensures WakeOp(k, s).Some? ==> Enabled(k.sched, WakeOp(k, s).value)
  {
    var ws := k.semas[s].m.waiters;
    if ws != [] {
      assert ws[0] in ws;
      assert StatusOk(k.sched, ws[0], k.pc[ws[0]]);
    }
  }

  /** thread_unblock's assertion and the rest of what thread.c asks for. */
  lemma OpEnabled(k: Kernel, e: Event)
    requires Defined(k, e) && CanHappen(k, e) && StatusInv(k.sched, k.pc) && SemaInv(k)
    ensures OpOf(k, e).Some? ==> Enabled(k.sched, OpOf(k, e).value)
  {
    assert StatusOk(k.sched, k.sched.current, At(k));
    if e.UpUser? {
      WakeEnabled(k, UserSema(e.id));
    } else if e.FinishRelease? {
      WakeEnabled(k, LockSema(At(k).l));
    } else if e.FinishSignal? {
      WakeEnabled(k, WaiterSema(At(k).w));
    } else if e.Start? {
      assert StatusOk(k.sched, e.t, k.pc[e.t]);
    }
  }

  lemma GotoStatus(s: Sched, pc: map<Tid, Pc>, next: Pc)
    requires StatusInv(s, pc) && s.current in pc && s.status[s.current] == Running && s.current != s.idleTid
    requires !next.Asleep? && !next.Fresh?
    ensures StatusInv(s, pc[s.current := next])
  {
  }

  lemma SleepStatus(s: Sched, s': Sched, pc: map<Tid, Pc>, next: Pc)
    requires StatusInv(s, pc) && StatusChange(s, DoBlock, s') && s.current in pc && s.current != s.idleTid
    requires next.Asleep?
    ensures StatusInv(s', pc[s.current := next])
  {
  }

  lemma WakeStatus(s: Sched, s': Sched, pc: map<Tid, Pc>, t: Tid, next: Pc)
    requires StatusInv(s, pc) && StatusChange(s, DoUnblock(t), s') && s.current in pc && t in pc && t != s.idleTid
    requires !next.Asleep? && !next.Fresh? && s'.status[t] == Ready
    ensures StatusInv(s', pc[t := next])
  {
  }

  lemma SwitchStatus(s: Sched, op: Op, s': Sched, pc: map<Tid, Pc>)
    requires StatusInv(s, pc) && StatusChange(s, op, s') && s.current in pc
    requires op.DoYield? || op.DoTick? || op.DoAnnounceIdle? || (op.DoBlock? && s.current == s.idleTid)
    ensures StatusInv(s', pc)
  {
  }

  lemma ExitStatus(k: Kernel)
    requires StatusInv(k.sched, k.pc) && Free(k) && PickNext(k.sched).Some?
    requires StatusChange(k.sched, DoExit, ExitStep(k).sched)
    ensures StatusInv(ExitStep(k).sched, ExitStep(k).pc)
  {
  }

  lemma SpawnStatus(s: Sched, s': Sched, pc: map<Tid, Pc>, t: Tid)
    requires StatusInv(s, pc) && StatusChange(s, DoInit(t), s') && s.current in pc && t !in pc
    ensures StatusInv(s', pc[t := Fresh])
  {
  }

  lemma UpStatus(k: Kernel, s: SemaId)
    requires StatusInv(k.sched, k.pc) && Active(k) && s in k.semas && SemaOk(k.pc, s, k.semas[s])
    requires WakeOp(k, s).Some? ==> StatusChange(k.sched, WakeOp(k, s).value, UpStep(k, s).sched)
    ensures StatusInv(UpStep(k, s).sched, UpStep(k, s).pc)
  {
    var ws := k.semas[s].m.waiters;
    if ws != [] {
      var w := ws[0];
      assert w in ws;
      assert StatusOk(k.sched, w, k.pc[w]);
      WakeStatus(k.sched, UpStep(k, s).sched, k.pc, w, Woken(k.pc[w].sema, k.pc[w].cont));
    }
  }

  /** sema_up after the running thread, which is not asleep, has moved on. */
  lemma MoveThenUpStatus(k: Kernel, mid: Kernel, next: Pc, s: SemaId)
    requires StatusInv(k.sched, k.pc) && s in k.semas && SemaOk(k.pc, s, k.semas[s])
    requires Active(k) && !Sleepy(At(k)) && !Sleepy(next) && !next.Fresh? && k.sched.current != k.sched.idleTid
    requires k.sched.status[k.sched.current] == Running
    requires mid.sched == k.sched && mid.semas == k.semas && mid.pc == k.pc[k.sched.current := next]
    requires WakeOp(k, s).Some? ==> StatusChange(k.sched, WakeOp(k, s).value, UpStep(mid, s).sched)
    ensures StatusInv(UpStep(mid, s).sched, UpStep(mid, s).pc)
  {
    GotoStatus(k.sched, k.pc, next);
    SemaFrame(k.pc, mid.pc, s, k.semas[s]);
    UpStatus(mid, s);
  }

  lemma SwitchingStatus(k: Kernel, e: Event)
    requires Defined(k, e) && CanHappen(k, e) && StatusInv(k.sched, k.pc) && SchedulerEvent(e)
    requires StatusChange(k.sched, OpOf(k, e).value, Step(k, e).sched)
    ensures StatusInv(Step(k, e).sched, Step(k, e).pc)
  {
    var s, s', pc := k.sched, Step(k, e).sched, k.pc;
    if e.ThreadExits? {
      ExitStatus(k);
    } else if e.Spawn? {
      SpawnStatus(s, s', pc, e.t);
    } else if e.Start? {
      assert StatusOk(s, e.t, pc[e.t]);
      WakeStatus(s, s', pc, e.t, Outside);
    } else {
      SwitchStatus(s, OpOf(k, e).value, s', pc);
    }
  }

  lemma PassStatus(k: Kernel)
    requires Defined(k, Pass) && StatusInv(k.sched, k.pc) && k.sched.status[k.sched.current] == Running
    requires OpOf(k, Pass).Some? ==> StatusChange(k.sched, DoBlock, Step(k, Pass).sched)
    ensures StatusInv(Step(k, Pass).sched, Step(k, Pass).pc)
  {
    assert StatusOk(k.sched, k.sched.current, At(k));
    if k.semas[At(k).sema].m.value == 0 {
      SleepStatus(k.sched, Step(k, Pass).sched, k.pc, Asleep(At(k).sema, At(k).cont));
    } else {
      GotoStatus(k.sched, k.pc, AfterDown(At(k).cont));
    }
  }

  lemma WakingStatus(k: Kernel, e: Event)
    requires Defined(k, e) && CanHappen(k, e) && StatusInv(k.sched, k.pc) && SemaInv(k)
    requires k.sched.status[k.sched.current] == Running
    requires e.UpUser? || e.FinishRelease? || e.FinishSignal?
    requires OpOf(k, e).Some? ==> StatusChange(k.sched, OpOf(k, e).value, Step(k, e).sched)
    ensures StatusInv(Step(k, e).sched, Step(k, e).pc)
  {
    assert StatusOk(k.sched, k.sched.current, At(k));
    if e.UpUser? {
      UpStatus(k, UserSema(e.id));
    } else if e.FinishRelease? {
      MoveThenUpStatus(k, Depart(k), AfterRelease(k.sched.current, At(k).wait), LockSema(At(k).l));
    } else {
      MoveThenUpStatus(k, Goto(k, Outside), Outside, WaiterSema(At(k).w));
    }
  }

  lemma StepStatus(k: Kernel, e: Event)
    requires Defined(k, e) && CanHappen(k, e) && StatusInv(k.sched, k.pc) && SemaInv(k)
    requires k.sched.status[k.sched.current] == Running
    requires OpOf(k, e).Some? ==> StatusChange(k.sched, OpOf(k, e).value, Step(k, e).sched)
    ensures StatusInv(Step(k, e).sched, Step(k, e).pc)
  {
    hide StatusOk, StatusChange, SemaOk;
    if SchedulerEvent(e) {
      SwitchingStatus(k, e);
    } else if e.Pass? {
      PassStatus(k);
    } else if e.UpUser? || e.FinishRelease? || e.FinishSignal? {
      WakingStatus(k, e);
    } else if SemaMove(e) {
      SemaMoveStatus(k, e);
    } else {
      LockMoveStatus(k, e);
    }
  }

  /** Events in which the running thread at most moves on. */
  lemma SemaMoveStatus(k: Kernel, e: Event)
    requires Defined(k, e) && CanHappen(k, e) && StatusInv(k.sched, k.pc) && SemaMove(e)
    requires k.sched.status[k.sched.current] == Running
    ensures StatusInv(Step(k, e).sched, Step(k, e).pc)
  {
    if e.Call? {
      GotoStatus(k.sched, k.pc, AtDown(UserSema(e.id), Return));
    } else if e.Acquire? {
      GotoStatus(k.sched, k.pc, AtDown(LockSema(e.l), TakeLock(e.l)));
    } else if e.TryAcquire? {
      GotoStatus(k.sched, k.pc, PastDown(e.l));
    }
  }

  lemma LockMoveStatus(k: Kernel, e: Event)
    requires Defined(k, e) && CanHappen(k, e) && StatusInv(k.sched, k.pc) && LockMove(e)
    requires k.sched.status[k.sched.current] == Running
    ensures StatusInv(Step(k, e).sched, Step(k, e).pc)
  {
    assert StatusOk(k.sched, k.sched.current, At(k));
    if e.SetHolder? {
      GotoStatus(k.sched, k.pc, Outside);
    } else if e.Release? {
      GotoStatus(k.sched, k.pc, Releasing(e.l, None));
    } else if e.ReleaseForWait? {
      GotoStatus(k.sched, k.pc, Releasing(At(k).c.lock, Some(At(k).c)));
    } else if e.Wait? {
      GotoStatus(k.sched, k.pc, Enlisted(e.c));
    } else if k.queue[e.c] != [] {
      GotoStatus(k.sched, k.pc, Signalling(e.c, k.queue[e.c][0]));
    }
  }

  // ------------------------------------------- what exists, step by step

  /** Nothing is removed from the tables. */
  ghost predicate Grows(k: Kernel, k': Kernel) {
    && k.semas.Keys <= k'.semas.Keys
    && k'.holder.Keys == k.holder.Keys && k'.inside.Keys == k.inside.Keys
    && k'.queue.Keys == k.queue.Keys && k'.waits.Keys == k.waits.Keys && k'.signals.Keys == k.signals.Keys
  }

  lemma TypesFrame(k: Kernel, k': Kernel)
    requires TypesInv(k) && Grows(k, k')
    requires forall t :: t in k'.pc ==> (t in k.pc && k'.pc[t] == k.pc[t]) || Typed(k', t, k'.pc[t])
    ensures TypesInv(k')
  {
    forall t | t in k'.pc
      ensures Typed(k', t, k'.pc[t])
    {
      if t in k.pc && k'.pc[t] == k.pc[t] {
        assert Typed(k, t, k.pc[t]);
      }
    }
  }

  lemma UpTypes(k: Kernel, s: SemaId)
    requires TypesInv(k) && s in k.semas
    ensures TypesInv(UpStep(k, s)) && Grows(k, UpStep(k, s))
  {
    var k' := UpStep(k, s);
    forall t | t in k'.pc
      ensures (t in k.pc && k'.pc[t] == k.pc[t]) || Typed(k', t, k'.pc[t])
    {
      assert Typed(k, t, k.pc[t]);
    }
    TypesFrame(k, k');
  }

  lemma GotoTypes(k: Kernel, k': Kernel, next: Pc)
    requires TypesInv(k) && Grows(k, k') && Active(k)
    requires k'.pc == k.pc[k.sched.current := next] && Typed(k', k.sched.current, next)
    ensures TypesInv(k')
  {
    TypesFrame(k, k');
  }

  /** Whoever is queued on a condition has its own semaphore. */
  ghost predicate QueueTyped(k: Kernel) {
    forall c, t :: c in k.queue && t in k.queue[c] ==> WaiterSema(t) in k.semas
  }

  lemma SemaMoveTypes(k: Kernel, e: Event)
    requires Defined(k, e) && CanHappen(k, e) && TypesInv(k) && SemaMove(e)
    ensures TypesInv(Step(k, e)) && Grows(k, Step(k, e))
  {
    assert Typed(k, k.sched.current, At(k));
    var k' := Step(k, e);
    assert Grows(k, k');
    if e.TryDownUser? || (e.TryAcquire? && !TryDown(k.semas[LockSema(e.l)].m).1) {
      TypesFrame(k, k');
    } else {
      GotoTypes(k, k', k'.pc[k.sched.current]);
    }
  }

  lemma PassTypes(k: Kernel)
    requires Defined(k, Pass) && TypesInv(k)
    ensures TypesInv(PassStep(k)) && Grows(k, PassStep(k))
  {
    var t := k.sched.current;
    assert Typed(k, t, At(k));
    if k.semas[At(k).sema].m.value > 0 {
      GotoTypes(k, LeaveStep(k), AfterDown(At(k).cont));
    } else {
      GotoTypes(k, SleepStep(k), Asleep(At(k).sema, At(k).cont));
    }
  }

  lemma LockMoveTypes(k: Kernel, e: Event)
    requires Defined(k, e) && CanHappen(k, e) && TypesInv(k) && QueueTyped(k) && LockMove(e)
    ensures TypesInv(Step(k, e)) && Grows(k, Step(k, e))
  {
    assert Typed(k, k.sched.current, At(k));
    var k' := Step(k, e);
    assert Grows(k, k');
    if e.Signal? && k.queue[e.c] == [] {
    } else {
      assert e.Signal? ==> k.queue[e.c][0] in k.queue[e.c];
      GotoTypes(k, k', k'.pc[k.sched.current]);
    }
  }

  lemma ReleaseTypes(k: Kernel)
    requires Defined(k, FinishRelease) && TypesInv(k)
    ensures TypesInv(ReleaseStep(k)) && Grows(k, ReleaseStep(k))
  {
    assert Typed(k, k.sched.current, At(k));
    GotoTypes(k, Depart(k), AfterRelease(k.sched.current, At(k).wait));
    UpTypes(Depart(k), LockSema(At(k).l));
  }

  lemma StepTypes(k: Kernel, e: Event)
    requires Defined(k, e) && CanHappen(k, e) && TypesInv(k) && QueueTyped(k)
    ensures TypesInv(Step(k, e)) && Grows(k, Step(k, e))
  {
    if SchedulerEvent(e) {
      TypesFrame(k, Step(k, e));
    } else if e.UpUser? {
      UpTypes(k, UserSema(e.id));
    } else if e.FinishRelease? {
      ReleaseTypes(k);
    } else if e.FinishSignal? {
      GotoTypes(k, Goto(k, Outside), Outside);
      UpTypes(Goto(k, Outside), WaiterSema(At(k).w));
    } else if e.Pass? {
      PassTypes(k);
    } else if SemaMove(e) {
      SemaMoveTypes(k, e);
    } else {
      LockMoveTypes(k, e);
    }
  }

  // ------------------------------------------------------ locks, step by step

  /** Between the down and the up of lock l, but not its recorded holder. */
  predicate InWindow(pc: Pc, l: LockId) {
    pc == PastDown(l) || (pc.Releasing? && pc.l == l)
  }

  /** On the way to taking lock l. */
  predicate Wants(pc: Pc, l: LockId) {
    (pc.AtDown? || pc.Asleep? || pc.Woken?) &&
    (pc.cont == TakeLock(l) || (pc.cont.Reacquire? && pc.cont.c.lock == l))
  }

  /** In the middle of cond_wait or cond_signal with lock l held. */
  predicate Keeps(pc: Pc, l: LockId) {
    (pc.Enlisted? || pc.Signalling?) && pc.c.lock == l
  }

  /** One lock: the count and the threads inside add up to one; the recorded
      holder, if there is one, is the thread inside; a thread inside that is not
      recorded is in one of the two windows where holder is null. */
  ghost predicate LockOk(pc: map<Tid, Pc>, l: LockId, holder: Option<Tid>, inside: set<Tid>, value: nat) {
    && value + |inside| == 1
    && (holder.Some? ==> inside == {holder.value})
    && (holder.None? ==> forall t :: t in inside ==> t in pc && InWindow(pc[t], l))
    && (forall t :: t in pc && InWindow(pc[t], l) ==> t in inside && holder.None?)
    && (forall t :: t in pc && Wants(pc[t], l) ==> t !in inside)
    && (forall t :: t in pc && Keeps(pc[t], l) ==> holder == Some(t))
  }

  /** A thread's move that has nothing to do with lock l. */
  lemma LockFrame(pc: map<Tid, Pc>, t: Tid, next: Pc, l: LockId, h: Option<Tid>, ins: set<Tid>, v: nat)
    requires LockOk(pc, l, h, ins, v)
    requires t in pc ==> !InWindow(pc[t], l)
    requires !InWindow(next, l) && (Wants(next, l) ==> t !in ins) && (Keeps(next, l) ==> h == Some(t))
    ensures LockOk(pc[t := next], l, h, ins, v)
  {
  }

  /** The down of lock l is completed. */
  lemma LockEntered(pc: map<Tid, Pc>, t: Tid, l: LockId, h: Option<Tid>, ins: set<Tid>, v: nat)
    requires LockOk(pc, l, h, ins, v) && v > 0 && t in pc
    ensures LockOk(pc[t := PastDown(l)], l, h, ins + {t}, v - 1)
  {
    assert ins == {};
    assert ins + {t} == {t};
  }

  /** The holder is recorded. */
  lemma LockRecorded(pc: map<Tid, Pc>, t: Tid, l: LockId, h: Option<Tid>, ins: set<Tid>, v: nat)
    requires LockOk(pc, l, h, ins, v) && t in pc && pc[t] == PastDown(l)
    ensures LockOk(pc[t := Outside], l, Some(t), ins, v)
  {
    OnlyOneInside(pc, l, h, ins, v, t);
  }

  /** Mutual exclusion: whoever is inside is alone, and the count is zero. */
  lemma OnlyOneInside(pc: map<Tid, Pc>, l: LockId, h: Option<Tid>, ins: set<Tid>, v: nat, t: Tid)
    requires LockOk(pc, l, h, ins, v) && t in ins
    ensures ins == {t} && v == 0
  {
    assert |ins - {t}| == |ins| - 1;
  }

  /** The holder is cleared. */
  lemma LockCleared(pc: map<Tid, Pc>, t: Tid, l: LockId, h: Option<Tid>, ins: set<Tid>, v: nat, wait: Option<Cond>)
    requires LockOk(pc, l, h, ins, v) && t in pc && h == Some(t)
    ensures LockOk(pc[t := Releasing(l, wait)], l, None, ins, v)
  {
  }

  /** The up of lock l: the count goes back to one. */
  lemma LockLeft(pc: map<Tid, Pc>, t: Tid, next: Pc, l: LockId, h: Option<Tid>, ins: set<Tid>, v: nat)
    requires LockOk(pc, l, h, ins, v) && t in pc && pc[t].Releasing? && pc[t].l == l
    requires !InWindow(next, l) && !Keeps(next, l)
    ensures LockOk(pc[t := next], l, h, ins - {t}, (v + 1) % TWO32)
  {
    OnlyOneInside(pc, l, h, ins, v, t);
    assert ins - {t} == {};
  }

  /** A thread that is woken on a semaphore stays on its way to the same lock. */
  lemma UpLocks(k: Kernel, s: SemaId, l: LockId, v: nat)
    requires s in k.semas && l in k.holder && l in k.inside
    requires LockOk(k.pc, l, k.holder[l], k.inside[l], v)
    ensures LockOk(UpStep(k, s).pc, l, k.holder[l], k.inside[l], v)
  {
    var ws := k.semas[s].m.waiters;
    if ws != [] && ws[0] in k.pc && k.pc[ws[0]].Asleep? {
      LockFrame(k.pc, ws[0], Woken(k.pc[ws[0]].sema, k.pc[ws[0]].cont), l, k.holder[l], k.inside[l], v);
    }
  }

  ghost predicate LockFine(k: Kernel, l: LockId) {
    && l in k.holder && l in k.inside && LockSema(l) in k.semas
    && LockOk(k.pc, l, k.holder[l], k.inside[l], k.semas[LockSema(l)].m.value)
  }

  lemma SchedulerLock(k: Kernel, e: Event, l: LockId)
    requires Defined(k, e) && CanHappen(k, e) && SchedulerEvent(e) && LockFine(k, l)
    ensures LockFine(Step(k, e), l)
  {
    if e.Spawn? {
      LockFrame(k.pc, e.t, Fresh, l, k.holder[l], k.inside[l], k.semas[LockSema(l)].m.value);
    } else if e.Start? {
      LockFrame(k.pc, e.t, Outside, l, k.holder[l], k.inside[l], k.semas[LockSema(l)].m.value);
    }
  }

  /** What leaving the loop of sema_down changes. */
  lemma LeaveChanges(k: Kernel, l: LockId)
    requires Active(k) && (At(k).AtDown? || At(k).Woken?) && At(k).sema in k.semas
    requires k.semas[At(k).sema].m.value > 0
    requires l in k.inside && LockSema(l) in k.semas
    ensures var k' := LeaveStep(k); var s := At(k).sema;
      && k'.holder == k.holder && l in k'.inside && LockSema(l) in k'.semas
      && k'.pc == k.pc[k.sched.current := AfterDown(At(k).cont)]
      && k'.inside[l] == (if s == LockSema(l) then k.inside[l] + {k.sched.current} else k.inside[l])
      && k'.semas[LockSema(l)].m.value == k.semas[LockSema(l)].m.value - (if s == LockSema(l) then 1 else 0)
  {
  }

  lemma LeaveLock(k: Kernel, l: LockId)
    requires Active(k) && (At(k).AtDown? || At(k).Woken?) && At(k).sema in k.semas
    requires k.semas[At(k).sema].m.value > 0
    requires LockFine(k, l) && Calls(k, k.sched.current, At(k).sema, At(k).cont)
    ensures LockFine(LeaveStep(k), l)
  {
    var t, s, h, ins, v := k.sched.current, At(k).sema, k.holder[l], k.inside[l], k.semas[LockSema(l)].m.value;
    LeaveChanges(k, l);
    if s == LockSema(l) {
      LockEntered(k.pc, t, l, h, ins, v);
    } else {
      LockFrame(k.pc, t, AfterDown(At(k).cont), l, h, ins, v);
    }
  }

  lemma PassLock(k: Kernel, l: LockId)
    requires Defined(k, Pass) && LockFine(k, l) && Typed(k, k.sched.current, At(k))
    ensures LockFine(PassStep(k), l)
  {
    var s := At(k).sema;
    if k.semas[s].m.value == 0 {
      LockFrame(k.pc, k.sched.current, Asleep(s, At(k).cont), l, k.holder[l], k.inside[l],
        k.semas[LockSema(l)].m.value);
    } else {
      LeaveLock(k, l);
    }
  }

  lemma SemaMoveLock(k: Kernel, e: Event, l: LockId)
    requires Defined(k, e) && CanHappen(k, e) && SemaMove(e) && LockFine(k, l)
    ensures LockFine(Step(k, e), l)
  {
    var t, h, ins, v := k.sched.current, k.holder[l], k.inside[l], k.semas[LockSema(l)].m.value;
    if e.Call? {
      LockFrame(k.pc, t, AtDown(UserSema(e.id), Return), l, h, ins, v);
    } else if e.Acquire? {
      LockFrame(k.pc, t, AtDown(LockSema(e.l), TakeLock(e.l)), l, h, ins, v);
    } else if e.TryAcquire? && k.semas[LockSema(e.l)].m.value > 0 {
      if e.l == l {
        LockEntered(k.pc, t, l, h, ins, v);
      } else {
        LockFrame(k.pc, t, PastDown(e.l), l, h, ins, v);
      }
    }
  }

  lemma LockMoveLock(k: Kernel, e: Event, l: LockId)
    requires Defined(k, e) && CanHappen(k, e) && LockMove(e) && LockFine(k, l)
    ensures LockFine(Step(k, e), l)
  {
    var t, h, ins, v := k.sched.current, k.holder[l], k.inside[l], k.semas[LockSema(l)].m.value;
    if e.SetHolder? {
      if At(k).l == l {
        LockRecorded(k.pc, t, l, h, ins, v);
      } else {
        LockFrame(k.pc, t, Outside, l, h, ins, v);
      }
    } else if e.Release? || e.ReleaseForWait? {
      var own, wait := if e.Release? then e.l else At(k).c.lock, if e.Release? then None else Some(At(k).c);
      if own == l {
        LockCleared(k.pc, t, l, h, ins, v, wait);
      } else {
        LockFrame(k.pc, t, Releasing(own, wait), l, h, ins, v);
      }
    } else if e.Wait? {
      LockFrame(k.pc, t, Enlisted(e.c), l, h, ins, v);
    } else if k.queue[e.c] != [] {
      LockFrame(k.pc, t, Signalling(e.c, k.queue[e.c][0]), l, h, ins, v);
    }
  }

  /** What sema_up leaves alone. */
  lemma UpKeeps(k: Kernel, s: SemaId)
    requires s in k.semas
    ensures var k' := UpStep(k, s);
      && k'.holder == k.holder && k'.inside == k.inside && k'.queue == k.queue
      && k'.semas.Keys == k.semas.Keys
      && (forall r :: r in k.semas && r != s ==> k'.semas[r] == k.semas[r])
      && k'.semas[s].m.value == (k.semas[s].m.value + 1) % TWO32
  {
  }

  /** sema_up on a semaphore that is not the lock's. */
  lemma UpOtherLock(k: Kernel, s: SemaId, l: LockId)
    requires s in k.semas && s != LockSema(l) && LockFine(k, l)
    ensures LockFine(UpStep(k, s), l)
  {
    UpKeeps(k, s);
    UpLocks(k, s, l, k.semas[LockSema(l)].m.value);
  }

  /** The up of the lock itself, after the thread has moved on. */
  lemma UpOwnLock(k: Kernel, l: LockId, v: nat)
    requires l in k.holder && l in k.inside && LockSema(l) in k.semas
    requires (k.semas[LockSema(l)].m.value + 1) % TWO32 == v
    requires LockOk(k.pc, l, k.holder[l], k.inside[l], v)
    ensures LockFine(UpStep(k, LockSema(l)), l)
  {
    UpKeeps(k, LockSema(l));
    UpLocks(k, LockSema(l), l, v);
  }

  lemma ReleaseLock(k: Kernel, l: LockId)
    requires Defined(k, FinishRelease) && LockFine(k, l)
    requires At(k).wait.Some? ==> At(k).wait.value.lock == At(k).l
    ensures LockFine(ReleaseStep(k), l)
  {
    var t, own, h, ins, v := k.sched.current, At(k).l, k.holder[l], k.inside[l], k.semas[LockSema(l)].m.value;
    var next := AfterRelease(t, At(k).wait);
    if own == l {
      LockLeft(k.pc, t, next, l, h, ins, v);
      UpOwnLock(Depart(k), l, (v + 1) % TWO32);
    } else {
      LockFrame(k.pc, t, next, l, h, ins, v);
      UpOtherLock(Depart(k), LockSema(own), l);
    }
  }

  lemma StepLock(k: Kernel, e: Event, l: LockId)
    requires Defined(k, e) && CanHappen(k, e) && LockFine(k, l) && Typed(k, k.sched.current, At(k))
    ensures LockFine(Step(k, e), l)
  {
    var v := k.semas[LockSema(l)].m.value;
    if SchedulerEvent(e) {
      SchedulerLock(k, e, l);
    } else if e.UpUser? {
      UpLocks(k, UserSema(e.id), l, v);
    } else if e.FinishRelease? {
      ReleaseLock(k, l);
    } else if e.FinishSignal? {
      LockFrame(k.pc, k.sched.current, Outside, l, k.holder[l], k.inside[l], v);
      UpLocks(Goto(k, Outside), WaiterSema(At(k).w), l, v);
    } else if e.Pass? {
      PassLock(k, l);
    } else if SemaMove(e) {
      SemaMoveLock(k, e, l);
    } else {
      LockMoveLock(k, e, l);
    }
  }

  // ------------------------------------------------- conditions, step by step

  /** Inside one call of cond_wait, up to the return of its sema_down. */
  function Waiting(pc: Pc): Option<Cond> {
    match pc
    case Enlisted(c) => Some(c)
    case Releasing(_, wait) => wait
    case AtDown(_, cont) => if cont.Reacquire? then Some(cont.c) else None
    case Asleep(_, cont) => if cont.Reacquire? then Some(cont.c) else None
    case Woken(_, cont) => if cont.Reacquire? then Some(cont.c) else None
    case _ => None
  }

  /** One condition: its queue holds calls in progress, once each, and is what
      remains of all calls so far when those signalled so far are taken off the
      front; whom a signaller has picked is a call in progress. */
  ghost predicate QueueOk(pc: map<Tid, Pc>, c: Cond, queue: seq<Tid>, waits: seq<Tid>, signals: seq<Tid>) {
    && NoDup(queue)
    && waits == signals + queue
    && (forall t :: t in queue ==> t in pc && Waiting(pc[t]) == Some(c))
    && (forall t :: t in pc && pc[t].Signalling? && pc[t].c == c ==>
          pc[t].w in pc && Waiting(pc[pc[t].w]) == Some(c))
  }

  ghost predicate QueueFine(k: Kernel, c: Cond) {
    && c in k.queue && c in k.waits && c in k.signals
    && QueueOk(k.pc, c, k.queue[c], k.waits[c], k.signals[c])
  }

  /** The holder of c's lock has taken t off the queue and not yet upped it. */
  ghost predicate Picked(k: Kernel, c: Cond, t: Tid) {
    && c.lock in k.holder && k.holder[c.lock].Some?
    && k.holder[c.lock].value in k.pc
    && k.pc[k.holder[c.lock].value] == Signalling(c, t)
  }

  /** A call of cond_wait is in exactly one of three places: on the queue,
      picked by a signaller, or signalled, which its semaphore remembers until
      the caller gets there, whether or not it has fallen asleep by then. */
  ghost predicate TicketFine(k: Kernel, t: Tid) {
    t in k.pc && Waiting(k.pc[t]).Some? ==>
      var c := Waiting(k.pc[t]).value;
      && c in k.queue && WaiterSema(t) in k.semas
      && (if t in k.queue[c] then 1 else 0) + (if Picked(k, c, t) then 1 else 0)
         + k.semas[WaiterSema(t)].m.value == 1
  }

  /** A thread's move that neither starts nor ends a call of cond_wait. */
  lemma QueueFrame(pc: map<Tid, Pc>, t: Tid, next: Pc, c: Cond, q: seq<Tid>, w: seq<Tid>, s: seq<Tid>)
    requires QueueOk(pc, c, q, w, s)
    requires Waiting(next) == (if t in pc then Waiting(pc[t]) else None)
    requires !(next.Signalling? && next.c == c)
    ensures QueueOk(pc[t := next], c, q, w, s)
  {
  }

  lemma QueueEnlist(pc: map<Tid, Pc>, t: Tid, c: Cond, q: seq<Tid>, w: seq<Tid>, s: seq<Tid>)
    requires QueueOk(pc, c, q, w, s) && t in pc && Waiting(pc[t]).None?
    ensures QueueOk(pc[t := Enlisted(c)], c, q + [t], w + [t], s)
  {
    assert t !in q;
    assert w + [t] == s + (q + [t]);
  }

  lemma QueueSignal(pc: map<Tid, Pc>, t: Tid, c: Cond, q: seq<Tid>, w: seq<Tid>, s: seq<Tid>)
    requires QueueOk(pc, c, q, w, s) && t in pc && pc[t] == Outside && q != []
    ensures QueueOk(pc[t := Signalling(c, q[0])], c, q[1..], w, s + [q[0]])
  {
    assert q[0] in q;
    assert q == [q[0]] + q[1..];
    assert s + q == (s + [q[0]]) + q[1..];
  }

  /** A call that was signalled returns: it is on no queue and nobody's pick. */
  lemma QueueReturn(pc: map<Tid, Pc>, t: Tid, next: Pc, c: Cond, q: seq<Tid>, w: seq<Tid>, s: seq<Tid>)
    requires QueueOk(pc, c, q, w, s) && t in pc && t !in q && Waiting(next).None? && !next.Signalling?
    requires forall u :: u in pc && pc[u].Signalling? && pc[u].c == c ==> pc[u].w != t
    ensures QueueOk(pc[t := next], c, q, w, s)
  {
  }

  lemma SchedulerQueue(k: Kernel, e: Event, c: Cond)
    requires Defined(k, e) && CanHappen(k, e) && SchedulerEvent(e) && QueueFine(k, c)
    ensures QueueFine(Step(k, e), c)
  {
    if e.Spawn? {
      QueueFrame(k.pc, e.t, Fresh, c, k.queue[c], k.waits[c], k.signals[c]);
    } else if e.Start? {
      QueueFrame(k.pc, e.t, Outside, c, k.queue[c], k.waits[c], k.signals[c]);
    }
  }

  lemma UpQueue(k: Kernel, s: SemaId, c: Cond)
    requires s in k.semas && QueueFine(k, c)
    ensures QueueFine(UpStep(k, s), c)
  {
    var ws := k.semas[s].m.waiters;
    if ws != [] && ws[0] in k.pc && k.pc[ws[0]].Asleep? {
      QueueFrame(k.pc, ws[0], Woken(k.pc[ws[0]].sema, k.pc[ws[0]].cont), c, k.queue[c], k.waits[c], k.signals[c]);
    }
  }

  /** The signaller of a call is the holder of the condition's lock, so it is
      the one that `Picked` speaks of. */
  lemma SignallerHolds(k: Kernel, u: Tid)
    requires u in k.pc && k.pc[u].Signalling? && LockFine(k, k.pc[u].c.lock)
    ensures Picked(k, k.pc[u].c, k.pc[u].w)
  {
    assert Keeps(k.pc[u], k.pc[u].c.lock);
  }

  lemma PassQueue(k: Kernel, c: Cond)
    requires Defined(k, Pass) && QueueFine(k, c) && LockFine(k, c.lock)
    requires TicketFine(k, k.sched.current) && Calls(k, k.sched.current, At(k).sema, At(k).cont)
    ensures QueueFine(PassStep(k), c)
  {
    var t, s, cont := k.sched.current, At(k).sema, At(k).cont;
    if k.semas[s].m.value == 0 {
      QueueFrame(k.pc, t, Asleep(s, cont), c, k.queue[c], k.waits[c], k.signals[c]);
    } else if cont == Reacquire(c) {
      forall u | u in k.pc && k.pc[u].Signalling? && k.pc[u].c == c
        ensures k.pc[u].w != t
      {
        SignallerHolds(k, u);
      }
      QueueReturn(k.pc, t, AfterDown(cont), c, k.queue[c], k.waits[c], k.signals[c]);
    } else if cont.Reacquire? {
      assert Waiting(k.pc[t]) != Some(c);
      QueueReturn(k.pc, t, AfterDown(cont), c, k.queue[c], k.waits[c], k.signals[c]);
    } else {
      QueueFrame(k.pc, t, AfterDown(cont), c, k.queue[c], k.waits[c], k.signals[c]);
    }
  }

  lemma MoveQueue(k: Kernel, e: Event, c: Cond)
    requires Defined(k, e) && CanHappen(k, e) && (SemaMove(e) || LockMove(e)) && QueueFine(k, c)
    ensures QueueFine(Step(k, e), c)
  {
    var t, q, w, s := k.sched.current, k.queue[c], k.waits[c], k.signals[c];
    if e.Wait? && e.c == c {
      QueueEnlist(k.pc, t, c, q, w, s);
    } else if e.Wait? {
      assert Waiting(At(k)).None?;
      assert t !in q;
    } else if e.Signal? && k.queue[e.c] != [] && e.c == c {
      QueueSignal(k.pc, t, c, q, w, s);
    } else if e.Signal? && k.queue[e.c] != [] {
      QueueFrame(k.pc, t, Signalling(e.c, k.queue[e.c][0]), c, q, w, s);
    } else if e.Release? || e.ReleaseForWait? {
      var own, wait := if e.Release? then e.l else At(k).c.lock, if e.Release? then None else Some(At(k).c);
      QueueFrame(k.pc, t, Releasing(own, wait), c, q, w, s);
    } else if e.SetHolder? {
      QueueFrame(k.pc, t, Outside, c, q, w, s);
    } else if e.Call? {
      QueueFrame(k.pc, t, AtDown(UserSema(e.id), Return), c, q, w, s);
    } else if e.Acquire? {
      QueueFrame(k.pc, t, AtDown(LockSema(e.l), TakeLock(e.l)), c, q, w, s);
    } else if e.TryAcquire? {
      QueueFrame(k.pc, t, PastDown(e.l), c, q, w, s);
    }
  }

  lemma StepQueue(k: Kernel, e: Event, c: Cond)
    requires Defined(k, e) && CanHappen(k, e) && QueueFine(k, c) && LockFine(k, c.lock)
    requires TicketFine(k, k.sched.current) && Typed(k, k.sched.current, At(k))
    ensures QueueFine(Step(k, e), c)
  {
    var t := k.sched.current;
    if SchedulerEvent(e) {
      SchedulerQueue(k, e, c);
    } else if e.UpUser? {
      UpQueue(k, UserSema(e.id), c);
    } else if e.FinishRelease? {
      QueueFrame(k.pc, t, AfterRelease(t, At(k).wait), c, k.queue[c], k.waits[c], k.signals[c]);
      UpQueue(Depart(k), LockSema(At(k).l), c);
    } else if e.FinishSignal? {
      QueueFrame(k.pc, t, Outside, c, k.queue[c], k.waits[c], k.signals[c]);
      UpQueue(Goto(k, Outside), WaiterSema(At(k).w), c);
    } else if e.Pass? {
      PassQueue(k, c);
    } else {
      MoveQueue(k, e, c);
    }
  }

  /** Two states that agree on what a ticket depends on. */
  lemma TicketFrame(k: Kernel, k': Kernel, t: Tid)
    requires TicketFine(k, t)
    requires t in k'.pc && Waiting(k'.pc[t]).Some? ==>
      && t in k.pc && Waiting(k.pc[t]) == Waiting(k'.pc[t])
      && var c := Waiting(k.pc[t]).value;
         && (c in k.queue ==> c in k'.queue && (t in k'.queue[c] <==> t in k.queue[c]))
         && (Picked(k', c, t) <==> Picked(k, c, t))
         && (WaiterSema(t) in k.semas ==>
               WaiterSema(t) in k'.semas && k'.semas[WaiterSema(t)].m.value == k.semas[WaiterSema(t)].m.value)
    ensures TicketFine(k', t)
  {
  }

  /** Some thread that is in no call of cond_wait or cond_signal moves, or goes. */
  lemma OutsiderTicket(k: Kernel, k': Kernel, u: Tid, t: Tid)
    requires TicketFine(k, t)
    requires k'.holder == k.holder && k'.queue == k.queue && k'.semas == k.semas
    requires u in k.pc ==> Waiting(k.pc[u]).None? && !k.pc[u].Signalling?
    requires u in k'.pc ==> Waiting(k'.pc[u]).None? && !k'.pc[u].Signalling?
    requires forall x :: x != u ==> (x in k'.pc <==> x in k.pc) && (x in k.pc ==> k'.pc[x] == k.pc[x])
    ensures TicketFine(k', t)
  {
    TicketFrame(k, k', t);
  }

  lemma SchedulerTicket(k: Kernel, e: Event, t: Tid)
    requires Defined(k, e) && CanHappen(k, e) && SchedulerEvent(e) && TicketFine(k, t)
    ensures TicketFine(Step(k, e), t)
  {
    if e.Spawn? || e.Start? {
      OutsiderTicket(k, Step(k, e), e.t, t);
    } else if e.ThreadExits? {
      OutsiderTicket(k, ExitStep(k), k.sched.current, t);
    } else {
      TicketFrame(k, Step(k, e), t);
    }
  }

  /** sema_up on a semaphore other than the ticket's. */
  lemma UpOtherTicket(k: Kernel, s: SemaId, t: Tid)
    requires s in k.semas && s != WaiterSema(t) && TicketFine(k, t)
    ensures TicketFine(UpStep(k, s), t)
  {
    UpKeeps(k, s);
    TicketFrame(k, UpStep(k, s), t);
  }

  /** The running thread moves between places that are not `Signalling`. */
  lemma GotoTicket(k: Kernel, k': Kernel, next: Pc, t: Tid)
    requires Active(k) && TicketFine(k, t)
    requires k'.pc == k.pc[k.sched.current := next] && k'.holder == k.holder && k'.queue == k.queue
    requires !At(k).Signalling? && !next.Signalling? && Waiting(next) == Waiting(At(k))
    requires WaiterSema(t) in k.semas ==>
      WaiterSema(t) in k'.semas && k'.semas[WaiterSema(t)].m.value == k.semas[WaiterSema(t)].m.value
    ensures TicketFine(k', t)
  {
    TicketFrame(k, k', t);
  }

  /** The up at the end of cond_signal: the pick becomes a count. */
  lemma FinishSignalTicket(k: Kernel, t: Tid)
    requires Defined(k, FinishSignal) && TicketFine(k, t)
    requires Picked(k, At(k).c, At(k).w) && k.holder[At(k).c.lock] == Some(k.sched.current)
    requires At(k).w in k.pc && Waiting(k.pc[At(k).w]) == Some(At(k).c)
    ensures TicketFine(UpStep(Goto(k, Outside), WaiterSema(At(k).w)), t)
  {
    var w, mid := At(k).w, Goto(k, Outside);
    var k' := UpStep(mid, WaiterSema(w));
    UpKeeps(mid, WaiterSema(w));
    if t != w {
      TicketFrame(k, mid, t);
      UpOtherTicket(mid, WaiterSema(w), t);
    } else if t in k'.pc {
      assert w != k.sched.current;
      assert Waiting(k'.pc[t]) == Waiting(k.pc[t]);
      assert !Picked(k', At(k).c, t);
    }
  }

  lemma PassTicket(k: Kernel, t: Tid)
    requires Defined(k, Pass) && TicketFine(k, t) && Calls(k, k.sched.current, At(k).sema, At(k).cont)
    ensures TicketFine(PassStep(k), t)
  {
    hide TicketFine;
    var u, s, cont := k.sched.current, At(k).sema, At(k).cont;
    if k.semas[s].m.value == 0 {
      GotoTicket(k, PassStep(k), Asleep(s, cont), t);
    } else if !cont.Reacquire? {
      GotoTicket(k, PassStep(k), AfterDown(cont), t);
    } else if t != u {
      TicketFrame(k, PassStep(k), t);
    } else {
      NoTicket(PassStep(k), t);
    }
  }

  lemma NoTicket(k: Kernel, t: Tid)
    requires t in k.pc ==> Waiting(k.pc[t]).None?
    ensures TicketFine(k, t)
  {
  }

  lemma SemaMoveTicket(k: Kernel, e: Event, t: Tid)
    requires Defined(k, e) && CanHappen(k, e) && SemaMove(e) && TicketFine(k, t)
    ensures TicketFine(Step(k, e), t)
  {
    if e.Call? {
      GotoTicket(k, Step(k, e), AtDown(UserSema(e.id), Return), t);
    } else if e.Acquire? {
      GotoTicket(k, Step(k, e), AtDown(LockSema(e.l), TakeLock(e.l)), t);
    } else if e.TryAcquire? && k.semas[LockSema(e.l)].m.value > 0 {
      GotoTicket(k, Step(k, e), PastDown(e.l), t);
    } else {
      TicketFrame(k, Step(k, e), t);
    }
  }

  lemma LockMoveTicket(k: Kernel, e: Event, t: Tid)
    requires Defined(k, e) && CanHappen(k, e) && LockMove(e) && !e.Wait? && !e.Signal? && TicketFine(k, t)
    requires e.SetHolder? ==> At(k).l in k.holder && k.holder[At(k).l].None?
    requires e.ReleaseForWait? ==> Holds(k, At(k).c.lock)
    ensures TicketFine(Step(k, e), t)
  {
    TicketFrame(k, Step(k, e), t);
  }

  lemma WaitTicket(k: Kernel, c: Cond, t: Tid)
    requires Defined(k, Wait(c)) && CanHappen(k, Wait(c)) && TicketFine(k, t)
    ensures TicketFine(WaitStep(k, c), t)
  {
    var k' := WaitStep(k, c);
    if t != k.sched.current {
      TicketFrame(k, k', t);
    } else {
      assert k'.queue[c][|k.queue[c]|] == t;
    }
  }

  lemma SignalTicket(k: Kernel, c: Cond, t: Tid)
    requires Defined(k, Signal(c)) && CanHappen(k, Signal(c)) && TicketFine(k, t) && QueueFine(k, c)
    ensures TicketFine(SignalStep(k, c), t)
  {
    var k', q := SignalStep(k, c), k.queue[c];
    if q != [] {
      assert q == [q[0]] + q[1..];
      if t == q[0] {
        assert t in q;
        assert Picked(k', c, t);
      } else {
        TicketFrame(k, k', t);
      }
    }
  }

  lemma StepTicket(k: Kernel, e: Event, t: Tid)
    requires Defined(k, e) && CanHappen(k, e) && TicketFine(k, t) && Typed(k, k.sched.current, At(k))
    requires forall l :: l in k.holder ==> LockFine(k, l)
    requires forall c :: c in k.queue ==> QueueFine(k, c)
    ensures TicketFine(Step(k, e), t)
  {
    var u := k.sched.current;
    if SchedulerEvent(e) {
      SchedulerTicket(k, e, t);
    } else if e.UpUser? {
      UpOtherTicket(k, UserSema(e.id), t);
    } else if e.FinishRelease? {
      GotoTicket(k, Depart(k), AfterRelease(u, At(k).wait), t);
      UpOtherTicket(Depart(k), LockSema(At(k).l), t);
    } else if e.FinishSignal? {
      SignallerHolds(k, u);
      assert QueueFine(k, At(k).c);
      assert Keeps(At(k), At(k).c.lock);
      FinishSignalTicket(k, t);
    } else if e.Pass? {
      PassTicket(k, t);
    } else if SemaMove(e) {
      SemaMoveTicket(k, e, t);
    } else if e.Wait? {
      WaitTicket(k, e.c, t);
    } else if e.Signal? {
      SignalTicket(k, e.c, t);
    } else {
      if e.SetHolder? {
        assert InWindow(At(k), At(k).l) && LockFine(k, At(k).l);
      } else if e.ReleaseForWait? {
        assert Keeps(At(k), At(k).c.lock) && LockFine(k, At(k).c.lock);
      }
      LockMoveTicket(k, e, t);
    }
  }

  // -------------------------------------------------------------- main results

  ghost predicate Inv(k: Kernel) {
    && Threads.Inv(k.sched)
    && StatusInv(k.sched, k.pc)
    && SemaInv(k)
    && TypesInv(k)
    && (forall l :: l in k.holder ==> LockFine(k, l))
    && (forall c :: c in k.queue ==> c.lock in k.holder && QueueFine(k, c))
    && (forall t :: t in k.pc ==> TicketFine(k, t))
  }

  lemma InvQueueTyped(k: Kernel)
    requires Inv(k)
    ensures QueueTyped(k)
  {
    forall c, t | c in k.queue && t in k.queue[c]
      ensures WaiterSema(t) in k.semas
    {
      assert QueueFine(k, c);
      assert TicketFine(k, t);
    }
  }

  /** The kernel never switches to a null thread, and a step that can happen
      finds everything it needs. */
  lemma InvDefined(k: Kernel, e: Event)
    requires Threads.Inv(k.sched) && StatusInv(k.sched, k.pc) && TypesInv(k) && CanHappen(k, e)
    ensures Defined(k, e)
  {
    assert Typed(k, k.sched.current, At(k));
    assert StatusOk(k.sched, k.sched.current, At(k));
    NextExists(k.sched, DoYield);
    if k.sched.current != k.sched.idleTid || k.sched.idle.Some? {
      NextExists(k.sched, DoBlock);
    }
  }

  /** Every event keeps the invariant. */
  lemma StepKeepsInv(k: Kernel, e: Event)
    requires Inv(k) && CanHappen(k, e)
    ensures Defined(k, e) && Inv(Step(k, e))
  {
    InvDefined(k, e);
    StepKeepsCore(k, e);
    StepKeepsRest(k, e);
  }

  lemma StepKeepsCore(k: Kernel, e: Event)
    requires Inv(k) && CanHappen(k, e) && Defined(k, e)
    ensures Threads.Inv(Step(k, e).sched) && StatusInv(Step(k, e).sched, Step(k, e).pc)
    ensures SemaInv(Step(k, e)) && TypesInv(Step(k, e)) && Grows(k, Step(k, e))
  {
    OpEnabled(k, e);
    StepUsesOp(k, e);
    if OpOf(k, e).Some? {
      StepInv(k.sched, OpOf(k, e).value);
      StatusAfterStep(k.sched, OpOf(k, e).value);
    }
    StepStatus(k, e);
    if e.Wait? {
      NobodyOnOwnSema(k, k.sched.current);
    }
    StepSema(k, e);
    InvQueueTyped(k);
    StepTypes(k, e);
  }

  lemma StepKeepsRest(k: Kernel, e: Event)
    requires Inv(k) && CanHappen(k, e) && Defined(k, e) && Grows(k, Step(k, e))
    ensures forall l :: l in Step(k, e).holder ==> LockFine(Step(k, e), l)
    ensures forall c :: c in Step(k, e).queue ==> c.lock in Step(k, e).holder && QueueFine(Step(k, e), c)
    ensures forall t :: t in Step(k, e).pc ==> TicketFine(Step(k, e), t)
  {
    var k' := Step(k, e);
    assert Typed(k, k.sched.current, At(k));
    forall l | l in k'.holder
      ensures LockFine(k', l)
    {
      StepLock(k, e, l);
    }
    forall c | c in k'.queue
      ensures c.lock in k'.holder && QueueFine(k', c)
    {
      StepQueue(k, e, c);
    }
    forall t | t in k'.pc
      ensures TicketFine(k', t)
    {
      StepTicket(k, e, t);
    }
  }

  lemma FreshSema(pc: map<Tid, Pc>, s: SemaId, v: nat)
    requires v < TWO32 && forall t :: t in pc ==> pc[t] == Outside
    ensures SemaOk(pc, s, Counted(Sema(v, []), v, 0, 0))
  {
  }

  lemma FreshLock(pc: map<Tid, Pc>, l: LockId)
    requires forall t :: t in pc ==> pc[t] == Outside
    ensures LockOk(pc, l, None, {}, 1)
  {
  }

  lemma FreshQueue(pc: map<Tid, Pc>, c: Cond)
    requires forall t :: t in pc ==> pc[t] == Outside
    ensures QueueOk(pc, c, [], [], [])
  {
  }

  /** A state in which no thread has called anything yet. */
  ghost predicate Untouched(k: Kernel) {
    && k.pc.Keys == k.sched.status.Keys
    && (forall t :: t in k.pc ==>
          k.pc[t] == Outside && (k.sched.status[t] == Running || k.sched.status[t] == Ready))
    && k.queue.Keys == k.waits.Keys == k.signals.Keys && k.holder.Keys == k.inside.Keys
    && (forall s :: s in k.semas ==>
          k.semas[s].m.value < TWO32 && k.semas[s] == Counted(Sema(k.semas[s].m.value, []), k.semas[s].m.value, 0, 0))
    && (forall l :: l in k.holder ==>
          LockSema(l) in k.semas && k.semas[LockSema(l)].m.value == 1 && k.holder[l] == None && k.inside[l] == {})
    && (forall c :: c in k.queue ==>
          c.lock in k.holder && k.queue[c] == [] && k.waits[c] == [] && k.signals[c] == [])
  }

  lemma UntouchedInv(k: Kernel)
    requires Threads.Inv(k.sched) && Untouched(k)
    ensures Inv(k)
  {
    forall s | s in k.semas
      ensures SemaOk(k.pc, s, k.semas[s])
    {
      FreshSema(k.pc, s, k.semas[s].m.value);
    }
    forall l | l in k.holder
      ensures LockFine(k, l)
    {
      FreshLock(k.pc, l);
    }
    forall c | c in k.queue
      ensures QueueFine(k, c)
    {
      FreshQueue(k.pc, c);
    }
    assert forall t :: t in k.pc ==> Typed(k, t, k.pc[t]) && TicketFine(k, t);
  }

  /** What can be set up before the threads start: semaphores of any value, free
      locks, and conditions with their locks. */
  ghost predicate Bootable(main: Tid, idleTid: Tid, values: map<SemaId, nat>, locks: set<LockId>, conds: set<Cond>) {
    && main != idleTid
    && (forall s :: s in values ==> values[s] < TWO32)
    && (forall l :: l in locks ==> LockSema(l) in values && values[LockSema(l)] == 1)
    && (forall c :: c in conds ==> c.lock in locks)
  }

  lemma BootKeepsInv(main: Tid, idleTid: Tid, values: map<SemaId, nat>, locks: set<LockId>, conds: set<Cond>)
    requires Bootable(main, idleTid, values, locks, conds)
    ensures Inv(Boot(main, idleTid, values, locks, conds))
  {
    BootInv(main, idleTid);
    assert Untouched(Boot(main, idleTid, values, locks, conds));
    UntouchedInv(Boot(main, idleTid, values, locks, conds));
  }

  /** Can these events happen in order from k? */
  ghost predicate Legal(k: Kernel, es: seq<Event>)
    requires Inv(k)
    decreases |es|
  {
    es == [] || (CanHappen(k, es[0]) && (StepKeepsInv(k, es[0]); Legal(Step(k, es[0]), es[1..])))
  }

  /** The state after a run; every reachable state satisfies the invariant. */
  ghost function Run(k: Kernel, es: seq<Event>): (r: Kernel)
    requires Inv(k) && Legal(k, es)
    ensures Inv(r)
    decreases |es|
  {
    if es == [] then k else (StepKeepsInv(k, es[0]); Run(Step(k, es[0]), es[1..]))
  }

  ghost predicate RunsFromBoot(main: Tid, idleTid: Tid, values: map<SemaId, nat>, locks: set<LockId>, conds: set<Cond>,
                               es: seq<Event>, k: Kernel) {
    && Bootable(main, idleTid, values, locks, conds)
    && (BootKeepsInv(main, idleTid, values, locks, conds);
        Legal(Boot(main, idleTid, values, locks, conds), es) && Run(Boot(main, idleTid, values, locks, conds), es) == k)
  }

  /** The states of all runs from all initial states. */
  ghost predicate Reachable(k: Kernel) {
    exists main, idleTid, values, locks, conds, es :: RunsFromBoot(main, idleTid, values, locks, conds, es, k)
  }

  /** What holds under the invariant holds in every reachable state. */
  lemma ReachableInv(k: Kernel)
    requires Reachable(k)
    ensures Inv(k)
  {
    var main, idleTid, values, locks, conds, es :| RunsFromBoot(main, idleTid, values, locks, conds, es, k);
    BootKeepsInv(main, idleTid, values, locks, conds);
  }

  /** Every step from a reachable state is defined and leads to a reachable state. */
  lemma StepReaches(k: Kernel, e: Event)
    requires Reachable(k) && CanHappen(k, e)
    ensures Defined(k, e) && Reachable(Step(k, e))
  {
    hide Inv, CanHappen, Defined, Step, Boot, Bootable;
    ReachableInv(k);
    StepKeepsInv(k, e);
    var main, idleTid, values, locks, conds, es :| RunsFromBoot(main, idleTid, values, locks, conds, es, k);
    BootKeepsInv(main, idleTid, values, locks, conds);
    OneEventMore(Boot(main, idleTid, values, locks, conds), es, e);
    assert RunsFromBoot(main, idleTid, values, locks, conds, es + [e], Step(k, e));
  }

  lemma {:induction false} OneEventMore(k: Kernel, es: seq<Event>, e: Event)
    requires Inv(k) && Legal(k, es) && CanHappen(Run(k, es), e)
    ensures Legal(k, es + [e]) && Defined(Run(k, es), e) && Run(k, es + [e]) == Step(Run(k, es), e)
    decreases |es|
  {
    hide Inv, CanHappen, Defined, Step;
    StepKeepsInv(Run(k, es), e);
    if es == [] {
      assert es + [e] == [e] && [e][1..] == [];
    } else {
      StepKeepsInv(k, es[0]);
      OneEventMore(Step(k, es[0]), es[1..], e);
      assert (es + [e])[0] == es[0] && (es + [e])[1..] == es[1..] + [e];
    }
  }

  /** The scheduler's part in a run. */
  ghost function Ops(k: Kernel, es: seq<Event>): seq<Op>
    requires Inv(k) && Legal(k, es)
    decreases |es|
  {
    if es == [] then []
    else
      StepKeepsInv(k, es[0]);
      (if OpOf(k, es[0]).Some? then [OpOf(k, es[0]).value] else []) + Ops(Step(k, es[0]), es[1..])
  }

  lemma StepRefines(k: Kernel, e: Event)
    requires Inv(k) && CanHappen(k, e)
    ensures Defined(k, e)
    ensures OpOf(k, e).None? ==> Step(k, e).sched == k.sched
    ensures OpOf(k, e).Some? ==>
      && Enabled(k.sched, OpOf(k, e).value)
      && (StepInv(k.sched, OpOf(k, e).value); Step(k, e).sched == Apply(k.sched, OpOf(k, e).value))
  {
    InvDefined(k, e);
    OpEnabled(k, e);
    StepUsesOp(k, e);
    if OpOf(k, e).Some? {
      StepInv(k.sched, OpOf(k, e).value);
    }
  }

  /** A run of the kernel is a run of the scheduler, so what is proved of every
      scheduler run (`Threads.DispatchedAtItsTurn`, `Threads.TurnComesWithinTicks`)
      holds however the threads use the primitives. */
  lemma {:induction false} RunRefinesScheduler(k: Kernel, es: seq<Event>)
    requires Inv(k) && Legal(k, es)
    ensures Threads.Legal(k.sched, Ops(k, es))
    ensures Threads.Run(k.sched, Ops(k, es)) == Run(k, es).sched
    decreases |es|
  {
    if es != [] {
      StepKeepsInv(k, es[0]);
      StepRefines(k, es[0]);
      RunRefinesScheduler(Step(k, es[0]), es[1..]);
      PrependOp(k.sched, OpOf(k, es[0]), Step(k, es[0]).sched, Ops(Step(k, es[0]), es[1..]));
    }
  }

  lemma PrependOp(s: Sched, op: Option<Op>, s': Sched, rest: seq<Op>)
    requires Threads.Inv(s) && Threads.Inv(s') && Threads.Legal(s', rest)
    requires op.None? ==> s' == s
    requires op.Some? ==> Enabled(s, op.value) && (StepInv(s, op.value); s' == Apply(s, op.value))
    ensures var ops := (if op.Some? then [op.value] else []) + rest;
      Threads.Legal(s, ops) && Threads.Run(s, ops) == Threads.Run(s', rest)
  {
    var ops := (if op.Some? then [op.value] else []) + rest;
    if op.Some? {
      assert ops[1..] == rest;
    } else {
      assert ops == rest;
    }
  }

  /** A preemption, or the tick that ends a slice, gives the processor to the thread
      that has waited longest; the one preempted waits behind all others.  Any other
      tick lets it run on. */
  lemma PreemptionIsFair(k: Kernel, e: Event)
    requires Inv(k) && CanHappen(k, e) && (e.Preempt? || e.TimerTick?)
    ensures Defined(k, e)
    ensures var s, s' := k.sched, Step(k, e).sched;
      if e.TimerTick? && s.ticks + 1 < TIME_SLICE then s' == s.(ticks := s.ticks + 1)
      else s.ready != [] ==>
        && s'.current == s.ready[0] && s'.ticks == 0
        && s'.ready == s.ready[1..] + if s.idle == Some(s.current) then [] else [s.current]
  {
    hide Inv, CanHappen, Threads.Yield, Requeue;
    InvDefinedNow(k, e);
    if k.sched.ready != [] {
      YieldGoesRound(k.sched);
    }
  }

  lemma InvDefinedNow(k: Kernel, e: Event)
    requires Inv(k) && CanHappen(k, e)
    ensures Defined(k, e)
  {
    InvDefined(k, e);
  }

  /** No lost wakeup: while threads sleep on a semaphore, for every unit of its
      count there is a thread already woken that has yet to retest the loop, and
      all those threads are running or on the run queue. */
  lemma NoLostWakeup(k: Kernel, s: SemaId)
    requires Inv(k) && s in k.semas && k.semas[s].m.waiters != []
    ensures k.semas[s].m.value <= |WokenOn(k.pc, s)|
    ensures forall t :: t in WokenOn(k.pc, s) ==> t == k.sched.current || t in k.sched.ready
  {
    assert SemaOk(k.pc, s, k.semas[s]);
    forall t | t in WokenOn(k.pc, s) ensures t == k.sched.current || t in k.sched.ready {
      assert StatusOk(k.sched, t, k.pc[t]);
    }
  }

  /** A woken thread that is not running stays woken whatever the others do. */
  lemma OthersKeepWoken(k: Kernel, e: Event, t: Tid)
    requires Defined(k, e) && CanHappen(k, e) && t in k.pc && k.pc[t].Woken? && t != k.sched.current
    ensures t in Step(k, e).pc && Step(k, e).pc[t] == k.pc[t]
  {
    if SchedulerEvent(e) {
      SchedulerKeepsWoken(k, e, t);
    } else if e.Pass? {
      PassKeepsWoken(k, t);
    } else if e.UpUser? {
      UpKeepsWoken(k, UserSema(e.id), t);
    } else if e.FinishRelease? {
      UpKeepsWoken(Depart(k), LockSema(At(k).l), t);
    } else if e.FinishSignal? {
      UpKeepsWoken(Goto(k, Outside), WaiterSema(At(k).w), t);
    } else if SemaMove(e) {
      SemaMoveKeepsWoken(k, e, t);
    } else {
      LockMoveKeepsWoken(k, e, t);
    }
  }

  lemma SchedulerKeepsWoken(k: Kernel, e: Event, t: Tid)
    requires Defined(k, e) && CanHappen(k, e) && SchedulerEvent(e)
    requires t in k.pc && k.pc[t].Woken? && t != k.sched.current
    ensures t in Step(k, e).pc && Step(k, e).pc[t] == k.pc[t]
  {
  }

  lemma PassKeepsWoken(k: Kernel, t: Tid)
    requires Defined(k, Pass) && t in k.pc && k.pc[t].Woken? && t != k.sched.current
    ensures t in PassStep(k).pc && PassStep(k).pc[t] == k.pc[t]
  {
  }

  lemma UpKeepsWoken(k: Kernel, s: SemaId, t: Tid)
    requires s in k.semas && t in k.pc && k.pc[t].Woken?
    ensures t in UpStep(k, s).pc && UpStep(k, s).pc[t] == k.pc[t]
  {
  }

  lemma SemaMoveKeepsWoken(k: Kernel, e: Event, t: Tid)
    requires Defined(k, e) && SemaMove(e) && t in k.pc && k.pc[t].Woken? && t != k.sched.current
    ensures t in Step(k, e).pc && Step(k, e).pc[t] == k.pc[t]
  {
  }

  lemma LockMoveKeepsWoken(k: Kernel, e: Event, t: Tid)
    requires Defined(k, e) && LockMove(e) && t in k.pc && k.pc[t].Woken? && t != k.sched.current
    ensures t in Step(k, e).pc && Step(k, e).pc[t] == k.pc[t]
  {
  }

  lemma QueuedIsNotRunning(s: Sched, t: Tid)
    requires Threads.Inv(s) && t in s.ready
    ensures t != s.current
  {
  }

  /** One event: the thread stays woken, and its place in the run queue goes up with
      every switch. */
  lemma WokenStep(k: Kernel, e: Event, s: SemaId, t: Tid, i: nat)
    requires Inv(k) && CanHappen(k, e) && t in WokenOn(k.pc, s) && i < |k.sched.ready| && k.sched.ready[i] == t
    ensures Defined(k, e) && t in WokenOn(Step(k, e).pc, s)
    ensures var op := OpOf(k, e); var switches := op.Some? && Schedules(k.sched, op.value);
      var j := if switches then i - 1 else i;
      j >= 0 ==> j < |Step(k, e).sched.ready| && Step(k, e).sched.ready[j] == t
  {
    hide Step, CanHappen, OpOf, Defined, Schedules, Apply;
    StepRefines(k, e);
    QueuedIsNotRunning(k.sched, t);
    OthersKeepWoken(k, e, t);
    if OpOf(k, e).Some? {
      PlaceAfterStep(k.sched, OpOf(k, e).value, i);
    }
  }

  /** So it is still woken, at its place, after any run with no more switches than
      there are threads before it. */
  lemma {:induction false} WokenStays(k: Kernel, es: seq<Event>, s: SemaId, t: Tid, i: nat)
    requires Inv(k) && Legal(k, es) && t in WokenOn(k.pc, s) && i < |k.sched.ready| && k.sched.ready[i] == t
    requires (RunRefinesScheduler(k, es); Switches(k.sched, Ops(k, es)) <= i)
    ensures t in WokenOn(Run(k, es).pc, s)
    ensures var j := i - Switches(k.sched, Ops(k, es)); var r := Run(k, es).sched;
      j < |r.ready| && r.ready[j] == t
    decreases |es|
  {
    hide Inv, Step, CanHappen, Defined, OpOf, WokenOn, Schedules, Apply;
    RunRefinesScheduler(k, es);
    if es != [] {
      var e, rest := es[0], es[1..];
      StepKeepsInv(k, e);
      WokenStep(k, e, s, t, i);
      var k', op := Step(k, e), OpOf(k, e);
      RunRefinesScheduler(k', rest);
      StepRefines(k, e);
      SchedulerInv(k);
      SchedulerInv(k');
      SwitchesAfter(k.sched, op, k'.sched, Ops(k', rest));
      WokenStays(k', rest, s, t, if op.Some? && Schedules(k.sched, op.value) then i - 1 else i);
    }
  }

  lemma SchedulerInv(k: Kernel)
    requires Inv(k)
    ensures Threads.Inv(k.sched)
  {
  }

  lemma SwitchesAfter(s: Sched, op: Option<Op>, s': Sched, rest: seq<Op>)
    requires Threads.Inv(s) && Threads.Inv(s') && Threads.Legal(s', rest)
    requires op.None? ==> s' == s
    requires op.Some? ==> Enabled(s, op.value) && (StepInv(s, op.value); s' == Apply(s, op.value))
    ensures var ops := (if op.Some? then [op.value] else []) + rest;
      && Threads.Legal(s, ops)
      && Switches(s, ops) == (if op.Some? && Schedules(s, op.value) then 1 else 0) + Switches(s', rest)
  {
    PrependOp(s, op, s', rest);
    if op.Some? {
      assert ([op.value] + rest)[1..] == rest;
    } else {
      assert [] + rest == rest;
    }
  }

  /** And that thread retests the count at its turn: after as many schedule() calls as
      there are threads before it, the next one switches to it, it is still woken then,
      and a pass of the loop is all that can happen next. */
  lemma WokenThreadGetsItsTurn(k: Kernel, s: SemaId, t: Tid, i: nat, es: seq<Event>, e: Event)
    requires Inv(k) && Legal(k, es) && t in WokenOn(k.pc, s)
    requires i < |k.sched.ready| && k.sched.ready[i] == t
    requires (RunRefinesScheduler(k, es); Switches(k.sched, Ops(k, es)) == i)
    requires CanHappen(Run(k, es), e) && Defined(Run(k, es), e)
    requires OpOf(Run(k, es), e).Some? && Schedules(Run(k, es).sched, OpOf(Run(k, es), e).value)
    ensures Step(Run(k, es), e).sched.current == t
    ensures t in WokenOn(Step(Run(k, es), e).pc, s)
    ensures forall next :: CanHappen(Step(Run(k, es), e), next) ==> next == Pass
  {
    var r, op := Run(k, es), OpOf(Run(k, es), e).value;
    RunRefinesScheduler(k, es);
    StepRefines(r, e);
    DispatchedAtItsTurn(k.sched, Ops(k, es), op, i);
    WokenStays(k, es, s, t, i);
    WokenStep(r, e, s, t, 0);
    OnlyPass(Step(r, e), t);
  }

  lemma OnlyPass(k: Kernel, t: Tid)
    requires k.sched.current == t && t in k.pc && k.pc[t].Woken?
    ensures forall next :: CanHappen(k, next) ==> next == Pass
  {
  }

  /** Every sleeper is blocked and sleeps on one semaphore only, at one place. */
  lemma SleepersBlockedOnce(k: Kernel, r: SemaId, s: SemaId, t: Tid)
    requires Inv(k) && r in k.semas && s in k.semas && t in k.semas[r].m.waiters && t in k.semas[s].m.waiters
    ensures r == s && t in k.sched.status && k.sched.status[t] == Blocked && t !in k.sched.ready
    ensures NoDup(k.semas[r].m.waiters)
  {
    assert SemaOk(k.pc, r, k.semas[r]) && SemaOk(k.pc, s, k.semas[s]);
    assert StatusOk(k.sched, t, k.pc[t]);
  }

  /** The count of a semaphore, as an unsigned int: what it started with, plus
      the ups, less the completed downs, of which there are never more. */
  lemma CountIsUpsLessDowns(k: Kernel, s: SemaId)
    requires Inv(k) && s in k.semas
    ensures k.semas[s].downs <= k.semas[s].initial + k.semas[s].ups
    ensures k.semas[s].m.value == (k.semas[s].initial + k.semas[s].ups - k.semas[s].downs) % TWO32
  {
    assert SemaOk(k.pc, s, k.semas[s]);
  }

  /** Mutual exclusion across the windows in which holder is null: two threads
      between their down and their up of the same lock are the same thread, the
      count is then zero, and a recorded holder is that thread. */
  lemma MutualExclusion(k: Kernel, l: LockId, t: Tid, u: Tid)
    requires Inv(k) && l in k.holder && l in k.inside && t in k.inside[l] && u in k.inside[l]
    ensures t == u && k.semas[LockSema(l)].m.value == 0
    ensures k.holder[l].Some? ==> k.holder[l].value == t
  {
    assert LockFine(k, l);
    OnlyOneInside(k.pc, l, k.holder[l], k.inside[l], k.semas[LockSema(l)].m.value, t);
  }

  /** The assertions of synch.c hold where cond_wait calls the lock functions:
      the lock is held when it is to be released and not when it is retaken. */
  lemma WaiterAssertionsHold(k: Kernel)
    requires Inv(k)
    ensures At(k).Enlisted? ==> Holds(k, At(k).c.lock)
    ensures At(k).AtDown? && At(k).cont.TakeLock? ==> !Holds(k, At(k).cont.l)
  {
    assert Typed(k, k.sched.current, At(k));
    if At(k).Enlisted? {
      assert LockFine(k, At(k).c.lock) && Keeps(At(k), At(k).c.lock);
    } else if At(k).AtDown? && At(k).cont.TakeLock? {
      assert LockFine(k, At(k).cont.l) && Wants(At(k), At(k).cont.l);
    }
  }

  /** Signals go to calls of cond_wait in the order of the calls, each call
      being signalled at most once: the n-th signal chose the n-th call. */
  lemma SignalsInOrder(k: Kernel, c: Cond, n: nat)
    requires Inv(k) && c in k.queue && n < |k.signals[c]|
    ensures |k.signals[c]| + |k.queue[c]| == |k.waits[c]| && n < |k.waits[c]|
    ensures k.signals[c][n] == k.waits[c][n]
    ensures k.queue[c] == k.waits[c][|k.signals[c]|..]
  {
    assert QueueFine(k, c);
  }

  /** A caller asleep on its own semaphore finds no count there. */
  lemma AsleepMeansNoCount(k: Kernel, t: Tid)
    requires SemaInv(k) && TypesInv(k)
    requires t in k.pc && k.pc[t].Asleep? && k.pc[t].sema == WaiterSema(t) && WaiterSema(t) in k.semas
    ensures k.semas[WaiterSema(t)].m.value == 0
  {
    var s := WaiterSema(t);
    assert SemaOk(k.pc, s, k.semas[s]);
    assert t in k.semas[s].m.waiters;
    NobodyElseOnSema(k, t);
    assert WokenOn(k.pc, s) == {};
  }

  lemma SignalledTicket(k: Kernel, t: Tid, c: Cond)
    requires t in k.pc && TicketFine(k, t) && Typed(k, t, k.pc[t]) && Waiting(k.pc[t]) == Some(c)
    requires SemaInv(k) && TypesInv(k)
    ensures c in k.queue && WaiterSema(t) in k.semas
    ensures k.pc[t].AtDown? || k.pc[t].Woken? || k.pc[t].Asleep? ==> k.pc[t].sema == WaiterSema(t)
    ensures t !in k.queue[c] && !Picked(k, c, t) ==> k.semas[WaiterSema(t)].m.value == 1 && !k.pc[t].Asleep?
    ensures t in k.queue[c] || Picked(k, c, t) ==> k.semas[WaiterSema(t)].m.value == 0
  {
    if k.pc[t].Asleep? {
      AsleepMeansNoCount(k, t);
    }
  }

  /** A signal is not lost on a caller that has not fallen asleep yet.  Once a
      call has been signalled its semaphore has one count and the caller is not
      asleep, so its next pass of the loop gets through; until then the count is
      zero and it does not. */
  lemma SignalReachesCaller(k: Kernel, t: Tid, c: Cond)
    requires Inv(k) && t in k.pc && Waiting(k.pc[t]) == Some(c)
    ensures c in k.queue && WaiterSema(t) in k.semas
    ensures k.pc[t].AtDown? || k.pc[t].Woken? || k.pc[t].Asleep? ==> k.pc[t].sema == WaiterSema(t)
    ensures t !in k.queue[c] && !Picked(k, c, t) ==> k.semas[WaiterSema(t)].m.value == 1 && !k.pc[t].Asleep?
    ensures t in k.queue[c] || Picked(k, c, t) ==> k.semas[WaiterSema(t)].m.value == 0
  {
    SignalledTicket(k, t, c);
  }

  lemma NobodyElseOnSema(k: Kernel, t: Tid)
    requires TypesInv(k)
    ensures forall u :: u in k.pc && Sleepy(k.pc[u]) && k.pc[u].sema == WaiterSema(t) ==> u == t
  {
    forall u | u in k.pc && Sleepy(k.pc[u]) && k.pc[u].sema == WaiterSema(t)
      ensures u == t
    {
      assert Typed(k, u, k.pc[u]);
    }
  }
}
