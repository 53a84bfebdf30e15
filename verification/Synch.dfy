/**
 Semaphores, locks and condition variables of threads/synch.c, one
 interrupts-off section at a time.

 `Sema` is a semaphore as a value and `DownPass`, `TryDown` and `Up` say what
 one section does to it and to the scheduler.  The classes hold the fields of
 synch.h and their methods are proved to do exactly that.  What follows from
 these sections when any number of threads interleave is in SynchSystem.dfy.
 */
module Synch {
  import opened Common
  import opened Threads

  /** `value` is an unsigned int, so it is below TWO32. */
  datatype Sema = Sema(value: nat, waiters: seq<Tid>)

  /** One pass of the loop in sema_down: sleep at the tail of the waiters, or
      take a unit and leave the loop (the third component). */
  function DownPass(m: Sema, s: Sched): (Sema, Sched, bool)
    requires m.value == 0 ==> PickNext(s).Some?
  {
    if m.value == 0 then (m.(waiters := m.waiters + [s.current]), Block(s), false)
    else (m.(value := m.value - 1), s, true)
  }

  function TryDown(m: Sema): (Sema, bool) {
    if m.value > 0 then (m.(value := m.value - 1), true) else (m, false)
  }

  /** sema_up: the longest waiting thread becomes ready, and the count goes up. */
  function Up(m: Sema, s: Sched): (Sema, Sched) {
    var value := (m.value + 1) % TWO32;
    if m.waiters == [] then (Sema(value, []), s)
    else (Sema(value, m.waiters[1..]), Unblock(s, m.waiters[0]))
  }

  /** Upping a semaphore on which at most one thread sleeps. */
  lemma OneSleeper(m: Sema, s: Sched)
    requires |m.waiters| <= 1
    ensures Up(m, s).0 == Sema((m.value + 1) % TWO32, [])
  {
  }

  /** The scheduler after one `Up` of each of these semaphores, in order. */
  function UpAll(ms: seq<Sema>, s: Sched): Sched {
    if ms == [] then s else UpAll(ms[1..], Up(ms[0], s).1)
  }

  class Semaphore {
    var value: nat
    var waiters: seq<Tid>

    ghost function View(): Sema
      reads this
    {
      Sema(value, waiters)
    }

    constructor (v: nat)
      requires v < TWO32
      ensures View() == Sema(v, [])
    {
      value := v;
      waiters := [];
    }

    /** From the test of the loop to the thread switch, or to the return. */
    method DownSection(scheduler: Scheduler) returns (done: bool)
      requires value == 0 ==> PickNext(scheduler.View()).Some?
      modifies this, scheduler
      ensures (View(), scheduler.View(), done) == DownPass(old(View()), old(scheduler.View()))
      ensures done <==> old(value) > 0
      ensures done ==> value == old(value) - 1 && waiters == old(waiters)
      ensures !done ==> value == 0 && waiters == old(waiters) + [old(scheduler.current)]
    {
      if value == 0 {
        waiters := waiters + [scheduler.current];
        scheduler.ThreadBlock();
        done := false;
      } else {
        value := value - 1;
        done := true;
      }
    }

    method TryDownSection() returns (success: bool)
      modifies this
      ensures (View(), success) == TryDown(old(View()))
      ensures success <==> old(value) > 0
      ensures waiters == old(waiters) && value == if success then old(value) - 1 else old(value)
    {
      if value > 0 {
        value := value - 1;
        success := true;
      } else {
        success := false;
      }
    }

    method UpSection(scheduler: Scheduler)
      requires waiters != [] ==> waiters[0] in scheduler.status && scheduler.status[waiters[0]] == Blocked
      modifies this, scheduler
      ensures (View(), scheduler.View()) == Up(old(View()), old(scheduler.View()))
      ensures value == (old(value) + 1) % TWO32
      ensures old(waiters) == [] ==> waiters == [] && scheduler.View() == old(scheduler.View())
      ensures old(waiters) != [] ==>
        var t := old(waiters)[0];
        && old(waiters) == [t] + waiters
        && scheduler.status == old(scheduler.status)[t := Ready] && scheduler.readyList == old(scheduler.readyList) + [t]
    {
      if |waiters| != 0 {
        var t := waiters[0];
        waiters := waiters[1..];
        scheduler.ThreadUnblock(t);
      }
      value := (value + 1) % TWO32;
    }
  }

  class Lock {
    var holder: Option<Tid>
    const semaphore: Semaphore

    constructor ()
      ensures holder == None && fresh(semaphore) && semaphore.View() == Sema(1, [])
    {
      holder := None;
      semaphore := new Semaphore(1);
    }

    predicate HeldBy(t: Tid)
      reads this
    {
      holder == Some(t)
    }

    /** lock_acquire once sema_down has returned. */
    method FinishAcquire(scheduler: Scheduler)
      modifies this
      ensures holder == Some(scheduler.current)
    {
      holder := Some(scheduler.current);
    }

    method TryAcquire(scheduler: Scheduler) returns (success: bool)
      requires !HeldBy(scheduler.current)
      modifies this, semaphore
      ensures (semaphore.View(), success) == TryDown(old(semaphore.View()))
      ensures success <==> old(semaphore.value) > 0
      ensures holder == if success then Some(scheduler.current) else old(holder)
    {
      success := semaphore.TryDownSection();
      if success {
        holder := Some(scheduler.current);
      }
    }

    method Release(scheduler: Scheduler)
      requires HeldBy(scheduler.current)
      requires semaphore.waiters != [] ==>
        semaphore.waiters[0] in scheduler.status && scheduler.status[semaphore.waiters[0]] == Blocked
      modifies this, semaphore, scheduler
      ensures holder == None
      ensures (semaphore.View(), scheduler.View()) == Up(old(semaphore.View()), old(scheduler.View()))
    {
      holder := None;
      semaphore.UpSection(scheduler);
    }
  }

  /** The waiters of a condition: each is the private semaphore of one call of
      cond_wait, oldest call first. */
  class Condition {
    var waiters: seq<Semaphore>

    constructor ()
      ensures waiters == []
    {
      waiters := [];
    }

    /** The sleepers of every queued semaphore are blocked, each on one of them. */
    ghost predicate Wakeable(scheduler: Scheduler)
      reads this, waiters, scheduler
    {
      && NoDup(waiters)
      && (forall i, x :: 0 <= i < |waiters| && x in waiters[i].waiters ==>
            x in scheduler.status && scheduler.status[x] == Blocked)
      && (forall i, j, x :: 0 <= i < j < |waiters| && x in waiters[i].waiters ==> x !in waiters[j].waiters)
    }

    /** The part of cond_wait before the lock is released. */
    method Enlist() returns (waiter: Semaphore)
      modifies this
      ensures fresh(waiter) && waiter.View() == Sema(0, [])
      ensures waiters == old(waiters) + [waiter]
    {
      waiter := new Semaphore(0);
      waiters := waiters + [waiter];
    }

    ghost function Views(): seq<Sema>
      reads this, waiters
    {
      seq(|waiters|, i requires 0 <= i < |waiters| reads this, waiters => waiters[i].View())
    }

    method Signal(scheduler: Scheduler)
      requires Wakeable(scheduler)
      modifies this, waiters, scheduler
      ensures old(waiters) == [] ==> waiters == [] && scheduler.View() == old(scheduler.View())
      ensures old(waiters) != [] ==>
        && waiters == old(waiters)[1..]
        && Views() == old(Views())[1..]
        && (old(waiters)[0].View(), scheduler.View()) == Up(old(waiters[0].View()), old(scheduler.View()))
      ensures forall i :: 1 <= i < |old(waiters)| ==> old(waiters)[i].View() == old(waiters[i].View())
      ensures |old(waiters)| > 0 && |old(waiters[0].waiters)| <= 1 ==> Wakeable(scheduler)
    {
      if |waiters| != 0 {
        var w := waiters[0];
        waiters := waiters[1..];
        assert w.waiters != [] ==> w.waiters[0] in w.waiters;
        w.UpSection(scheduler);
      }
    }

    /** Every queued call is woken, oldest first, and leaves the queue. */
    method Broadcast(scheduler: Scheduler)
      requires Wakeable(scheduler)
      requires forall w :: w in waiters ==> |w.waiters| <= 1
      modifies this, waiters, scheduler
      ensures waiters == []
      ensures scheduler.View() == UpAll(old(Views()), old(scheduler.View()))
      ensures forall w :: w in old(waiters) ==> w.value == (old(w.value) + 1) % TWO32 && w.waiters == []
    {
      hide Up;
      ghost var all := waiters;
      ghost var n := 0;
      while |waiters| != 0
        invariant n <= |all| && waiters == all[n..]
        invariant Wakeable(scheduler)
        invariant forall i :: n <= i < |all| ==> all[i].View() == old(all[i].View())
        invariant forall i :: 0 <= i < n ==> all[i].value == (old(all[i].value) + 1) % TWO32 && all[i].waiters == []
        invariant UpAll(Views(), scheduler.View()) == UpAll(old(Views()), old(scheduler.View()))
        decreases |waiters|
      {
        ghost var views := Views();
        assert views[0] == all[n].View();
        OneSleeper(views[0], scheduler.View());
        Signal(scheduler);
        n := n + 1;
      }
    }
  }
}
