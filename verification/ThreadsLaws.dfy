/** Consequences over whole runs: mutual exclusion, nesting, no lost wake-up, one list per thread; what
    thread_yield does as written; and how long a ready thread waits. */
module ThreadsLaws {
  import opened Bits
  import opened Threads
  import opened ThreadsSafety

  // ---------- locks ----------

  // t is between the end of sema_down and the start of sema_up of lock l
  predicate InCritical(k: Kernel, l: Lid, t: Tid)
    requires l in k.locks && t in k.threads
  {
    (k.threads[t].pc.Lock() == Some(l) && k.threads[t].pc.Inside()) || k.locks[l].holder == Some(t)
  }

  function Critical(k: Kernel, l: Lid): set<Tid>
    requires l in k.locks
  {
    set t | t in k.threads && InCritical(k, l, t)
  }

  // In every reachable state the semaphore's value and the number of threads inside add up to 1.
  lemma MutualExclusion(k: Kernel, es: seq<Event>, l: Lid)
    requires Inv(k) && CanRun(k, es) && l in k.locks
    ensures RunAll(k, es).Some? && l in RunAll(k, es).value.locks
    ensures RunAll(k, es).value.locks[l].value + |Critical(RunAll(k, es).value, l)| == 1
  {
    RunsAreSafe(k, es);
    LocksStay(k, es);
    var k1 := RunAll(k, es).value;
    assert LockOk(k1, l);
    OwnerAlone(k1, l);
  }

  // the owner, if any, is the one thread inside
  lemma OwnerAlone(k: Kernel, l: Lid)
    requires l in k.locks && OwnerOk(k, l) && forall t :: t in k.threads ==> AccessOk(k, l, t)
    ensures k.locks[l].value + |Critical(k, l)| == 1
  {
    var o := k.locks[l].owner;
    forall t | t in k.threads
      ensures InCritical(k, l, t) <==> o == Some(t)
    {
      assert AccessOk(k, l, t);
    }
    assert Critical(k, l) == if o == None then {} else {o.value};
  }

  lemma {:induction false} LocksStay(k: Kernel, es: seq<Event>)
    requires Inv(k) && CanRun(k, es)
    ensures RunAll(k, es).Some? && RunAll(k, es).value.locks.Keys == k.locks.Keys
    decreases |es|
  {
    if es != [] {
      StepKeeps(k, es[0]);
      StepLockKeys(k, es[0]);
      LocksStay(Step(k, es[0]).value, es[1..]);
    }
  }

  lemma StepLockKeys(k: Kernel, e: Event)
    requires Enabled(k, e) && Step(k, e).Some?
    ensures Step(k, e).value.locks.Keys == k.locks.Keys
  {
  }

  // No wake-up is lost: if the lock is free and threads wait for it, a thread taken off the waiters' list
  // is ready or running and about to test the semaphore again.
  lemma NoLostWakeup(k: Kernel, es: seq<Event>, l: Lid)
    requires Inv(k) && CanRun(k, es) && l in k.locks
    ensures RunAll(k, es).Some? && l in RunAll(k, es).value.locks
    ensures var k1 := RunAll(k, es).value;
            k1.locks[l].value == 1 && k1.locks[l].waiters != [] ==>
              exists t :: t in k1.threads && t !in k1.locks[l].waiters && k1.threads[t].pc == DownLoop(l)
                          && (k1.threads[t].status.Ready? || k1.threads[t].status.Running?)
  {
    RunsAreSafe(k, es);
    LocksStay(k, es);
    var k1 := RunAll(k, es).value;
    assert LockOk(k1, l) && WaitersOk(k1, l);
    if k1.locks[l].value == 1 && k1.locks[l].waiters != [] {
      var t :| OnItsWay(k1, l, t);
      assert PcOk(k1, t);
    }
  }

  // calls of lock_acquire that thread t has made on l and not undone by a call of lock_release
  function Nesting(k: Kernel, l: Lid, t: Tid): int
    requires l in k.locks && t in k.threads
  {
    var pc, lk := k.threads[t].pc, k.locks[l];
    if pc.Lock() == Some(l) && (pc.Down? || pc.DownLoop? || pc.SetHolder? || pc.SetRepeat?) then 1
    else if pc == AcqNest(l) then lk.repeat + 1
    else if pc.Lock() == Some(l) && (pc.RelCheck? || pc.RelDec? || pc.ClearHolder?) then lk.repeat - 1
    else if pc.Lock() == Some(l) then 0
    else if lk.holder == Some(t) then lk.repeat
    else 0
  }

  function CallBalance(k: Kernel, es: seq<Event>, l: Lid, t: Tid): int
    decreases |es|
  {
    if es == [] || !Enabled(k, es[0]) || Step(k, es[0]).None? then 0
    else CallDelta(k, es[0], l, t) + CallBalance(Step(k, es[0]).value, es[1..], l, t)
  }

  lemma SchedulePcs(k: Kernel)
    requires k.Sane() && Schedule(k).Some?
    ensures var k1 := Schedule(k).value;
            && k1.locks == k.locks && k1.threads.Keys == k.threads.Keys
            && forall t :: t in k.threads ==> k1.threads[t].pc == k.threads[t].pc
  {
  }

  // no lock changed, and no thread came into or out of lock code
  ghost predicate LocksAlone(k: Kernel, k1: Kernel) {
    && k1.locks == k.locks && k.threads.Keys <= k1.threads.Keys
    && forall t :: t in k.threads ==> SamePlace(k.threads[t].pc, k1.threads[t].pc)
  }

  predicate SamePlace(a: Pc, b: Pc) {
    a == b || (a.Lock() == None && b.Lock() == None)
  }

  // steps outside lock code
  lemma OutsidePcs(k: Kernel, e: Event)
    requires Inv(k) && Enabled(k, e) && !e.Acquire? && !e.Release? && !e.Continue? && Step(k, e).Some?
    ensures LocksAlone(k, Step(k, e).value)
  {
    if e.StartMore? || e.NewThread? {
      StartPcs(k, e);
    } else {
      OtherPcs(k, e);
    }
  }

  lemma StartPcs(k: Kernel, e: Event)
    requires k.Sane() && AllOk(k) && Enabled(k, e) && (e.NewThread? || e.StartMore?) && Step(k, e).Some?
    ensures LocksAlone(k, Step(k, e).value)
  {
    assert StartOk(k, k.cur);
  }

  lemma OtherPcs(k: Kernel, e: Event)
    requires Enabled(k, e) && (e.Timer? || e.Sleep? || e.Wake? || e.YieldCpu? || e.IdleLoop?) && Step(k, e).Some?
    ensures LocksAlone(k, Step(k, e).value)
  {
    match e
    case Timer =>
      if k.Me().ticks == 0 {
        SchedulePcs(k.With(k.cur, k.Me().(elapsed := k.Me().elapsed + 1)));
      }
    case Sleep(stat) =>
      SchedulePcs(k.Goto(Asleep).With(k.cur, k.Goto(Asleep).Me().(status := stat)));
    case Wake(_) =>
    case YieldCpu =>
      SchedulePcs(k.With(k.cur, k.Me().(status := Ready)).(ready := k.ready + [k.cur]));
    case IdleLoop =>
      SchedulePcs(k.With(k.cur, k.Me().(status := Blocked)));
  }

  // only the running thread's place changed, from one in lock code of l or outside to pc
  ghost predicate MovedTo(k: Kernel, k1: Kernel, pc: Pc) {
    && k.Sane() && k1.threads.Keys == k.threads.Keys && k1.locks.Keys == k.locks.Keys
    && k1.threads[k.cur].pc == pc
    && (forall t :: t in k.threads && t != k.cur ==> k1.threads[t].pc == k.threads[t].pc)
  }

  ghost predicate SameHolders(k: Kernel, k1: Kernel) {
    k1.locks.Keys == k.locks.Keys &&
    forall l :: l in k.locks ==> k1.locks[l].holder == k.locks[l].holder && k1.locks[l].repeat == k.locks[l].repeat
  }

  // one turn of sema_down's loop
  lemma DownPcs(k: Kernel, l: Lid)
    requires k.Sane() && l in k.locks && DownTest(k, l).Some?
    ensures MovedTo(k, DownTest(k, l).value, if k.locks[l].value == 0 then DownLoop(l) else SetHolder(l))
    ensures SameHolders(k, DownTest(k, l).value)
  {
    if k.locks[l].value == 0 {
      DownBlocks(k, l);
      SchedulePcs(Queued(k, l));
    }
  }

  lemma UpPcs(k: Kernel, l: Lid)
    requires k.Sane() && l in k.locks && UpStep(k, l).Some?
    ensures MovedTo(k, UpStep(k, l).value, Out)
    ensures SameHolders(k, UpStep(k, l).value)
  {
  }

  ghost predicate CountedBy(k: Kernel, k1: Kernel, l: Lid, t: Tid, d: int) {
    l in k.locks && t in k.threads && l in k1.locks && t in k1.threads && Nesting(k1, l, t) == Nesting(k, l, t) + d
  }

  // what the invariant says of lock l and threads t and cur
  ghost predicate Facts(k: Kernel, l: Lid, t: Tid) {
    && k.Sane() && l in k.locks && t in k.threads && OwnerOk(k, l) && AccessOk(k, l, t) && AccessOk(k, l, k.cur)
  }

  lemma FactsHold(k: Kernel, l: Lid, t: Tid)
    requires Core(k) && l in k.locks && t in k.threads
    ensures Facts(k, l, t)
  {
    assert LockOk(k, l);
  }

  // a thread that stays where it is, with its own part of the lock untouched
  lemma NestingSame(k: Kernel, k1: Kernel, l: Lid, t: Tid)
    requires Facts(k, l, t) && l in k1.locks && t in k1.threads && SamePlace(k.threads[t].pc, k1.threads[t].pc)
    requires k.locks[l].holder == Some(t) <==> k1.locks[l].holder == Some(t)
    requires k.locks[l].owner == Some(t) ==> k1.locks[l].repeat == k.locks[l].repeat
    ensures CountedBy(k, k1, l, t, 0)
  {
  }

  // the running thread's next statement, seen by the others, by itself at another lock, and at this lock
  lemma NestingContinueOther(k: Kernel, l: Lid, t: Tid)
    requires Enabled(k, Continue) && Facts(k, l, t) && Facts(k, k.Me().pc.l, t) && t != k.cur && Advance(k).Some?
    ensures CountedBy(k, Advance(k).value, l, t, 0)
  {
    var l2 := k.Me().pc.l;
    if k.Me().pc.Down? || k.Me().pc.DownLoop? {
      DownPcs(k, l2);
    } else if k.Me().pc.Up? {
      UpPcs(k, l2);
    }
    NestingSame(k, Advance(k).value, l, t);
  }

  lemma NestingContinueElsewhere(k: Kernel, l: Lid)
    requires Enabled(k, Continue) && Facts(k, l, k.cur) && k.Me().pc.l != l && Advance(k).Some?
    ensures CountedBy(k, Advance(k).value, l, k.cur, 0)
  {
    var l2 := k.Me().pc.l;
    if k.Me().pc.Down? || k.Me().pc.DownLoop? {
      DownPcs(k, l2);
    } else if k.Me().pc.Up? {
      UpPcs(k, l2);
    }
  }

  lemma NestingContinueHere(k: Kernel, l: Lid)
    requires Enabled(k, Continue) && Facts(k, l, k.cur) && k.Me().pc.l == l && Advance(k).Some?
    ensures CountedBy(k, Advance(k).value, l, k.cur, 0)
  {
    if k.Me().pc.Down? || k.Me().pc.DownLoop? {
      DownPcs(k, l);
    } else if k.Me().pc.Up? {
      UpPcs(k, l);
    }
  }

  lemma NestingCall(k: Kernel, e: Event, l: Lid, t: Tid)
    requires Enabled(k, e) && (e.Acquire? || e.Release?) && Facts(k, l, t) && Step(k, e).Some?
    ensures CountedBy(k, Step(k, e).value, l, t, CallDelta(k, e, l, t))
  {
  }

  function CallDelta(k: Kernel, e: Event, l: Lid, t: Tid): int {
    if k.cur != t then 0 else if e == Acquire(l) then 1 else if e == Release(l) then -1 else 0
  }

  lemma NestingContinue(k: Kernel, l: Lid, t: Tid)
    requires Core(k) && Enabled(k, Continue) && l in k.locks && t in k.threads && Advance(k).Some?
    ensures CountedBy(k, Advance(k).value, l, t, 0)
  {
    FactsHold(k, l, t);
    if t != k.cur {
      FactsHold(k, k.Me().pc.l, t);
      NestingContinueOther(k, l, t);
    } else if k.Me().pc.l != l {
      NestingContinueElsewhere(k, l);
    } else {
      NestingContinueHere(k, l);
    }
  }

  lemma NestingOutside(k: Kernel, e: Event, l: Lid, t: Tid)
    requires Inv(k) && Enabled(k, e) && !e.Acquire? && !e.Release? && !e.Continue? && Step(k, e).Some?
    requires l in k.locks && t in k.threads
    ensures CountedBy(k, Step(k, e).value, l, t, 0)
  {
    FactsHold(k, l, t);
    OutsidePcs(k, e);
    NestingSame(k, Step(k, e).value, l, t);
  }

  // one step changes the nesting by the calls it makes
  lemma NestingStep(k: Kernel, e: Event, l: Lid, t: Tid)
    requires Inv(k) && Enabled(k, e) && l in k.locks && t in k.threads && Step(k, e).Some?
    ensures CountedBy(k, Step(k, e).value, l, t, CallDelta(k, e, l, t))
  {
    if e.Acquire? || e.Release? {
      FactsHold(k, l, t);
      NestingCall(k, e, l, t);
    } else if e.Continue? {
      NestingContinue(k, l, t);
    } else {
      NestingOutside(k, e, l, t);
    }
  }

  // a run is its first step and the rest
  lemma FirstStep(k: Kernel, es: seq<Event>) returns (k1: Kernel)
    requires Inv(k) && CanRun(k, es) && es != []
    ensures Enabled(k, es[0]) && Step(k, es[0]) == Some(k1) && Inv(k1) && CanRun(k1, es[1..])
    ensures RunAll(k, es) == RunAll(k1, es[1..])
  {
    StepKeeps(k, es[0]);
    k1 := Step(k, es[0]).value;
  }

  // Over any run the nesting of a thread in a lock grows by its calls of lock_acquire less those of
  // lock_release.
  lemma {:induction false} NestingCounts(k: Kernel, es: seq<Event>, l: Lid, t: Tid)
    requires Inv(k) && CanRun(k, es) && l in k.locks && t in k.threads
    ensures RunAll(k, es).Some? && l in RunAll(k, es).value.locks && t in RunAll(k, es).value.threads
    ensures Nesting(RunAll(k, es).value, l, t) == Nesting(k, l, t) + CallBalance(k, es, l, t)
    decreases |es|
  {
    if es != [] {
      var k1 := FirstStep(k, es);
      NestingStep(k, es[0], l, t);
      NestingCounts(k1, es[1..], l, t);
    }
  }

  // a thread comes into being by thread_start, outside of every lock
  lemma ComesByStart(k: Kernel, e: Event, l: Lid, t: Tid)
    requires Inv(k) && Enabled(k, e) && l in k.locks && t !in k.threads && Step(k, e).Some?
    ensures t in Step(k, e).value.threads ==> l in Step(k, e).value.locks && Nesting(Step(k, e).value, l, t) == 0
    ensures CallDelta(k, e, l, t) == 0
  {
    if e.Continue? {
      NoNewcomer(k, t);
    } else if !e.Acquire? && !e.Release? {
      assert LockOk(k, l) && OwnerOk(k, l);
      OutsideKeys(k, e, t);
      NewcomerOut(k, Step(k, e).value, l, t);
    }
  }

  lemma NewcomerOut(k: Kernel, k1: Kernel, l: Lid, t: Tid)
    requires l in k.locks && OwnerOk(k, l) && t !in k.threads && k1.locks == k.locks
    requires t in k1.threads ==> k1.threads[t].pc == Out
    ensures t in k1.threads ==> Nesting(k1, l, t) == 0
  {
  }

  lemma NoNewcomer(k: Kernel, t: Tid)
    requires Enabled(k, Continue) && t !in k.threads && Advance(k).Some?
    ensures t !in Advance(k).value.threads
  {
    if k.Me().pc.Down? || k.Me().pc.DownLoop? {
      DownPcs(k, k.Me().pc.l);
    } else if k.Me().pc.Up? {
      UpPcs(k, k.Me().pc.l);
    }
  }

  lemma OutsideKeys(k: Kernel, e: Event, t: Tid)
    requires Inv(k) && Enabled(k, e) && !e.Acquire? && !e.Release? && !e.Continue? && Step(k, e).Some? && t !in k.threads
    ensures Step(k, e).value.locks == k.locks
    ensures t in Step(k, e).value.threads ==> Step(k, e).value.threads[t].pc == Out
  {
    OutsidePcs(k, e);
    if !e.NewThread? && !e.StartMore? {
      OutsideStarts(k, e);
    }
  }

  // the same over any run for a thread that may only come into being in it
  lemma {:induction false} NewcomerCounts(k: Kernel, es: seq<Event>, l: Lid, t: Tid)
    requires Inv(k) && CanRun(k, es) && l in k.locks
    ensures RunAll(k, es).Some? && l in RunAll(k, es).value.locks
    ensures t in RunAll(k, es).value.threads ==>
              Nesting(RunAll(k, es).value, l, t) == (if t in k.threads then Nesting(k, l, t) else 0) + CallBalance(k, es, l, t)
    decreases |es|
  {
    if t in k.threads {
      NestingCounts(k, es, l, t);
    } else if es != [] {
      var k1 := FirstStep(k, es);
      StepLockKeys(k, es[0]);
      ComesByStart(k, es[0], l, t);
      NewcomerCounts(k1, es[1..], l, t);
    }
  }

  // ... so between calls, from boot on, holder_repeat_nr of the holder is the number of acquires it owes
  // a release, and a thread that owes none is not the holder, whichever thread it is.
  lemma RepeatCountsNesting(main: Tid, idle: Tid, locks: set<Lid>, es: seq<Event>, l: Lid, t: Tid)
    requires main != idle && CanRun(Boot(main, idle, locks), es) && l in locks
    ensures var k := Boot(main, idle, locks); var k1 := RunAll(k, es);
            && k1.Some? && l in k1.value.locks
            && (t in k1.value.threads && k1.value.threads[t].pc.Out? ==>
                  CallBalance(k, es, l, t) == if k1.value.locks[l].holder == Some(t) then k1.value.locks[l].repeat else 0)
  {
    BootOk(main, idle, locks);
    NewcomerCounts(Boot(main, idle, locks), es, l, t);
  }

  // ---------- lists ----------

  // A thread's general_tag is on at most one list: the ready list or one waiters' list.
  lemma OneList(k: Kernel, es: seq<Event>, l: Lid, l2: Lid, t: Tid)
    requires Inv(k) && CanRun(k, es) && l in k.locks && l2 in k.locks && l != l2
    ensures RunAll(k, es).Some? && l in RunAll(k, es).value.locks && l2 in RunAll(k, es).value.locks
    ensures var k1 := RunAll(k, es).value;
            && (t in k1.locks[l].waiters ==> t !in k1.ready && t !in k1.locks[l2].waiters && t != k1.cur)
            && (t in k1.ready ==> t != k1.cur)
  {
    RunsAreSafe(k, es);
    LocksStay(k, es);
    var k1 := RunAll(k, es).value;
    assert LockOk(k1, l) && WaitersOk(k1, l) && LockOk(k1, l2) && WaitersOk(k1, l2);
  }

  // thread_all_list has every thread on it once, in every reachable state, but for those whose creator is just
  // between the two list_append of thread_start.
  lemma AllListed(k: Kernel, es: seq<Event>)
    requires Inv(k) && CanRun(k, es)
    ensures RunAll(k, es).Some?
    ensures var k1 := RunAll(k, es).value;
            && NoDup(k1.all)
            && forall t :: t in k1.threads <==> t in k1.all || exists u :: u in k1.threads && k1.threads[u].pc == Listing(t)
  {
    RunsAreSafe(k, es);
    var k1 := RunAll(k, es).value;
    forall t, u | u in k1.threads && k1.threads[u].pc == Listing(t)
      ensures t in k1.threads
    {
      assert StartOk(k1, u);
    }
    forall t | t in k1.threads
      ensures t in k1.all || exists u :: u in k1.threads && k1.threads[u].pc == Listing(t)
    {
      assert t in k1.all || Pending(k1, t);
    }
  }

  // When a thread other than idle stops with nothing ready, idle is BLOCKED, as thread_unblock asserts.
  lemma IdleIsBlocked(k: Kernel)
    requires Inv(k) && k.ready == [] && k.cur != k.idle
    ensures k.threads[k.idle].status.Blocked?
  {
    assert k.idle !in k.ready;
  }

  // ---------- thread_yield as written ----------

  // marked READY, but neither running nor on any list
  ghost predicate Lost(k: Kernel, t: Tid) {
    && t in k.threads && k.threads[t].status.Ready? && t !in k.ready && t != k.cur && t != k.idle
    && k.threads[t].pc.Out? && !BeingStarted(k, t)
    && forall l :: l in k.locks ==> t !in k.locks[l].waiters
  }

  // thread_yield as written always loses the caller.
  lemma YieldLoses(k: Kernel)
    requires Inv(k) && k.cur != k.idle && k.Me().pc.Out?
    ensures YieldAsWritten(k).Some? && Lost(YieldAsWritten(k).value, k.cur)
  {
    var k0 := k.With(k.cur, k.Me().(status := Ready));
    YieldSwitches(k);
    SchedulePcs(k0);
    assert !BeingStarted(k, k.cur) by {
      forall u | u in k.threads
        ensures !(k.threads[u].pc.Starting? && k.threads[u].pc.t == k.cur)
      {
        assert StartOk(k, u);
      }
    }
    forall l | l in k.locks
      ensures k.cur !in k.locks[l].waiters
    {
      assert LockOk(k, l) && WaitersOk(k, l);
    }
  }

  // another thread is dispatched
  lemma YieldSwitches(k: Kernel)
    requires Core(k) && k.cur != k.idle
    ensures YieldAsWritten(k).Some?
    ensures var k1 := YieldAsWritten(k).value; k1.cur != k.cur && k.cur !in k1.ready && k1.idle == k.idle
    ensures k.cur in YieldAsWritten(k).value.threads && YieldAsWritten(k).value.threads[k.cur].status.Ready?
  {
    var k0 := k.With(k.cur, k.Me().(status := Ready));
    assert forall t :: t in k0.threads ==> !k0.threads[t].status.Running?;
    if k.ready == [] {
      assert k.idle !in k.ready;
    } else {
      assert k.ready[0] in k.ready;
    }
  }

  // a step with thread_yield repaired or as written, and runs of such steps
  function StepAs(k: Kernel, e: Event, repaired: bool): Option<Kernel>
    requires Enabled(k, e)
  {
    if e.YieldCpu? && !repaired then YieldAsWritten(k) else Step(k, e)
  }

  function RunAs(k: Kernel, es: seq<Event>, repaired: bool): Option<Kernel>
    decreases |es|
  {
    if es == [] then Some(k)
    else if !Enabled(k, es[0]) then None
    else
      match StepAs(k, es[0], repaired)
      case None => None
      case Some(k1) => RunAs(k1, es[1..], repaired)
  }

  lemma ScheduleLost(k: Kernel, t: Tid)
    requires k.Sane() && Lost(k, t) && Schedule(k).Some?
    ensures Lost(Schedule(k).value, t)
  {
    SchedulePcs(k);
    var k1 := Requeue(k).value;
    assert t !in k1.ready;
    var k2 := WakeIdle(k1).value;
    assert t !in k2.ready;
  }

  // a step that succeeds, of whatever thread, leaves a lost thread lost
  lemma StepLost(k: Kernel, e: Event, repaired: bool, t: Tid)
    requires Lost(k, t) && Enabled(k, e) && StepAs(k, e, repaired).Some?
    ensures Lost(StepAs(k, e, repaired).value, t)
  {
    if e.YieldCpu? {
      var k1 := k.With(k.cur, k.Me().(status := Ready));
      ScheduleLost(if repaired then k1.(ready := k.ready + [k.cur]) else k1, t);
    } else if e.Continue? {
      ContinueLost(k, t);
    } else if e.NewThread? || e.StartMore? {
      StartLost(k, e, t);
    } else {
      OtherLost(k, e, t);
    }
  }

  lemma StartLost(k: Kernel, e: Event, t: Tid)
    requires Lost(k, t) && Enabled(k, e) && (e.NewThread? || e.StartMore?) && Step(k, e).Some?
    ensures Lost(Step(k, e).value, t)
  {
    assert k.Me().pc.Starting? ==> k.Me().pc.t != t;
    var k1 := Step(k, e).value;
    forall u | u in k1.threads
      ensures !(k1.threads[u].pc.Starting? && k1.threads[u].pc.t == t)
    {
      assert u in k.threads && u != k.cur ==> u in k1.threads && (k1.threads[u].pc == k.threads[u].pc || k1.threads[u].pc.Out?);
    }
  }

  lemma OtherLost(k: Kernel, e: Event, t: Tid)
    requires Lost(k, t) && Enabled(k, e) && Step(k, e).Some?
    requires e.Timer? || e.Sleep? || e.Wake? || e.IdleLoop? || e.Acquire? || e.Release?
    ensures Lost(Step(k, e).value, t)
  {
    if e.Timer? {
      TickLost(k, t);
    } else if e.Sleep? {
      ScheduleLost(k.Goto(Asleep).With(k.cur, k.Goto(Asleep).Me().(status := e.stat)), t);
    } else if e.IdleLoop? {
      ScheduleLost(k.With(k.cur, k.Me().(status := Blocked)), t);
    } else {
      CallLost(k, e, t);
    }
  }

  lemma TickLost(k: Kernel, t: Tid)
    requires k.Sane() && Lost(k, t) && Tick(k).Some?
    ensures Lost(Tick(k).value, t)
  {
    if k.Me().ticks == 0 {
      ScheduleLost(k.With(k.cur, k.Me().(elapsed := k.Me().elapsed + 1)), t);
    }
  }

  lemma CallLost(k: Kernel, e: Event, t: Tid)
    requires Lost(k, t) && Enabled(k, e) && Step(k, e).Some? && (e.Wake? || e.Acquire? || e.Release?)
    ensures Lost(Step(k, e).value, t)
  {
  }

  lemma ContinueLost(k: Kernel, t: Tid)
    requires Lost(k, t) && Enabled(k, Continue) && Step(k, Continue).Some?
    ensures Lost(Step(k, Continue).value, t)
  {
    var l := k.Me().pc.l;
    var lk := k.locks[l];
    if (k.Me().pc.Down? || k.Me().pc.DownLoop?) && lk.value == 0 {
      var k0 := k.WithLock(l, lk.(waiters := lk.waiters + [k.cur])).Goto(DownLoop(l));
      ScheduleLost(k0.With(k.cur, k0.Me().(status := Blocked)), t);
    } else if k.Me().pc.Up? && lk.waiters != [] {
      assert lk.waiters[0] in lk.waiters;
      assert forall x :: x in lk.waiters[1..] ==> x in lk.waiters;
    }
  }

  // No run ever gets a lost thread back, whether the other threads yield repaired or as written: it never runs
  // again, so ticks_to_sleep, which yields, never ends.
  lemma {:induction false} LostForever(k: Kernel, es: seq<Event>, repaired: bool, t: Tid)
    requires Lost(k, t) && RunAs(k, es, repaired).Some?
    ensures Lost(RunAs(k, es, repaired).value, t)
    decreases |es|
  {
    if es != [] {
      StepLost(k, es[0], repaired, t);
      LostForever(StepAs(k, es[0], repaired).value, es[1..], repaired, t);
    }
  }
}
