/** What every step of Threads keeps: the ready list, the single running thread, the lists a thread is on,
    mutual exclusion, the holder's nesting count, and that no wake-up is lost. */
module ThreadsSafety {
  import opened Bits
  import opened Threads

  ghost predicate NoDup(s: seq<nat>) {
    forall i, j :: 0 <= i < j < |s| ==> s[i] != s[j]
  }

  // ---------- the invariant ----------

  // the ready list holds exactly the READY threads, each once
  ghost predicate ReadyOk(k: Kernel) {
    NoDup(k.ready) && forall t :: t in k.ready <==> t in k.threads && k.threads[t].status.Ready?
  }

  // the running thread is the only RUNNING one; idle is never WAITING or HANGING and waits for no lock
  ghost predicate RunningOk(k: Kernel) {
    && k.Sane()
    && (forall t :: t in k.threads ==> (k.threads[t].status.Running? <==> t == k.cur))
    && IdleOk(k)
  }

  ghost predicate IdleOk(k: Kernel) {
    && k.idle in k.threads && k.threads[k.idle].pc.Out?
    && (k.threads[k.idle].status.Running? || k.threads[k.idle].status.Ready? || k.threads[k.idle].status.Blocked?)
  }

  // a stopped thread other than idle sleeps on its own or is in sema_down's loop, and only these are stopped
  ghost predicate PcOk(k: Kernel, t: Tid)
    requires t in k.threads
  {
    var th := k.threads[t];
    && !th.status.Died?
    && (th.pc.Lock().Some? ==> th.pc.l in k.locks)
    && (th.pc.Asleep? ==> th.status.Stopped())
    && (th.status.Stopped() && t != k.idle ==> th.pc.Asleep? || (th.pc.DownLoop? && th.status.Blocked?))
  }

  // waiters: exactly the threads blocked in the loop, each once
  ghost predicate WaitersOk(k: Kernel, l: Lid)
    requires l in k.locks
  {
    && NoDup(k.locks[l].waiters)
    && (forall t :: t in k.locks[l].waiters <==>
          t in k.threads && k.threads[t].pc == DownLoop(l) && k.threads[t].status.Blocked?)
  }

  // a popped waiter on its way back into the loop
  ghost predicate OnItsWay(k: Kernel, l: Lid, t: Tid) {
    t in k.threads && k.threads[t].pc == DownLoop(l) && !k.threads[t].status.Blocked?
  }

  // what lock fields look like while the owner is at pc
  predicate OwnerFields(lk: Lock, o: Tid, pc: Pc, l: Lid) {
    if pc == SetHolder(l) then lk.holder == None && lk.repeat == 0
    else if pc == SetRepeat(l) then lk.holder == Some(o) && lk.repeat == 0
    else if pc == ClearRepeat(l) then lk.holder == None && lk.repeat == 1
    else if pc == Up(l) then lk.holder == None && lk.repeat == 0
    else lk.holder == Some(o) && lk.repeat >= 1
         && (pc == RelDec(l) ==> lk.repeat > 1) && (pc == ClearHolder(l) ==> lk.repeat == 1)
  }

  ghost predicate OwnerOk(k: Kernel, l: Lid)
    requires l in k.locks
  {
    var lk := k.locks[l];
    && (lk.value == 0 || lk.value == 1) && (lk.value == 1 <==> lk.owner == None)
    && match lk.owner
       case None => lk.holder == None && lk.repeat == 0
       case Some(o) => o in k.threads && o != k.idle && OwnerFields(lk, o, k.threads[o].pc, l)
  }

  // only the owner is between sema_down and sema_up; a thread on its way into sema_down is not the owner
  ghost predicate AccessOk(k: Kernel, l: Lid, t: Tid)
    requires l in k.locks && t in k.threads
  {
    var pc := k.threads[t].pc;
    && (pc.Lock() == Some(l) && pc.Inside() ==> k.locks[l].owner == Some(t))
    && (pc == Down(l) || pc == DownLoop(l) ==> k.locks[l].owner != Some(t))
  }

  ghost predicate LockOk(k: Kernel, l: Lid)
    requires l in k.locks
  {
    && WaitersOk(k, l) && OwnerOk(k, l)
    && (forall t :: t in k.threads ==> AccessOk(k, l, t))
    && (k.locks[l].value == 1 && k.locks[l].waiters != [] ==> exists t :: OnItsWay(k, l, t))
  }

  // scheduling and locks
  ghost predicate Core(k: Kernel) {
    && ReadyOk(k) && RunningOk(k)
    && (forall t :: t in k.threads ==> PcOk(k, t))
    && (forall l :: l in k.locks ==> LockOk(k, l))
  }

  // ---------- switching threads ----------

  // the state schedule is called in: the current thread still runs, or has just been stopped or requeued
  ghost predicate Switchable(k: Kernel) {
    && ReadyOk(k) && k.Sane() && IdleOk(k)
    && (forall t :: t in k.threads && t != k.cur ==> !k.threads[t].status.Running?)
  }

  // what a switch changes: statuses and time slices only, and no stopped thread but idle starts running
  ghost predicate Switched(k: Kernel, k1: Kernel) {
    && k1.locks == k.locks && k1.idle == k.idle && k1.threads.Keys == k.threads.Keys
    && (forall t :: t in k.threads ==> k1.threads[t].pc == k.threads[t].pc && SameKind(k, k1, t))
  }

  ghost predicate SameKind(k: Kernel, k1: Kernel, t: Tid)
    requires t in k.threads && t in k1.threads
  {
    var a, b := k.threads[t].status, k1.threads[t].status;
    a == b || (!a.Stopped() && !a.Died? && (b.Ready? || b.Running?)) || (t == k.idle && a.Blocked? && b.Running?)
  }

  function Paused(s: Status): Status {
    if s.Running? then Ready else s
  }

  lemma RequeueOk(k: Kernel) returns (k1: Kernel)
    requires Switchable(k)
    ensures Requeue(k) == Some(k1) && ReadyOk(k1) && k1.Sane() && IdleOk(k1)
    ensures k1.cur == k.cur && k1.locks == k.locks && k1.idle == k.idle && k1.threads.Keys == k.threads.Keys
    ensures forall t :: t in k1.threads ==> !k1.threads[t].status.Running?
    ensures forall t :: t in k.threads ==> k1.threads[t].pc == k.threads[t].pc
    ensures forall t :: t in k.threads ==> k1.threads[t].status == Paused(k.threads[t].status)
  {
    k1 := Requeue(k).value;
    if k.Me().status.Running? {
      assert forall t :: t in k1.ready <==> t in k.ready || t == k.cur;
    }
  }

  lemma WakeIdleOk(k: Kernel) returns (k1: Kernel)
    requires ReadyOk(k) && k.Sane() && IdleOk(k)
    requires forall t :: t in k.threads ==> !k.threads[t].status.Running?
    ensures WakeIdle(k) == Some(k1) && ReadyOk(k1) && k1.Sane() && IdleOk(k1) && k1.ready != []
    ensures k1.locks == k.locks && k1.idle == k.idle && k1.threads.Keys == k.threads.Keys
    ensures forall t :: t in k1.threads ==> !k1.threads[t].status.Running? && k1.threads[t].pc == k.threads[t].pc
    ensures forall t :: t in k.threads ==>
              k1.threads[t].status == k.threads[t].status ||
              (t == k.idle && k.threads[t].status.Blocked? && k1.threads[t].status.Ready? && k1.ready == [k.idle])
  {
    assert k.ready == [] ==> k.idle !in k.ready;
    k1 := WakeIdle(k).value;
    assert forall t :: t in k1.ready <==> t in k.ready || (k.ready == [] && t == k.idle);
  }

  lemma DispatchOk(k: Kernel) returns (k1: Kernel)
    requires ReadyOk(k) && k.Sane() && IdleOk(k) && k.ready != []
    requires forall t :: t in k.threads ==> !k.threads[t].status.Running?
    ensures Dispatch(k) == Some(k1) && ReadyOk(k1) && RunningOk(k1) && k1.cur == k.ready[0]
    ensures k1.locks == k.locks && k1.idle == k.idle && k1.threads.Keys == k.threads.Keys
    ensures forall t :: t in k.threads ==> k1.threads[t].pc == k.threads[t].pc
    ensures forall t :: t in k.threads && t != k.ready[0] ==> k1.threads[t].status == k.threads[t].status
    ensures k.ready[0] in k.threads && k.threads[k.ready[0]].status.Ready?
  {
    var next := k.ready[0];
    assert next in k.ready;
    k1 := Dispatch(k).value;
    assert forall t :: t in k.ready <==> t == next || t in k1.ready;
  }

  // schedule never fails, and leaves one thread running; when it finds nothing ready, idle is BLOCKED
  lemma ScheduleOk(k: Kernel) returns (k1: Kernel)
    requires Switchable(k)
    ensures Schedule(k) == Some(k1) && ReadyOk(k1) && RunningOk(k1) && Switched(k, k1)
  {
    var a := RequeueOk(k);
    var b := WakeIdleOk(a);
    k1 := DispatchOk(b);
    forall t | t in k.threads
      ensures SameKind(k, k1, t)
    {
    }
  }

  // threads and locks stay consistent under a switch
  lemma SwitchKeepsPc(k: Kernel, k1: Kernel, t: Tid)
    requires Switched(k, k1) && t in k.threads && PcOk(k, t) && (t == k.idle ==> k.threads[t].pc.Out?)
    ensures PcOk(k1, t)
  {
    assert SameKind(k, k1, t);
  }

  lemma SwitchKeepsLock(k: Kernel, k1: Kernel, l: Lid)
    requires Switched(k, k1) && l in k.locks && LockOk(k, l) && IdleOk(k)
    requires forall t :: t in k.threads ==> PcOk(k, t)
    ensures LockOk(k1, l)
  {
    assert forall t :: t in k.threads ==> SameKind(k, k1, t);
    assert WaitersOk(k1, l);
    assert OwnerOk(k1, l);
    forall t | t in k1.threads
      ensures AccessOk(k1, l, t)
    {
      assert AccessOk(k, l, t);
    }
    if t :| OnItsWay(k, l, t) {
      assert OnItsWay(k1, l, t);
    }
  }

  // the part of the invariant a switch does not touch
  ghost predicate Calm(k: Kernel) {
    && (forall t :: t in k.threads ==> PcOk(k, t))
    && (forall l :: l in k.locks ==> LockOk(k, l))
  }

  // calling schedule in such a state leads to a consistent one
  lemma ScheduleKeeps(k: Kernel)
    requires Switchable(k) && Calm(k)
    ensures Schedule(k).Some? && Core(Schedule(k).value)
  {
    var k1 := ScheduleOk(k);
    forall t | t in k1.threads
      ensures PcOk(k1, t)
    {
      SwitchKeepsPc(k, k1, t);
    }
    forall l | l in k1.locks
      ensures LockOk(k1, l)
    {
      SwitchKeepsLock(k, k1, l);
    }
  }

  // ---------- steps outside lock code ----------

  // Only thread t differs, and neither its old nor its new state has to do with a lock but l.
  ghost predicate Changes(k: Kernel, k1: Kernel, t: Tid, l: Option<Lid>) {
    && t in k.threads && t in k1.threads && k1.idle == k.idle && k1.threads.Keys == k.threads.Keys
    && k1.locks.Keys == k.locks.Keys && (forall x :: x in k.threads && x != t ==> k1.threads[x] == k.threads[x])
    && (k.threads[t].pc.Lock() == None || k.threads[t].pc.Lock() == l)
    && (k1.threads[t].pc.Lock() == None || k1.threads[t].pc.Lock() == l)
  }

  lemma OtherLock(k: Kernel, k1: Kernel, t: Tid, l: Option<Lid>, l2: Lid)
    requires Changes(k, k1, t, l) && l != Some(l2) && l2 in k.locks && k1.locks[l2] == k.locks[l2] && LockOk(k, l2)
    ensures LockOk(k1, l2)
  {
    assert WaitersOk(k1, l2);
    assert OwnerOk(k1, l2);
    forall x | x in k1.threads
      ensures AccessOk(k1, l2, x)
    {
      assert AccessOk(k, l2, x);
    }
    if x :| OnItsWay(k, l2, x) {
      assert OnItsWay(k1, l2, x);
    }
  }

  lemma CalmOthers(k: Kernel, k1: Kernel, t: Tid, l: Option<Lid>)
    requires Calm(k) && Changes(k, k1, t, l) && PcOk(k1, t)
    requires forall l2 :: l2 in k.locks && l != Some(l2) ==> k1.locks[l2] == k.locks[l2]
    requires l.Some? && l.value in k1.locks ==> LockOk(k1, l.value)
    ensures Calm(k1)
  {
    forall l2 | l2 in k1.locks
      ensures LockOk(k1, l2)
    {
      if l != Some(l2) {
        OtherLock(k, k1, t, l, l2);
      }
    }
    forall x | x in k1.threads
      ensures PcOk(k1, x)
    {
      assert PcOk(k, x);
    }
  }

  // the current thread changes without touching any lock, then schedule is called
  lemma ThenSchedule(k: Kernel, k1: Kernel)
    requires Core(k) && k1.cur == k.cur && k1.locks == k.locks && Changes(k, k1, k.cur, None) && PcOk(k1, k.cur)
    requires Switchable(k1)
    ensures Schedule(k1).Some? && Core(Schedule(k1).value)
  {
    CalmOthers(k, k1, k.cur, None);
    ScheduleKeeps(k1);
  }

  // ... or goes on running
  lemma KeepsRunning(k: Kernel, k1: Kernel, l: Option<Lid>)
    requires Core(k) && k1.cur == k.cur && k1.ready == k.ready && Changes(k, k1, k.cur, l) && PcOk(k1, k.cur)
    requires k1.Me().status.Running? && IdleOk(k1)
    requires forall l2 :: l2 in k.locks && l != Some(l2) ==> k1.locks[l2] == k.locks[l2]
    requires l.Some? && l.value in k1.locks ==> LockOk(k1, l.value)
    ensures Core(k1)
  {
    CalmOthers(k, k1, k.cur, l);
  }

  lemma TimerKeeps(k: Kernel)
    requires Core(k) && !k.Me().pc.DownLoop?
    ensures Tick(k).Some? && Core(Tick(k).value)
  {
    var k1 := k.With(k.cur, k.Me().(elapsed := k.Me().elapsed + 1));
    assert PcOk(k, k.cur);
    if k.Me().ticks == 0 {
      TickThenSchedule(k, k1);
    } else {
      var k2 := k1.With(k.cur, k1.Me().(ticks := k.Me().ticks - 1));
      SameButCounters(k, k2);
    }
  }

  // counters of the running thread matter to nothing
  lemma SameButCounters(k: Kernel, k1: Kernel)
    requires Core(k) && k1.cur == k.cur && k1.ready == k.ready && k1.locks == k.locks && k1.idle == k.idle
    requires k1.threads.Keys == k.threads.Keys
    requires forall t :: t in k.threads ==> k1.threads[t].pc == k.threads[t].pc && k1.threads[t].status == k.threads[t].status
    ensures Core(k1)
  {
    assert Switched(k, k1);
    forall l | l in k1.locks
      ensures LockOk(k1, l)
    {
      SwitchKeepsLock(k, k1, l);
    }
    forall t | t in k1.threads
      ensures PcOk(k1, t)
    {
      SwitchKeepsPc(k, k1, t);
    }
  }

  lemma TickThenSchedule(k: Kernel, k1: Kernel)
    requires Core(k) && k1 == k.With(k.cur, k.Me().(elapsed := k.Me().elapsed + 1))
    ensures Schedule(k1).Some? && Core(Schedule(k1).value)
  {
    SameButCounters(k, k1);
    ScheduleKeeps(k1);
  }

  lemma SleepKeeps(k: Kernel, stat: Status)
    requires Core(k) && Enabled(k, Sleep(stat))
    ensures Step(k, Sleep(stat)).Some? && Core(Step(k, Sleep(stat)).value)
  {
    var k0 := k.Goto(Asleep);
    var k1 := k0.With(k.cur, k0.Me().(status := stat));
    assert PcOk(k, k.cur);
    ThenSchedule(k, k1);
  }

  lemma YieldKeeps(k: Kernel)
    requires Core(k) && Enabled(k, YieldCpu)
    ensures Step(k, YieldCpu).Some? && Core(Step(k, YieldCpu).value)
  {
    var k1 := k.With(k.cur, k.Me().(status := Ready)).(ready := k.ready + [k.cur]);
    assert PcOk(k, k.cur);
    assert forall t :: t in k1.ready <==> t in k.ready || t == k.cur;
    ThenSchedule(k, k1);
  }

  lemma IdleKeeps(k: Kernel)
    requires Core(k) && Enabled(k, IdleLoop)
    ensures Step(k, IdleLoop).Some? && Core(Step(k, IdleLoop).value)
  {
    var k1 := k.With(k.cur, k.Me().(status := Blocked));
    assert PcOk(k, k.cur);
    ThenSchedule(k, k1);
  }

  // the running thread enters thread_start, or goes on in it, without touching a list
  lemma InStartKeeps(k: Kernel, k1: Kernel, pc: Pc)
    requires Core(k) && k.cur != k.idle && k.Me().pc.Lock() == None && pc.Lock() == None && !pc.Asleep?
    requires k1.threads == k.Goto(pc).threads && k1.ready == k.ready && k1.cur == k.cur && k1.idle == k.idle && k1.locks == k.locks
    ensures Core(k1)
  {
    assert PcOk(k, k.cur);
    KeepsRunning(k, k1, None);
  }

  // a thread comes into being on the ready list
  lemma StartKeeps(k: Kernel, t: Tid, prio: nat)
    requires Core(k) && t !in k.threads && k.cur != k.idle && k.Me().pc.Lock() == None
    ensures Start(k, t, prio).Some? && Core(Start(k, t, prio).value)
  {
    var k0 := k.With(t, Thread(Ready, prio, prio, 0, Out)).(ready := k.ready + [t]);
    assert forall x :: x in k0.ready <==> x in k.ready || x == t;
    forall x | x in k0.threads
      ensures PcOk(k0, x)
    {
      assert x != t ==> PcOk(k, x);
    }
    forall l | l in k0.locks
      ensures LockOk(k0, l)
    {
      NewThreadLock(k, k0, t, l);
    }
    InStartKeeps(k0, k0.Goto(Listing(t)), Listing(t));
  }

  lemma NewThreadLock(k: Kernel, k1: Kernel, t: Tid, l: Lid)
    requires l in k.locks && LockOk(k, l) && t !in k.threads && k1.locks == k.locks && k1.idle == k.idle
    requires t in k1.threads && k1.threads == k.threads[t := k1.threads[t]] && k1.threads[t].pc.Out?
    ensures LockOk(k1, l)
  {
    assert WaitersOk(k1, l);
    assert OwnerOk(k1, l);
    forall x | x in k1.threads
      ensures AccessOk(k1, l, x)
    {
      assert x != t ==> AccessOk(k, l, x);
    }
    if x :| OnItsWay(k, l, x) {
      assert OnItsWay(k1, l, x);
    }
  }

  // thread_unblock of a thread t that is stopped: it goes to the head of the ready list
  lemma WakeKeeps(k: Kernel, t: Tid)
    requires Core(k) && Enabled(k, Wake(t))
    ensures Step(k, Wake(t)).Some? && Core(Step(k, Wake(t)).value)
  {
    var k0 := k.With(t, k.threads[t].(pc := Out));
    assert PcOk(k, t);
    var k1 := k0.With(t, k0.threads[t].(status := Ready)).(ready := [t] + k.ready);
    assert Unblock(k0, t) == Some(k1);
    assert forall x :: x in k1.ready <==> x in k.ready || x == t;
    CalmOthers(k, k1, t, None);
  }

  // ---------- steps of lock code ----------

  // the running thread moves to pc and lock l becomes lk
  ghost predicate Moves(k: Kernel, k1: Kernel, l: Lid, lk: Lock, pc: Pc) {
    && k.Sane() && l in k.locks && k1 == k.WithLock(l, lk).Goto(pc)
    && (k.Me().pc.Lock() == None || k.Me().pc.Lock() == Some(l)) && (pc.Out? || pc.Lock() == Some(l))
    && k.cur != k.idle
  }

  // a step that keeps the thread running and leaves the waiters alone
  lemma MoveKeeps(k: Kernel, k1: Kernel, l: Lid, lk: Lock, pc: Pc)
    requires Core(k) && Moves(k, k1, l, lk, pc) && lk.waiters == k.locks[l].waiters
    requires OwnerOk(k1, l) && (forall t :: t in k1.threads ==> AccessOk(k1, l, t))
    requires lk.value == 1 ==> k.locks[l].value == 1 && (!k.Me().pc.DownLoop? || pc == DownLoop(l))
    ensures Core(k1)
  {
    MoveLock(k, k1, l, lk, pc);
    assert PcOk(k, k.cur);
    KeepsRunning(k, k1, Some(l));
  }

  lemma MoveLock(k: Kernel, k1: Kernel, l: Lid, lk: Lock, pc: Pc)
    requires LockOkIn(k, l) && Moves(k, k1, l, lk, pc) && lk.waiters == k.locks[l].waiters && k.Me().status.Running?
    requires OwnerOk(k1, l) && (forall t :: t in k1.threads ==> AccessOk(k1, l, t))
    requires lk.value == 1 ==> k.locks[l].value == 1 && (!k.Me().pc.DownLoop? || pc == DownLoop(l))
    ensures LockOk(k1, l)
  {
    assert WaitersOk(k1, l);
    if lk.value == 1 && lk.waiters != [] {
      var t :| OnItsWay(k, l, t);
      assert OnItsWay(k1, l, t);
    }
  }

  ghost predicate LockOkIn(k: Kernel, l: Lid) {
    l in k.locks && LockOk(k, l)
  }

  // the history of the other threads at l is untouched
  lemma OthersAccess(k: Kernel, k1: Kernel, l: Lid, lk: Lock, pc: Pc)
    requires Core(k) && Moves(k, k1, l, lk, pc)
    requires lk.owner == k.locks[l].owner || lk.owner == Some(k.cur) || k.locks[l].owner == Some(k.cur)
    requires lk.owner == Some(k.cur) ==> k.locks[l].owner == None || k.locks[l].owner == Some(k.cur)
    requires lk.owner != Some(k.cur) ==> lk.owner == None || lk.owner == k.locks[l].owner
    requires AccessOk(k1, l, k.cur)
    ensures forall t :: t in k1.threads ==> AccessOk(k1, l, t)
  {
    forall t | t in k1.threads
      ensures AccessOk(k1, l, t)
    {
      assert AccessOk(k, l, t);
    }
  }

  lemma AcquireKeeps(k: Kernel, l: Lid)
    requires Core(k) && Enabled(k, Acquire(l))
    ensures Step(k, Acquire(l)).Some? && Core(Step(k, Acquire(l)).value)
  {
    var pc := if k.locks[l].holder == Some(k.cur) then AcqNest(l) else Down(l);
    var k1 := k.Goto(pc);
    assert LockOk(k, l) && OwnerOk(k, l);
    assert k1 == k.WithLock(l, k.locks[l]).Goto(pc);
    OthersAccess(k, k1, l, k.locks[l], pc);
    MoveKeeps(k, k1, l, k.locks[l], pc);
  }

  lemma ReleaseKeeps(k: Kernel, l: Lid)
    requires Core(k) && Enabled(k, Release(l))
    ensures Step(k, Release(l)).Some? && Core(Step(k, Release(l)).value)
  {
    assert LockOk(k, l) && OwnerOk(k, l);
    var k1 := k.Goto(RelCheck(l));
    assert k1 == k.WithLock(l, k.locks[l]).Goto(RelCheck(l));
    OthersAccess(k, k1, l, k.locks[l], RelCheck(l));
    MoveKeeps(k, k1, l, k.locks[l], RelCheck(l));
  }

  // the statements that neither take nor give the semaphore: the owner moves on, and its part of the lock with it
  lemma PlainMoves(k: Kernel) returns (lk: Lock, pc: Pc)
    requires k.Sane() && k.Me().pc.Lock().Some? && k.Me().pc.l in k.locks && k.Me().pc.Inside() && !k.Me().pc.Up?
    requires OwnerFields(k.locks[k.Me().pc.l], k.cur, k.Me().pc, k.Me().pc.l)
    ensures Advance(k) == Some(k.WithLock(k.Me().pc.l, lk).Goto(pc))
    ensures lk.waiters == k.locks[k.Me().pc.l].waiters && lk.value == k.locks[k.Me().pc.l].value && lk.owner == k.locks[k.Me().pc.l].owner
    ensures (pc.Out? || (pc.Lock() == Some(k.Me().pc.l) && pc.Inside())) && OwnerFields(lk, k.cur, pc, k.Me().pc.l)
  {
    var l := k.Me().pc.l;
    var k1 := Advance(k).value;
    lk, pc := k1.locks[l], k1.Me().pc;
    assert k.WithLock(l, k.locks[l]) == k;
  }

  lemma PlainKeeps(k: Kernel)
    requires Core(k) && Enabled(k, Continue) && !k.Me().pc.Down? && !k.Me().pc.DownLoop? && !k.Me().pc.Up?
    ensures Advance(k).Some? && Core(Advance(k).value)
  {
    var l := k.Me().pc.l;
    assert LockOk(k, l) && OwnerOk(k, l) && AccessOk(k, l, k.cur);
    assert k.Me().pc.Inside() && k.locks[l].owner == Some(k.cur);
    var lk, pc := PlainMoves(k);
    var k1 := k.WithLock(l, lk).Goto(pc);
    OthersAccess(k, k1, l, lk, pc);
    MoveKeeps(k, k1, l, lk, pc);
  }

  lemma TakeKeeps(k: Kernel, l: Lid)
    requires Core(k) && k.Sane() && l in k.locks && (k.Me().pc == Down(l) || k.Me().pc == DownLoop(l))
    requires k.locks[l].value != 0
    ensures DownTest(k, l).Some? && Core(DownTest(k, l).value)
  {
    assert LockOk(k, l) && OwnerOk(k, l);
    var lk := k.locks[l].(value := 0, owner := Some(k.cur));
    var k1 := k.WithLock(l, lk).Goto(SetHolder(l));
    OthersAccess(k, k1, l, lk, SetHolder(l));
    MoveKeeps(k, k1, l, lk, SetHolder(l));
  }

  // a thread that found the value 0, queued and blocked but not yet switched away from
  function Queued(k: Kernel, l: Lid): Kernel
    requires k.Sane() && l in k.locks
  {
    var lk := k.locks[l];
    k.WithLock(l, lk.(waiters := lk.waiters + [k.cur])).With(k.cur, k.Me().(pc := DownLoop(l), status := Blocked))
  }

  lemma QueuedLock(k: Kernel, l: Lid)
    requires k.Sane() && LockOkIn(k, l) && k.Me().status.Running? && k.cur != k.idle
    requires (k.Me().pc == Down(l) || k.Me().pc == DownLoop(l)) && k.locks[l].value == 0
    ensures k.cur !in k.locks[l].waiters && LockOk(Queued(k, l), l)
  {
    var k1 := Queued(k, l);
    assert forall t :: t in k1.locks[l].waiters <==> t in k.locks[l].waiters || t == k.cur;
    assert WaitersOk(k, l);
    assert WaitersOk(k1, l);
    assert OwnerOk(k, l) && AccessOk(k, l, k.cur);
    assert OwnerOk(k1, l);
    forall t | t in k1.threads
      ensures AccessOk(k1, l, t)
    {
      assert AccessOk(k, l, t);
    }
  }

  lemma QueuedSwitchable(k: Kernel, l: Lid)
    requires ReadyOk(k) && RunningOk(k) && l in k.locks && k.cur != k.idle
    ensures Switchable(Queued(k, l))
  {
  }

  lemma QueuedCalm(k: Kernel, l: Lid)
    requires Calm(k) && k.Sane() && k.Me().status.Running? && k.cur != k.idle
    requires l in k.locks && k.locks[l].value == 0 && (k.Me().pc == Down(l) || k.Me().pc == DownLoop(l))
    ensures k.cur !in k.locks[l].waiters && Calm(Queued(k, l))
  {
    QueuedLock(k, l);
    var k1 := QueuedChanges(k, l);
    CalmOthers(k, k1, k.cur, Some(l));
  }

  lemma QueuedChanges(k: Kernel, l: Lid) returns (k1: Kernel)
    requires k.Sane() && k.cur != k.idle && l in k.locks && (k.Me().pc == Down(l) || k.Me().pc == DownLoop(l))
    ensures k1 == Queued(k, l) && Changes(k, k1, k.cur, Some(l)) && PcOk(k1, k.cur)
    ensures forall l2 :: l2 in k.locks && l2 != l ==> k1.locks[l2] == k.locks[l2]
  {
    k1 := Queued(k, l);
  }

  lemma DownBlocks(k: Kernel, l: Lid)
    requires k.Sane() && l in k.locks && k.locks[l].value == 0 && k.cur !in k.locks[l].waiters
    ensures DownTest(k, l) == Schedule(Queued(k, l))
  {
    var lk := k.locks[l];
    var k0 := k.WithLock(l, lk.(waiters := lk.waiters + [k.cur])).Goto(DownLoop(l));
    assert k0.With(k.cur, k0.Me().(status := Blocked)).threads == Queued(k, l).threads;
  }

  lemma DownKeeps(k: Kernel, l: Lid)
    requires Core(k) && l in k.locks && (k.Me().pc == Down(l) || k.Me().pc == DownLoop(l))
    ensures DownTest(k, l).Some? && Core(DownTest(k, l).value)
  {
    if k.locks[l].value == 0 {
      QueuedSwitchable(k, l);
      QueuedCalm(k, l);
      DownBlocks(k, l);
      ScheduleKeeps(Queued(k, l));
    } else {
      TakeKeeps(k, l);
    }
  }

  // sema_up with nobody waiting
  lemma UpAloneKeeps(k: Kernel, l: Lid)
    requires Core(k) && k.Sane() && l in k.locks && k.Me().pc == Up(l) && k.locks[l].waiters == []
    ensures UpStep(k, l).Some? && Core(UpStep(k, l).value)
  {
    assert LockOk(k, l) && OwnerOk(k, l) && AccessOk(k, l, k.cur) && PcOk(k, k.cur);
    var lk := k.locks[l].(value := 1, owner := None);
    var k1 := k.WithLock(l, lk).Goto(Out);
    OthersAccess(k, k1, l, lk, Out);
    assert WaitersOk(k, l);
    assert WaitersOk(k1, l);
    assert OwnerOk(k1, l);
    KeepsRunning(k, k1, Some(l));
  }

  // sema_up with a waiter w: w is off the list and ready, on its way back into the loop
  ghost predicate Handed(k: Kernel, k1: Kernel, l: Lid, w: Tid) {
    && k.Sane() && LockOkIn(k, l) && k.Me().pc == Up(l) && k.Me().status.Running? && k.locks[l].waiters != []
    && w == k.locks[l].waiters[0] && w in k.threads && w != k.cur && k.threads[w].pc == DownLoop(l)
    && k1.idle == k.idle
    && k1.locks == k.locks[l := k.locks[l].(value := 1, owner := None, waiters := k.locks[l].waiters[1..])]
    && k1.threads == k.threads[k.cur := k.Me().(pc := Out)][w := k.threads[w].(status := Ready)]
  }

  lemma HandedWaiters(k: Kernel, k1: Kernel, l: Lid, w: Tid)
    requires Handed(k, k1, l, w)
    ensures WaitersOk(k1, l)
  {
    assert WaitersOk(k, l);
    var rest := k.locks[l].waiters[1..];
    assert forall t :: t in k.locks[l].waiters <==> t == w || t in rest;
    assert w !in rest;
  }

  lemma HandedLock(k: Kernel, k1: Kernel, l: Lid, w: Tid)
    requires Handed(k, k1, l, w)
    ensures LockOk(k1, l)
  {
    HandedWaiters(k, k1, l, w);
    assert OwnerOk(k, l) && AccessOk(k, l, k.cur);
    assert OwnerOk(k1, l);
    forall t | t in k1.threads
      ensures AccessOk(k1, l, t)
    {
      assert AccessOk(k, l, t);
    }
    assert OnItsWay(k1, l, w);
  }

  lemma UpHands(k: Kernel, l: Lid) returns (k1: Kernel, w: Tid)
    requires Core(k) && l in k.locks && k.Me().pc == Up(l) && k.locks[l].waiters != []
    ensures UpStep(k, l) == Some(k1) && Handed(k, k1, l, w) && k1.cur == k.cur && k1.ready == [w] + k.ready
    ensures k.threads[w].status.Blocked? && w != k.idle
  {
    assert LockOk(k, l) && WaitersOk(k, l) && OwnerOk(k, l) && AccessOk(k, l, k.cur);
    w := k.locks[l].waiters[0];
    assert w in k.locks[l].waiters;
    k1 := UpStep(k, l).value;
  }

  lemma UpWaiterKeeps(k: Kernel, l: Lid)
    requires Core(k) && l in k.locks && k.Me().pc == Up(l) && k.locks[l].waiters != []
    ensures UpStep(k, l).Some? && Core(UpStep(k, l).value)
  {
    var k1, w := UpHands(k, l);
    HandedLock(k, k1, l, w);
    UpOtherLocks(k, k1, l, w);
    HandedReady(k, k1, l, w);
    HandedPcs(k, k1, l, w);
  }

  lemma HandedReady(k: Kernel, k1: Kernel, l: Lid, w: Tid)
    requires ReadyOk(k) && RunningOk(k) && Handed(k, k1, l, w) && k1.cur == k.cur && k1.ready == [w] + k.ready
    requires k.threads[w].status.Blocked? && w != k.idle
    ensures ReadyOk(k1) && RunningOk(k1)
  {
    assert forall t :: t in k1.ready <==> t == w || t in k.ready;
  }

  lemma HandedPcs(k: Kernel, k1: Kernel, l: Lid, w: Tid)
    requires Handed(k, k1, l, w) && forall t :: t in k.threads ==> PcOk(k, t)
    ensures forall t :: t in k1.threads ==> PcOk(k1, t)
  {
    forall t | t in k1.threads
      ensures PcOk(k1, t)
    {
      assert PcOk(k, t);
    }
  }

  lemma UpOtherLocks(k: Kernel, k1: Kernel, l: Lid, w: Tid)
    requires Core(k) && k.Sane() && l in k.locks && k.Me().pc == Up(l)
    requires w in k.threads && w != k.cur && k.threads[w].pc == DownLoop(l)
    requires k1.idle == k.idle && k1.locks.Keys == k.locks.Keys
    requires forall l2 :: l2 in k.locks && l2 != l ==> k1.locks[l2] == k.locks[l2]
    requires k1.threads == k.threads[k.cur := k.Me().(pc := Out)][w := k.threads[w].(status := Ready)]
    ensures forall l2 :: l2 in k.locks && l2 != l ==> LockOk(k1, l2)
  {
    var k0 := k.Goto(Out);
    forall l2 | l2 in k.locks && l2 != l
      ensures LockOk(k1, l2)
    {
      OtherLock(k, k0, k.cur, Some(l), l2);
      OtherLock(k0, k1, w, Some(l), l2);
    }
  }

  // ---------- thread_all_list ----------

  // u and v are not both about to start, or to list, the same thread
  ghost predicate StartsApart(k: Kernel, u: Tid, v: Tid) {
    u in k.threads && v in k.threads && u != v && k.threads[u].pc.InStart() && k.threads[v].pc.InStart() ==>
      k.threads[u].pc.t != k.threads[v].pc.t
  }

  // a thread in thread_start has a thread of its own in hand: not on the ready list yet, or on that only
  ghost predicate StartOk(k: Kernel, u: Tid)
    requires u in k.threads
  {
    && (k.threads[u].pc.Starting? ==> k.threads[u].pc.t !in k.threads)
    && (k.threads[u].pc.Listing? ==> k.threads[u].pc.t in k.threads && k.threads[u].pc.t !in k.all)
  }

  // some thread is about to put t into thread_all_list
  ghost predicate Pending(k: Kernel, t: Tid) {
    exists u :: u in k.threads && k.threads[u].pc == Listing(t)
  }

  // thread_all_list holds each thread once, but for those just being started
  ghost predicate AllOk(k: Kernel) {
    && NoDup(k.all) && (forall t :: t in k.all ==> t in k.threads)
    && (forall t :: t in k.threads ==> t in k.all || Pending(k, t))
    && (forall u :: u in k.threads ==> StartOk(k, u))
    && (forall u, v {:trigger StartsApart(k, u, v)} :: StartsApart(k, u, v))
  }

  ghost predicate Inv(k: Kernel) { Core(k) && AllOk(k) }

  // what a step outside thread_start leaves alone
  ghost predicate StartsAlone(k: Kernel, k1: Kernel) {
    && k1.threads.Keys == k.threads.Keys && k1.all == k.all
    && forall t :: t in k.threads ==> SameStart(k.threads[t].pc, k1.threads[t].pc)
  }

  predicate SameStart(a: Pc, b: Pc) { a == b || (!a.InStart() && !b.InStart()) }

  lemma StartsAloneKeeps(k: Kernel, k1: Kernel)
    requires AllOk(k) && StartsAlone(k, k1)
    ensures AllOk(k1)
  {
    forall t | t in k1.threads
      ensures t in k1.all || Pending(k1, t)
    {
      if t !in k.all {
        var u :| u in k.threads && k.threads[u].pc == Listing(t);
        assert SameStart(k.threads[u].pc, k1.threads[u].pc);
      }
    }
    forall u | u in k1.threads
      ensures StartOk(k1, u)
    {
      assert StartOk(k, u);
    }
    forall u, v
      ensures StartsApart(k1, u, v)
    {
      assert StartsApart(k, u, v);
    }
  }

  lemma ScheduleStarts(k: Kernel)
    requires k.Sane() && Schedule(k).Some?
    ensures StartsAlone(k, Schedule(k).value)
  {
  }

  // the running thread is switched away from, its place changed only outside thread_start
  lemma SwitchStarts(k: Kernel, k1: Kernel)
    requires k.Sane() && k1.cur == k.cur && k1.idle == k.idle && k1.all == k.all && k1.threads.Keys == k.threads.Keys
    requires Schedule(k1).Some? && forall t :: t in k.threads ==> SameStart(k.threads[t].pc, k1.threads[t].pc)
    ensures StartsAlone(k, Schedule(k1).value)
  {
    ScheduleStarts(k1);
  }

  // every step outside thread_start
  lemma OutsideStarts(k: Kernel, e: Event)
    requires Core(k) && Enabled(k, e) && !e.NewThread? && !e.StartMore? && Step(k, e).Some?
    ensures StartsAlone(k, Step(k, e).value)
  {
    if e.Timer? {
      TickStarts(k);
    } else if e.Sleep? {
      SwitchStarts(k, k.Goto(Asleep).With(k.cur, k.Goto(Asleep).Me().(status := e.stat)));
    } else if e.YieldCpu? {
      SwitchStarts(k, k.With(k.cur, k.Me().(status := Ready)).(ready := k.ready + [k.cur]));
    } else if e.IdleLoop? {
      SwitchStarts(k, k.With(k.cur, k.Me().(status := Blocked)));
    } else if e.Continue? {
      ContinueStarts(k);
    } else {
      CallStarts(k, e);
    }
  }

  lemma TickStarts(k: Kernel)
    requires k.Sane() && Tick(k).Some?
    ensures StartsAlone(k, Tick(k).value)
  {
    if k.Me().ticks == 0 {
      SwitchStarts(k, k.With(k.cur, k.Me().(elapsed := k.Me().elapsed + 1)));
    }
  }

  lemma CallStarts(k: Kernel, e: Event)
    requires Enabled(k, e) && (e.Wake? || e.Acquire? || e.Release?) && Step(k, e).Some?
    ensures StartsAlone(k, Step(k, e).value)
  {
  }

  lemma ContinueStarts(k: Kernel)
    requires Core(k) && Enabled(k, Continue) && Advance(k).Some?
    ensures StartsAlone(k, Advance(k).value)
  {
    var l := k.Me().pc.l;
    if k.Me().pc.Down? || k.Me().pc.DownLoop? {
      DownStarts(k, l);
    } else if k.Me().pc.Up? {
      UpStarts(k, l);
    } else {
      PlainStarts(k, l);
    }
  }

  lemma PlainStarts(k: Kernel, l: Lid)
    requires Core(k) && l in k.locks && k.Me().pc.Lock() == Some(l) && k.Me().pc.Inside() && !k.Me().pc.Up?
    ensures Advance(k).Some? && StartsAlone(k, Advance(k).value)
  {
    assert LockOk(k, l) && OwnerOk(k, l) && AccessOk(k, l, k.cur);
    var lk, pc := PlainMoves(k);
  }

  lemma DownStarts(k: Kernel, l: Lid)
    requires k.Sane() && l in k.locks && !k.Me().pc.InStart() && DownTest(k, l).Some?
    ensures StartsAlone(k, DownTest(k, l).value)
  {
    if k.locks[l].value == 0 {
      DownBlocks(k, l);
      SwitchStarts(k, Queued(k, l));
    }
  }

  lemma UpStarts(k: Kernel, l: Lid)
    requires k.Sane() && l in k.locks && !k.Me().pc.InStart() && UpStep(k, l).Some?
    ensures StartsAlone(k, UpStep(k, l).value)
  {
  }

  // thread_start is entered with a fresh page
  lemma NewThreadKeeps(k: Kernel, t: Tid, prio: nat)
    requires Inv(k) && Enabled(k, NewThread(t, prio))
    ensures Inv(k.Goto(Starting(t, prio)))
  {
    var k1 := k.Goto(Starting(t, prio));
    InStartKeeps(k, k1, Starting(t, prio));
    forall x | x in k1.threads
      ensures x in k1.all || Pending(k1, x)
    {
      if x !in k.all {
        var u :| u in k.threads && k.threads[u].pc == Listing(x);
        assert k1.threads[u].pc == Listing(x);
      }
    }
    forall u | u in k1.threads
      ensures StartOk(k1, u)
    {
      assert StartOk(k, u);
    }
    forall u, v
      ensures StartsApart(k1, u, v)
    {
      assert StartsApart(k, u, v) && (u in k.threads ==> StartOk(k, u)) && (v in k.threads ==> StartOk(k, v));
    }
  }

  // the thread goes on the ready list
  lemma StartStepKeeps(k: Kernel)
    requires Inv(k) && k.Me().pc.Starting?
    ensures Start(k, k.Me().pc.t, k.Me().pc.prio).Some? && Inv(Start(k, k.Me().pc.t, k.Me().pc.prio).value)
  {
    var t, prio := k.Me().pc.t, k.Me().pc.prio;
    assert StartOk(k, k.cur);
    StartKeeps(k, t, prio);
    var k1 := Start(k, t, prio).value;
    assert k1.threads[k.cur].pc == Listing(t);
    forall x | x in k1.threads
      ensures x in k1.all || Pending(k1, x)
    {
      if x != t && x !in k.all {
        var u :| u in k.threads && k.threads[u].pc == Listing(x);
        assert k1.threads[u].pc == Listing(x);
      }
    }
    forall u | u in k1.threads
      ensures StartOk(k1, u)
    {
      assert StartsApart(k, u, k.cur) && (u in k.threads ==> StartOk(k, u));
    }
    forall u, v
      ensures StartsApart(k1, u, v)
    {
      assert StartsApart(k, u, v);
    }
  }

  // and into thread_all_list
  lemma ListKeeps(k: Kernel)
    requires Inv(k) && k.Me().pc.Listing?
    ensures List(k, k.Me().pc.t).Some? && Inv(List(k, k.Me().pc.t).value)
  {
    var t := k.Me().pc.t;
    assert StartOk(k, k.cur);
    var k1 := List(k, t).value;
    InStartKeeps(k, k1, Out);
    assert forall x :: x in k1.all <==> x in k.all || x == t;
    forall x | x in k1.threads
      ensures x in k1.all || Pending(k1, x)
    {
      if x !in k1.all {
        var u :| u in k.threads && k.threads[u].pc == Listing(x);
        assert k1.threads[u].pc == Listing(x);
      }
    }
    forall u | u in k1.threads
      ensures StartOk(k1, u)
    {
      assert StartsApart(k, u, k.cur) && StartOk(k, u);
    }
    forall u, v
      ensures StartsApart(k1, u, v)
    {
      assert StartsApart(k, u, v);
    }
  }

  // ---------- runs ----------

  lemma CoreStep(k: Kernel, e: Event)
    requires Core(k) && Enabled(k, e) && !e.NewThread? && !e.StartMore?
    ensures Step(k, e).Some? && Core(Step(k, e).value)
  {
    match e
    case Timer => TimerKeeps(k);
    case Sleep(stat) => SleepKeeps(k, stat);
    case Wake(t) => WakeKeeps(k, t);
    case YieldCpu => YieldKeeps(k);
    case IdleLoop => IdleKeeps(k);
    case Acquire(l) => AcquireKeeps(k, l);
    case Release(l) => ReleaseKeeps(k, l);
    case Continue =>
      var l := k.Me().pc.l;
      if k.Me().pc.Down? || k.Me().pc.DownLoop? {
        DownKeeps(k, l);
      } else if !k.Me().pc.Up? {
        PlainKeeps(k);
      } else if k.locks[l].waiters == [] {
        UpAloneKeeps(k, l);
      } else {
        UpWaiterKeeps(k, l);
      }
  }

  // No step of any thread, and no interrupt, fires an assertion or leaves the invariant.
  lemma StepKeeps(k: Kernel, e: Event)
    requires Inv(k) && Enabled(k, e)
    ensures Step(k, e).Some? && Inv(Step(k, e).value)
  {
    if e.NewThread? {
      NewThreadKeeps(k, e.t, e.prio);
    } else if e.StartMore? {
      if k.Me().pc.Starting? {
        StartStepKeeps(k);
      } else {
        ListKeeps(k);
      }
    } else {
      CoreStep(k, e);
      OutsideStarts(k, e);
      StartsAloneKeeps(k, Step(k, e).value);
    }
  }

  lemma {:induction false} RunsAreSafe(k: Kernel, es: seq<Event>)
    requires Inv(k) && CanRun(k, es)
    ensures RunAll(k, es).Some? && Inv(RunAll(k, es).value)
    decreases |es|
  {
    if es != [] {
      StepKeeps(k, es[0]);
      RunsAreSafe(Step(k, es[0]).value, es[1..]);
    }
  }

  lemma BootOk(main: Tid, idle: Tid, locks: set<Lid>)
    requires main != idle
    ensures Inv(Boot(main, idle, locks))
  {
    var k := Boot(main, idle, locks);
    assert ReadyOk(k);
    forall l | l in k.locks
      ensures LockOk(k, l)
    {
      assert WaitersOk(k, l);
    }
  }
}
