/** Scheduling (thread/thread.c, device/timer.c) and locking (thread/sync.c) as one state machine.  A step
    is a stretch of code no other thread can interrupt: code run with interrupts off, or one statement of
    lock_acquire and lock_release.  None as a result is an ASSERT or PANIC. */
module Threads {
  import opened Bits

  type Tid = nat
  type Lid = nat

  // enum thread_status
  datatype Status = Running | Ready | Blocked | Waiting | Hanging | Died
  {
    predicate Stopped() { Blocked? || Waiting? || Hanging? }
  }

  // where a thread is
  datatype Pc =
    | Out                 // in its own code
    | Asleep              // in a thread_block that is not sema_down's
    | Starting(t: Tid, prio: nat)  // thread_start, t's page set up but on no list
    | Listing(t: Tid)     // thread_start, t on the ready list but not in thread_all_list
    | AcqNest(l: Lid)     // lock_acquire found itself to be the holder
    | Down(l: Lid)        // lock_acquire, about to call sema_down
    | DownLoop(l: Lid)    // behind thread_block in sema_down's loop, interrupts off
    | SetHolder(l: Lid)   // sema_down is over
    | SetRepeat(l: Lid)
    | RelCheck(l: Lid)    // lock_release
    | RelDec(l: Lid)
    | ClearHolder(l: Lid)
    | ClearRepeat(l: Lid)
    | Up(l: Lid)          // about to call sema_up
  {
    function Lock(): Option<Lid> { if Out? || Asleep? || InStart() then None else Some(l) }

    predicate InStart() { Starting? || Listing? }

    // between the end of sema_down and the start of sema_up, inside lock_acquire or lock_release
    predicate Inside() { SetHolder? || SetRepeat? || AcqNest? || RelCheck? || RelDec? || ClearHolder? || ClearRepeat? || Up? }
  }

  datatype Thread = Thread(status: Status, ticks: nat, priority: nat, elapsed: nat, pc: Pc)

  // struct lock with its semaphore.  owner is a history variable: the thread that got out of sema_down and
  // not yet into sema_up.
  datatype Lock = Lock(value: nat, waiters: seq<Tid>, holder: Option<Tid>, repeat: nat, owner: Option<Tid>)

  // all is thread_all_list.  A thread that is being started joins threads with the ready list; until then its
  // page is known to its creator alone.
  datatype Kernel = Kernel(threads: map<Tid, Thread>, ready: seq<Tid>, all: seq<Tid>, cur: Tid, idle: Tid, locks: map<Lid, Lock>)
  {
    predicate Sane() { cur in threads && idle in threads }

    function With(t: Tid, th: Thread): Kernel { this.(threads := threads[t := th]) }

    function WithLock(l: Lid, lk: Lock): Kernel { this.(locks := locks[l := lk]) }

    function Me(): Thread
      requires cur in threads
    {
      threads[cur]
    }

    // the running thread goes on at pc
    function Goto(pc: Pc): Kernel
      requires cur in threads
    {
      With(cur, Me().(pc := pc))
    }
  }

  // ---------- thread.c ----------

  // thread_unblock
  function Unblock(k: Kernel, t: Tid): Option<Kernel> {
    if t !in k.threads || !k.threads[t].status.Stopped() || t in k.ready then None
    else Some(k.With(t, k.threads[t].(status := Ready)).(ready := [t] + k.ready))
  }

  // the head of schedule: a thread that still runs goes to the end of the ready list with a new time slice
  function Requeue(k: Kernel): Option<Kernel>
    requires k.cur in k.threads
  {
    if !k.Me().status.Running? then Some(k)
    else if k.cur in k.ready then None
    else Some(k.With(k.cur, k.Me().(status := Ready, ticks := k.Me().priority)).(ready := k.ready + [k.cur]))
  }

  // the middle: with nothing ready, wake idle
  function WakeIdle(k: Kernel): Option<Kernel> {
    if k.ready == [] then Unblock(k, k.idle) else Some(k)
  }

  // the tail: the first ready thread becomes current
  function Dispatch(k: Kernel): Option<Kernel> {
    if k.ready == [] || k.ready[0] !in k.threads then None
    else
      var next := k.ready[0];
      Some(k.With(next, k.threads[next].(status := Running)).(ready := k.ready[1..], cur := next))
  }

  function Schedule(k: Kernel): Option<Kernel>
    requires k.cur in k.threads
  {
    match Requeue(k)
    case None => None
    case Some(k1) =>
      match WakeIdle(k1)
      case None => None
      case Some(k2) => Dispatch(k2)
  }

  // thread_block
  function Block(k: Kernel, stat: Status): Option<Kernel>
    requires k.cur in k.threads
  {
    if !stat.Stopped() then None
    else Schedule(k.With(k.cur, k.Me().(status := stat)))
  }

  // thread_start, once the new thread's page is there: it goes to the end of the ready list ...
  function Start(k: Kernel, t: Tid, prio: nat): Option<Kernel>
    requires k.cur in k.threads
  {
    if t in k.ready then None
    else Some(k.With(t, Thread(Ready, prio, prio, 0, Out)).(ready := k.ready + [t]).Goto(Listing(t)))
  }

  // ... and then to the end of thread_all_list
  function List(k: Kernel, t: Tid): Option<Kernel>
    requires k.cur in k.threads
  {
    if t in k.all then None else Some(k.(all := k.all + [t]).Goto(Out))
  }

  // thread_yield as written: the thread is marked READY but not put on the ready list
  function YieldAsWritten(k: Kernel): Option<Kernel>
    requires k.cur in k.threads
  {
    if k.cur in k.ready then None
    else Schedule(k.With(k.cur, k.Me().(status := Ready)))
  }

  // thread_yield repaired: it is appended first
  function Yield(k: Kernel): Option<Kernel>
    requires k.cur in k.threads
  {
    if k.cur in k.ready then None
    else Schedule(k.With(k.cur, k.Me().(status := Ready)).(ready := k.ready + [k.cur]))
  }

  // intr_timer_handler
  function Tick(k: Kernel): Option<Kernel>
    requires k.cur in k.threads
  {
    var k1 := k.With(k.cur, k.Me().(elapsed := k.Me().elapsed + 1));
    if k.Me().ticks == 0 then Schedule(k1)
    else Some(k1.With(k.cur, k1.Me().(ticks := k.Me().ticks - 1)))
  }

  // ---------- sync.c ----------

  // one turn of sema_down's loop: block on value 0, else take the semaphore
  function DownTest(k: Kernel, l: Lid): Option<Kernel>
    requires k.cur in k.threads && l in k.locks
  {
    var lk := k.locks[l];
    if lk.value == 0 then
      if k.cur in lk.waiters then None
      else Block(k.WithLock(l, lk.(waiters := lk.waiters + [k.cur])).Goto(DownLoop(l)), Blocked)
    else if lk.value != 1 then None
    else Some(k.WithLock(l, lk.(value := 0, owner := Some(k.cur))).Goto(SetHolder(l)))
  }

  // sema_up
  function UpStep(k: Kernel, l: Lid): Option<Kernel>
    requires k.cur in k.threads && l in k.locks
  {
    var lk := k.locks[l];
    if lk.value != 0 then None
    else
      var freed := lk.(value := 1, owner := None);
      if lk.waiters == [] then Some(k.WithLock(l, freed).Goto(Out))
      else Unblock(k.WithLock(l, freed.(waiters := lk.waiters[1..])).Goto(Out), lk.waiters[0])
  }

  // the next statement of lock_acquire or lock_release
  function Advance(k: Kernel): Option<Kernel>
    requires k.cur in k.threads && k.Me().pc.Lock().Some? && k.Me().pc.l in k.locks
  {
    var l := k.Me().pc.l;
    var lk := k.locks[l];
    match k.Me().pc
    case AcqNest(_) => Some(k.WithLock(l, lk.(repeat := lk.repeat + 1)).Goto(Out))
    case Down(_) => DownTest(k, l)
    case DownLoop(_) => DownTest(k, l)
    case SetHolder(_) => Some(k.WithLock(l, lk.(holder := Some(k.cur))).Goto(SetRepeat(l)))
    case SetRepeat(_) => if lk.repeat != 0 then None else Some(k.WithLock(l, lk.(repeat := 1)).Goto(Out))
    case RelCheck(_) => if lk.repeat > 1 then Some(k.Goto(RelDec(l))) else if lk.repeat != 1 then None else Some(k.Goto(ClearHolder(l)))
    case RelDec(_) => if lk.repeat == 0 then None else Some(k.WithLock(l, lk.(repeat := lk.repeat - 1)).Goto(Out))
    case ClearHolder(_) => Some(k.WithLock(l, lk.(holder := None)).Goto(ClearRepeat(l)))
    case ClearRepeat(_) => Some(k.WithLock(l, lk.(repeat := 0)).Goto(Up(l)))
    case Up(_) => UpStep(k, l)
  }

  // ---------- steps ----------

  datatype Event =
    | Timer                       // a clock interrupt
    | NewThread(t: Tid, prio: nat)  // it calls thread_start, which gets a page for t
    | StartMore                   // the next step of thread_start
    | Sleep(stat: Status)         // the running thread calls thread_block
    | Wake(t: Tid)                // it, or an interrupt handler, calls thread_unblock for a thread asleep so
    | YieldCpu
    | IdleLoop                    // idle calls thread_block
    | Acquire(l: Lid)             // calls of lock_acquire and lock_release
    | Release(l: Lid)
    | Continue                    // the next statement inside them

  // a thread is about to put t on the ready list
  predicate BeingStarted(k: Kernel, t: Tid) {
    exists u :: u in k.threads && k.threads[u].pc.Starting? && k.threads[u].pc.t == t
  }

  // what the running thread or the hardware can do next.  Calls are paired: only the owner of a lock
  // releases it.  Interrupts are off while a thread is in sema_down's loop.
  predicate Enabled(k: Kernel, e: Event) {
    k.Sane() &&
    match e
    case Timer => !k.Me().pc.DownLoop?
    case NewThread(t, _) => k.Me().pc.Out? && k.cur != k.idle && t !in k.threads && !BeingStarted(k, t)
    case StartMore => k.Me().pc.InStart()
    case Sleep(stat) => k.Me().pc.Out? && k.cur != k.idle && stat.Stopped()
    case Wake(t) => !k.Me().pc.DownLoop? && t in k.threads && k.threads[t].pc.Asleep?
    case YieldCpu => k.Me().pc.Out? && k.cur != k.idle
    case IdleLoop => k.cur == k.idle
    case Acquire(l) => k.Me().pc.Out? && k.cur != k.idle && l in k.locks
    case Release(l) => k.Me().pc.Out? && l in k.locks && k.locks[l].owner == Some(k.cur)
    case Continue => k.Me().pc.Lock().Some? && k.Me().pc.l in k.locks
  }

  function Step(k: Kernel, e: Event): Option<Kernel>
    requires Enabled(k, e)
  {
    match e
    case Timer => Tick(k)
    case NewThread(t, prio) => Some(k.Goto(Starting(t, prio)))
    case StartMore => if k.Me().pc.Starting? then Start(k, k.Me().pc.t, k.Me().pc.prio) else List(k, k.Me().pc.t)
    case Sleep(stat) => Block(k.Goto(Asleep), stat)
    case Wake(t) => Unblock(k.With(t, k.threads[t].(pc := Out)), t)
    case YieldCpu => Yield(k)
    case IdleLoop => Block(k, Blocked)
    case Acquire(l) => Some(k.Goto(if k.locks[l].holder == Some(k.cur) then AcqNest(l) else Down(l)))
    case Release(l) => if k.locks[l].holder != Some(k.cur) then None else Some(k.Goto(RelCheck(l)))
    case Continue => Advance(k)
  }

  // a run: every event enabled in its turn
  predicate CanRun(k: Kernel, es: seq<Event>)
    decreases |es|
  {
    es == [] || (Enabled(k, es[0]) && (Step(k, es[0]).Some? ==> CanRun(Step(k, es[0]).value, es[1..])))
  }

  function RunAll(k: Kernel, es: seq<Event>): Option<Kernel>
    decreases |es|
  {
    if es == [] then Some(k)
    else if !Enabled(k, es[0]) then None
    else
      match Step(k, es[0])
      case None => None
      case Some(k1) => RunAll(k1, es[1..])
  }

  // thread_init: main runs, idle is ready, every lock is free
  function Boot(main: Tid, idle: Tid, locks: set<Lid>): Kernel
    requires main != idle
  {
    Kernel(map[main := Thread(Running, 31, 31, 0, Out), idle := Thread(Ready, 10, 10, 0, Out)],
           [idle], [main, idle], main, idle, map l | l in locks :: Lock(1, [], None, 0, None))
  }
}
