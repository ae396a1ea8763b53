/** thread.c, sync.c and the clock handler in their own form: the thread table, the ready list and the
    locks are fields the methods change.  Each method is proved equal to its function in Threads; `ok` is
    false where an ASSERT or PANIC of the source fires. */
module KernelThreadsModel {
  import opened Bits
  import opened Threads
  import opened ThreadsSafety

  class Cpu {
    var threads: map<Tid, Thread>
    var ready: seq<Tid>        // thread_ready_list
    var all: seq<Tid>          // thread_all_list
    var cur: Tid               // running_thread()
    var idle: Tid
    var locks: map<Lid, Lock>

    ghost function State(): Kernel
      reads this
    {
      Kernel(threads, ready, all, cur, idle, locks)
    }

    // thread_init
    constructor (main: Tid, idle: Tid, lockIds: set<Lid>)
      requires main != idle
      ensures State() == Boot(main, idle, lockIds) && Inv(State())
    {
      threads := map[main := Thread(Running, 31, 31, 0, Out), idle := Thread(Ready, 10, 10, 0, Out)];
      ready, all, cur, this.idle := [idle], [main, idle], main, idle;
      locks := map l | l in lockIds :: Lock(1, [], None, 0, None);
      new;
      BootOk(main, idle, lockIds);
    }

    method SetStatus(t: Tid, status: Status)
      requires t in threads
      modifies this`threads
      ensures threads == old(threads)[t := old(threads)[t].(status := status)]
    {
      threads := threads[t := threads[t].(status := status)];
    }

    // thread_unblock
    method ThreadUnblock(t: Tid) returns (ok: bool)
      modifies this`threads, this`ready
      ensures ok == Unblock(old(State()), t).Some?
      ensures ok ==> State() == Unblock(old(State()), t).value
    {
      if t !in threads || !threads[t].status.Stopped() {
        return false;
      }
      if t in ready {
        return false;
      }
      ready := [t] + ready;  // list_push
      SetStatus(t, Ready);
      ok := true;
    }

    // schedule; switch_to makes the chosen thread current
    method Reschedule() returns (ok: bool)
      requires cur in threads
      modifies this`threads, this`ready, this`cur
      ensures ok == Schedule(old(State())).Some?
      ensures ok ==> State() == Schedule(old(State())).value
    {
      if threads[cur].status.Running? {
        if cur in ready {
          return false;
        }
        ready := ready + [cur];  // list_append
        threads := threads[cur := threads[cur].(status := Ready, ticks := threads[cur].priority)];
      }
      ghost var requeued := State();
      assert Requeue(old(State())) == Some(requeued);
      if ready == [] {
        ok := ThreadUnblock(idle);
        if !ok {
          return;
        }
      }
      assert WakeIdle(requeued) == Some(State());
      if ready == [] || ready[0] !in threads {
        return false;
      }
      var next := ready[0];  // list_pop
      ready := ready[1..];
      SetStatus(next, Running);
      cur := next;
      ok := true;
    }

    // thread_block
    method ThreadBlock(stat: Status) returns (ok: bool)
      requires cur in threads
      modifies this`threads, this`ready, this`cur
      ensures ok == Block(old(State()), stat).Some?
      ensures ok ==> State() == Block(old(State()), stat).value
    {
      if !stat.Stopped() {
        return false;
      }
      SetStatus(cur, stat);
      ok := Reschedule();
    }

    // thread_yield, as written or with the missing list_append
    method ThreadYield(repaired: bool) returns (ok: bool)
      requires cur in threads
      modifies this`threads, this`ready, this`cur
      ensures var r := if repaired then Yield(old(State())) else YieldAsWritten(old(State()));
              ok == r.Some? && (ok ==> State() == r.value)
    {
      if cur in ready {
        return false;
      }
      if repaired {
        ready := ready + [cur];
      }
      SetStatus(cur, Ready);
      ok := Reschedule();
    }

    // thread_start, after its page is set up: the new thread goes on the ready list ...
    method ThreadStart(t: Tid, prio: nat) returns (ok: bool)
      requires cur in threads && t !in threads
      modifies this`threads, this`ready
      ensures ok == Start(old(State()), t, prio).Some?
      ensures ok ==> State() == Start(old(State()), t, prio).value
    {
      if t in ready {
        return false;
      }
      threads := threads[t := Thread(Ready, prio, prio, 0, Out)];
      ready := ready + [t];
      Place(Listing(t));
      ok := true;
    }

    // ... and into the list of all threads
    method ThreadList(t: Tid) returns (ok: bool)
      requires cur in threads
      modifies this`threads, this`all
      ensures ok == List(old(State()), t).Some?
      ensures ok ==> State() == List(old(State()), t).value
    {
      if t in all {
        return false;
      }
      all := all + [t];
      Place(Out);
      ok := true;
    }

    // intr_timer_handler
    method TimerHandler() returns (ok: bool)
      requires cur in threads
      modifies this`threads, this`ready, this`cur
      ensures ok == Tick(old(State())).Some?
      ensures ok ==> State() == Tick(old(State())).value
    {
      threads := threads[cur := threads[cur].(elapsed := threads[cur].elapsed + 1)];
      if threads[cur].ticks == 0 {
        ok := Reschedule();
      } else {
        threads := threads[cur := threads[cur].(ticks := threads[cur].ticks - 1)];
        ok := true;
      }
    }

    method Place(pc: Pc)
      requires cur in threads
      modifies this`threads
      ensures State() == old(State()).Goto(pc)
    {
      threads := threads[cur := threads[cur].(pc := pc)];
    }

    // sema_down from its interrupt-off point, or from behind thread_block, to where it blocks or is over
    method SemaDown(l: Lid) returns (ok: bool)
      requires cur in threads && l in locks
      modifies this`threads, this`ready, this`cur, this`locks
      ensures ok == DownTest(old(State()), l).Some?
      ensures ok ==> State() == DownTest(old(State()), l).value
    {
      if locks[l].value == 0 {
        if cur in locks[l].waiters {
          return false;
        }
        locks := locks[l := locks[l].(waiters := locks[l].waiters + [cur])];
        Place(DownLoop(l));
        ok := ThreadBlock(Blocked);
      } else {
        var value := locks[l].value - 1;
        if value != 0 {
          return false;
        }
        locks := locks[l := locks[l].(value := value, owner := Some(cur))];
        Place(SetHolder(l));
        ok := true;
      }
    }

    // sema_up
    method SemaUp(l: Lid) returns (ok: bool)
      requires cur in threads && l in locks
      modifies this`threads, this`ready, this`locks
      ensures ok == UpStep(old(State()), l).Some?
      ensures ok ==> State() == UpStep(old(State()), l).value
    {
      if locks[l].value != 0 {
        return false;
      }
      var waiters := locks[l].waiters;
      Place(Out);
      ok := true;
      if waiters != [] {
        locks := locks[l := locks[l].(waiters := waiters[1..])];  // list_pop
        ok := ThreadUnblock(waiters[0]);
      }
      locks := locks[l := locks[l].(value := 1, owner := None)];
    }
  }
}
