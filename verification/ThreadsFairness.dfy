/** How long a ready thread waits for the processor: the round robin of thread.c and timer.c. */
module ThreadsFairness {
  import opened Bits
  import opened Threads
  import opened ThreadsSafety

  function TicksOf(k: Kernel, t: Tid): nat { if t in k.threads then k.threads[t].ticks else 0 }

  // clock interrupts the threads in s can use up, each its slice and the interrupt that ends it
  function Slices(k: Kernel, s: seq<Tid>): nat {
    if s == [] then 0 else TicksOf(k, s[0]) + 1 + Slices(k, s[1..])
  }

  // ... the running thread and those ahead of position i of the ready list
  function WaitAt(k: Kernel, i: nat): nat
    requires i <= |k.ready|
  {
    Slices(k, [k.cur] + k.ready[..i])
  }

  // a step that calls thread_unblock for a waiter or a sleeper
  predicate Unblocks(k: Kernel, e: Event)
    requires Enabled(k, e)
  {
    e.Wake? || (e.Continue? && k.Me().pc.Up? && k.locks[k.Me().pc.l].waiters != [])
  }

  predicate NoUnblocks(k: Kernel, es: seq<Event>)
    decreases |es|
  {
    es == [] || (Enabled(k, es[0]) && !Unblocks(k, es[0]) &&
                 (Step(k, es[0]).Some? ==> NoUnblocks(Step(k, es[0]).value, es[1..])))
  }

  function Timers(es: seq<Event>): nat {
    if es == [] then 0 else (if es[0].Timer? then 1 else 0) + Timers(es[1..])
  }

  // t is the running thread somewhere along the run
  predicate Dispatched(k: Kernel, es: seq<Event>, t: Tid)
    decreases |es|
  {
    k.cur == t || (es != [] && Enabled(k, es[0]) && Step(k, es[0]).Some? && Dispatched(Step(k, es[0]).value, es[1..], t))
  }

  lemma {:induction false} SlicesSame(k: Kernel, k1: Kernel, s: seq<Tid>)
    requires forall t :: t in s ==> TicksOf(k, t) == TicksOf(k1, t)
    ensures Slices(k, s) == Slices(k1, s)
  {
    if s != [] {
      assert s[0] in s;
      SlicesSame(k, k1, s[1..]);
    }
  }

  // the same thread still ahead, less wait
  ghost predicate Closer(k: Kernel, k1: Kernel, i: nat, j: nat, d: nat) {
    i < |k.ready| && j < |k1.ready| && k1.ready[j] == k.ready[i] && WaitAt(k1, j) + d <= WaitAt(k, i)
  }

  // a switch with position i not yet first brings it one position forward
  lemma SwitchCloser(k: Kernel, i: nat)
    requires Switchable(k) && 0 < i < |k.ready|
    requires k.Me().status.Ready? ==> k.cur == k.ready[|k.ready| - 1] && i < |k.ready| - 1
    ensures Schedule(k).Some? && Closer(k, Schedule(k).value, i, i - 1, 1)
  {
    var k1 := ScheduleOk(k);
    assert k1.cur == k.ready[0] && k1.ready[..i - 1] == k.ready[1..i];
    assert [k1.cur] + k1.ready[..i - 1] == k.ready[..i];
    forall t | t in k.ready[..i]
      ensures TicksOf(k, t) == TicksOf(k1, t)
    {
      assert t in k.ready && t != k.cur;
    }
    SlicesSame(k, k1, k.ready[..i]);
    assert ([k.cur] + k.ready[..i])[1..] == k.ready[..i];
  }

  lemma SwitchFirst(k: Kernel)
    requires Switchable(k) && k.ready != []
    ensures Schedule(k).Some? && Schedule(k).value.cur == k.ready[0]
  {
    var k1 := ScheduleOk(k);
  }

  // the running thread goes on, and the list grows at its end at most
  lemma StayCloser(k: Kernel, k1: Kernel, i: nat, d: nat)
    requires i < |k.ready| && k.ready <= k1.ready && k1.cur == k.cur && k.cur !in k.ready
    requires forall t :: t in k.ready ==> TicksOf(k1, t) == TicksOf(k, t)
    requires TicksOf(k1, k.cur) + d <= TicksOf(k, k.cur)
    ensures Closer(k, k1, i, i, d)
  {
    assert k1.ready[..i] == k.ready[..i];
    SlicesSame(k, k1, k.ready[..i]);
    assert ([k.cur] + k.ready[..i])[1..] == k.ready[..i];
  }

  // one step, when it does not dispatch the thread at position i, brings it closer; the clock by one tick
  lemma StepCloser(k: Kernel, e: Event, i: nat) returns (j: nat)
    requires Inv(k) && Enabled(k, e) && !Unblocks(k, e) && i < |k.ready|
    ensures Step(k, e).Some?
    ensures Step(k, e).value.cur == k.ready[i] || Closer(k, Step(k, e).value, i, j, if e.Timer? then 1 else 0)
  {
    StepKeeps(k, e);
    assert k.ready[i] in k.ready && k.cur !in k.ready;
    if e.Timer? {
      j := TimerCloser(k, i);
    } else if e.Sleep? {
      j := SleepCloser(k, e.stat, i);
    } else if e.YieldCpu? {
      j := YieldCloser(k, i);
    } else if e.IdleLoop? {
      j := StopCloser(k, k.With(k.cur, k.Me().(status := Blocked)), i);
    } else if e.Continue? {
      j := ContinueCloser(k, i);
    } else if e.Acquire? || e.Release? {
      j := CallCloser(k, e, i);
    } else {
      j := StartCloser(k, e, i);
    }
  }

  lemma SleepCloser(k: Kernel, stat: Status, i: nat) returns (j: nat)
    requires Core(k) && Enabled(k, Sleep(stat)) && i < |k.ready|
    ensures Step(k, Sleep(stat)).Some?
    ensures var k1 := Step(k, Sleep(stat)).value; k1.cur == k.ready[i] || Closer(k, k1, i, j, 0)
  {
    var k1 := k.Goto(Asleep).With(k.cur, k.Goto(Asleep).Me().(status := stat));
    assert k1.threads == k.threads[k.cur := k1.Me()];
    j := StopCloser(k, k1, i);
  }

  // a thread that is being started comes at the end
  lemma StartCloser(k: Kernel, e: Event, i: nat) returns (j: nat)
    requires Inv(k) && Enabled(k, e) && (e.NewThread? || e.StartMore?) && i < |k.ready|
    ensures Step(k, e).Some? && Closer(k, Step(k, e).value, i, j, 0)
  {
    StepKeeps(k, e);
    j := i;
    assert k.cur !in k.ready && StartOk(k, k.cur);
    StayCloser(k, Step(k, e).value, i, 0);
  }

  lemma CallCloser(k: Kernel, e: Event, i: nat) returns (j: nat)
    requires Inv(k) && Enabled(k, e) && (e.Acquire? || e.Release?) && i < |k.ready|
    ensures Step(k, e).Some? && Closer(k, Step(k, e).value, i, j, 0)
  {
    StepKeeps(k, e);
    j := i;
    assert k.cur !in k.ready;
    StayCloser(k, Step(k, e).value, i, 0);
  }

  lemma StopCloser(k: Kernel, k1: Kernel, i: nat) returns (j: nat)
    requires Core(k) && i < |k.ready| && k1.cur == k.cur && k1.ready == k.ready && k1.idle == k.idle
    requires k1.cur in k1.threads && k1.threads == k.threads[k.cur := k1.Me()] && k1.Me().ticks == k.Me().ticks
    requires k1.Me().status.Stopped() && IdleOk(k1)
    ensures Schedule(k1).Some?
    ensures Schedule(k1).value.cur == k.ready[i] || Closer(k, Schedule(k1).value, i, j, 0)
  {
    assert Switchable(k1);
    j := if i == 0 then 0 else i - 1;
    if i == 0 {
      SwitchFirst(k1);
    } else {
      SwitchCloser(k1, i);
      SlicesSame(k, k1, [k.cur] + k.ready[..i]);
    }
  }

  lemma TimerCloser(k: Kernel, i: nat) returns (j: nat)
    requires Core(k) && i < |k.ready| && !k.Me().pc.DownLoop?
    ensures Tick(k).Some? && (Tick(k).value.cur == k.ready[i] || Closer(k, Tick(k).value, i, j, 1))
  {
    var k1 := k.With(k.cur, k.Me().(elapsed := k.Me().elapsed + 1));
    assert k.cur !in k.ready;
    if k.Me().ticks != 0 {
      j := i;
      StayCloser(k, Tick(k).value, i, 1);
    } else {
      assert Switchable(k1);
      j := if i == 0 then 0 else i - 1;
      if i == 0 {
        SwitchFirst(k1);
      } else {
        SwitchCloser(k1, i);
        SlicesSame(k, k1, [k.cur] + k.ready[..i]);
      }
    }
  }

  lemma YieldCloser(k: Kernel, i: nat) returns (j: nat)
    requires Core(k) && Enabled(k, YieldCpu) && i < |k.ready|
    ensures Yield(k).Some? && (Yield(k).value.cur == k.ready[i] || Closer(k, Yield(k).value, i, j, 0))
  {
    var k1 := k.With(k.cur, k.Me().(status := Ready)).(ready := k.ready + [k.cur]);
    assert forall t :: t in k1.ready <==> t in k.ready || t == k.cur;
    assert Switchable(k1);
    j := if i == 0 then 0 else i - 1;
    if i == 0 {
      SwitchFirst(k1);
    } else {
      SwitchCloser(k1, i);
      assert k1.ready[..i] == k.ready[..i];
      SlicesSame(k, k1, [k.cur] + k.ready[..i]);
    }
  }

  lemma ContinueCloser(k: Kernel, i: nat) returns (j: nat)
    requires Core(k) && Enabled(k, Continue) && !Unblocks(k, Continue) && i < |k.ready|
    ensures Advance(k).Some? && (Advance(k).value.cur == k.ready[i] || Closer(k, Advance(k).value, i, j, 0))
  {
    CoreStep(k, Continue);
    assert k.cur !in k.ready;
    var l := k.Me().pc.l;
    if (k.Me().pc.Down? || k.Me().pc.DownLoop?) && k.locks[l].value == 0 {
      DownBlocks(k, l);
      j := StopCloser(k, Queued(k, l), i);
    } else {
      j := i;
      StayCloser(k, Advance(k).value, i, 0);
    }
  }

  // Bounded waiting: as long as nobody is unblocked, the thread at position i of the ready list runs
  // before WaitAt(k, i) clock interrupts have passed, whatever the threads ahead of it do.
  lemma {:induction false} BoundedWaiting(k: Kernel, es: seq<Event>, i: nat)
    requires Inv(k) && CanRun(k, es) && NoUnblocks(k, es) && i < |k.ready| && Timers(es) >= WaitAt(k, i)
    ensures Dispatched(k, es, k.ready[i])
    decreases |es|
  {
    if es != [] {
      var e := es[0];
      var j := StepCloser(k, e, i);
      StepKeeps(k, e);
      var k1 := Step(k, e).value;
      if k1.cur != k.ready[i] {
        BoundedWaiting(k1, es[1..], j);
      }
      assert k1.cur == k.ready[i] ==> Dispatched(k1, es[1..], k.ready[i]);
    }
  }

  ghost predicate TicksOk(k: Kernel) {
    forall t :: t in k.threads ==> k.threads[t].ticks <= k.threads[t].priority
  }

  lemma ScheduleTicks(k: Kernel)
    requires k.cur in k.threads && TicksOk(k) && Schedule(k).Some?
    ensures TicksOk(Schedule(k).value)
  {
  }

  lemma StepTicks(k: Kernel, e: Event)
    requires Enabled(k, e) && TicksOk(k) && Step(k, e).Some?
    ensures TicksOk(Step(k, e).value)
  {
    if e.Timer? {
      TickTicks(k);
    } else if e.Sleep? {
      ScheduleTicks(k.Goto(Asleep).With(k.cur, k.Goto(Asleep).Me().(status := e.stat)));
    } else if e.YieldCpu? {
      ScheduleTicks(k.With(k.cur, k.Me().(status := Ready)).(ready := k.ready + [k.cur]));
    } else if e.IdleLoop? {
      ScheduleTicks(k.With(k.cur, k.Me().(status := Blocked)));
    } else if e.Continue? {
      ContinueTicks(k);
    } else {
      CallTicks(k, e);
    }
  }

  lemma TickTicks(k: Kernel)
    requires k.Sane() && TicksOk(k) && Tick(k).Some?
    ensures TicksOk(Tick(k).value)
  {
    if k.Me().ticks == 0 {
      ScheduleTicks(k.With(k.cur, k.Me().(elapsed := k.Me().elapsed + 1)));
    }
  }

  lemma ContinueTicks(k: Kernel)
    requires Enabled(k, Continue) && TicksOk(k) && Advance(k).Some?
    ensures TicksOk(Advance(k).value)
  {
    var l := k.Me().pc.l;
    if (k.Me().pc.Down? || k.Me().pc.DownLoop?) && k.locks[l].value == 0 {
      DownBlocks(k, l);
      ScheduleTicks(Queued(k, l));
    }
  }

  lemma CallTicks(k: Kernel, e: Event)
    requires Enabled(k, e) && TicksOk(k) && Step(k, e).Some?
    requires e.Wake? || e.Acquire? || e.Release? || e.NewThread? || e.StartMore?
    ensures TicksOk(Step(k, e).value)
  {
  }

  // A time slice never exceeds the thread's priority, so the bound above is at most the sum of the
  // priorities plus one each.
  lemma {:induction false} TicksWithinPriority(k: Kernel, es: seq<Event>)
    requires TicksOk(k) && RunAll(k, es).Some?
    ensures TicksOk(RunAll(k, es).value)
    decreases |es|
  {
    if es != [] {
      StepTicks(k, es[0]);
      TicksWithinPriority(Step(k, es[0]).value, es[1..]);
    }
  }
}
