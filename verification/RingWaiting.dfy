/** Threads at the ring buffer of device/ioqueue.c, any number of consumers and producers, and the keyboard.
    A thread tests the buffer, takes the queue's lock if it has to wait, and sleeps in ioq_wait holding it,
    without testing again in between.  Interrupts are off from the test to the sleep, so that is one step. */
module RingWaiting {
  import opened Bits

  type Tid = nat

  const CAPACITY: nat := 63

  // what a call waits to do: ioq_getchar, or ioq_putchar of a byte
  datatype Want = ToGet | ToPut(c: char)

  datatype Phase =
    | Awake                // in no call
    | ForLock(want: Want)  // in lock_acquire, the lock being held
    | Asleep(want: Want)   // in ioq_wait, holding the lock
    | Woken(want: Want)    // unblocked in ioq_wait, still holding the lock

  // the buffered bytes, every byte ever stored and ever taken, the registered sleepers, the lock's holder
  datatype State = State(data: seq<char>, put: seq<char>, got: seq<char>,
                         consumer: Option<Tid>, producer: Option<Tid>, lock: Option<Tid>, phase: map<Tid, Phase>)

  datatype Event =
    | Call(t: Tid, want: Want)  // ioq_getchar or ioq_putchar up to its return or its first wait
    | GetLock(t: Tid)           // lock_acquire returns to a thread that had to wait for it
    | Resume(t: Tid)            // a woken thread releases the lock and tests again
    | Key(c: char)              // the keyboard handler, which drops a byte that does not fit

  predicate Enabled(s: State, e: Event) {
    match e
    case Call(t, _) => t in s.phase && s.phase[t].Awake?
    case GetLock(t) => t in s.phase && s.phase[t].ForLock? && s.lock == None
    case Resume(t) => t in s.phase && s.phase[t].Woken?
    case Key(_) => true
  }

  predicate MustWait(s: State, want: Want) {
    if want.ToGet? then s.data == [] else |s.data| >= CAPACITY
  }

  // ioq_wait by the lock's new holder; None is its assertion that nobody is registered
  function Wait(s: State, t: Tid, want: Want): Option<State> {
    if want.ToGet? then
      if s.consumer != None then None
      else Some(s.(consumer := Some(t), lock := Some(t), phase := s.phase[t := Asleep(want)]))
    else
      if s.producer != None then None
      else Some(s.(producer := Some(t), lock := Some(t), phase := s.phase[t := Asleep(want)]))
  }

  // thread_unblock of a sleeper; None is its assertion that the thread is blocked
  function Unblock(phase: map<Tid, Phase>, t: Tid): Option<map<Tid, Phase>> {
    if t in phase && phase[t].Asleep? then Some(phase[t := Woken(phase[t].want)]) else None
  }

  // storing a byte, and taking one, with the wake-up of the other side
  function Store(s: State, c: char): Option<State> {
    var s1 := s.(data := s.data + [c], put := s.put + [c]);
    if s.consumer == None then Some(s1)
    else
      match Unblock(s.phase, s.consumer.value)
      case None => None
      case Some(phase) => Some(s1.(consumer := None, phase := phase))
  }

  function Take(s: State): Option<State>
    requires s.data != []
  {
    var s1 := s.(data := s.data[1..], got := s.got + [s.data[0]]);
    if s.producer == None then Some(s1)
    else
      match Unblock(s.phase, s.producer.value)
      case None => None
      case Some(phase) => Some(s1.(producer := None, phase := phase))
  }

  // from the test at the head of the loop up to the return or the wait
  function Turn(s: State, t: Tid, want: Want): Option<State> {
    if MustWait(s, want) then
      if s.lock == None then Wait(s, t, want) else Some(s.(phase := s.phase[t := ForLock(want)]))
    else
      var s1 := s.(phase := s.phase[t := Awake]);
      if want.ToGet? then Take(s1) else Store(s1, want.c)
  }

  // None is an assertion
  function Step(s: State, e: Event): Option<State>
    requires Enabled(s, e)
  {
    match e
    case Call(t, want) => Turn(s, t, want)
    case GetLock(t) => Wait(s, t, s.phase[t].want)
    case Resume(t) => Turn(s.(lock := None), t, s.phase[t].want)
    case Key(c) => if |s.data| >= CAPACITY then Some(s) else Store(s, c)
  }

  predicate CanRun(s: State, es: seq<Event>)
    decreases |es|
  {
    es == [] || (Enabled(s, es[0]) && (Step(s, es[0]).Some? ==> CanRun(Step(s, es[0]).value, es[1..])))
  }

  function RunAll(s: State, es: seq<Event>): Option<State>
    requires CanRun(s, es)
    decreases |es|
  {
    if es == [] then Some(s)
    else match Step(s, es[0]) case None => None case Some(s1) => RunAll(s1, es[1..])
  }

  // ---------- what every step keeps ----------

  // The history: what was stored is what was taken, followed by what is buffered.
  predicate History(s: State) {
    s.put == s.got + s.data && |s.data| <= CAPACITY
  }

  // a sleeper or a woken thread holds the lock, and exactly the sleeper is registered
  predicate PlaceOk(s: State, t: Tid) {
    && (s.lock == Some(t) <==> t in s.phase && (s.phase[t].Asleep? || s.phase[t].Woken?))
    && (s.consumer == Some(t) <==> t in s.phase && s.phase[t] == Asleep(ToGet))
    && (s.producer == Some(t) <==> t in s.phase && s.phase[t].Asleep? && s.phase[t].want.ToPut?)
  }

  ghost predicate Inv(s: State) {
    History(s) && forall t {:trigger PlaceOk(s, t)} :: PlaceOk(s, t)
  }

  // Nobody but one thread is registered, on either side.
  lemma OneSleeper(s: State, t: Tid, u: Tid)
    requires Inv(s) && (s.consumer == Some(t) || s.producer == Some(t)) && (s.consumer == Some(u) || s.producer == Some(u))
    ensures t == u && (s.consumer == None || s.producer == None)
  {
    assert PlaceOk(s, t) && PlaceOk(s, u);
    assert s.consumer.Some? ==> PlaceOk(s, s.consumer.value);
    assert s.producer.Some? ==> PlaceOk(s, s.producer.value);
  }

  lemma WaitKeeps(s: State, t: Tid, want: Want)
    requires Inv(s) && s.lock == None
    ensures Wait(s, t, want).Some? && Inv(Wait(s, t, want).value)
  {
    assert s.consumer.Some? ==> PlaceOk(s, s.consumer.value);
    assert s.producer.Some? ==> PlaceOk(s, s.producer.value);
    var s1 := Wait(s, t, want).value;
    forall u
      ensures PlaceOk(s1, u)
    {
      assert PlaceOk(s, u);
    }
  }

  lemma StoreKeeps(s: State, c: char)
    requires Inv(s) && |s.data| < CAPACITY
    ensures Store(s, c).Some? && Inv(Store(s, c).value)
  {
    assert s.consumer.Some? ==> PlaceOk(s, s.consumer.value);
    var s1 := Store(s, c).value;
    forall u
      ensures PlaceOk(s1, u)
    {
      assert PlaceOk(s, u);
    }
  }

  lemma TakeKeeps(s: State)
    requires Inv(s) && s.data != []
    ensures Take(s).Some? && Inv(Take(s).value)
  {
    assert s.producer.Some? ==> PlaceOk(s, s.producer.value);
    var s1 := Take(s).value;
    assert s.got + s.data == s1.got + s1.data;
    forall u
      ensures PlaceOk(s1, u)
    {
      assert PlaceOk(s, u);
    }
  }

  // a thread that holds nothing changes between being in no call and queueing for the lock
  lemma PhaseKeeps(s: State, t: Tid, p: Phase)
    requires Inv(s) && s.lock != Some(t) && (p.Awake? || p.ForLock?)
    ensures Inv(s.(phase := s.phase[t := p]))
  {
    var s1 := s.(phase := s.phase[t := p]);
    forall u
      ensures PlaceOk(s1, u)
    {
      assert PlaceOk(s, u) && PlaceOk(s, t);
    }
  }

  lemma TurnKeeps(s: State, t: Tid, want: Want)
    requires Inv(s) && s.lock != Some(t)
    ensures Turn(s, t, want).Some? && Inv(Turn(s, t, want).value)
  {
    if MustWait(s, want) {
      if s.lock == None {
        WaitKeeps(s, t, want);
      } else {
        PhaseKeeps(s, t, ForLock(want));
      }
    } else {
      PhaseKeeps(s, t, Awake);
      var s1 := s.(phase := s.phase[t := Awake]);
      if want.ToGet? {
        TakeKeeps(s1);
      } else {
        StoreKeeps(s1, want.c);
      }
    }
  }

  // a woken thread gives the lock back
  lemma ReleaseKeeps(s: State, t: Tid)
    requires Inv(s) && t in s.phase && s.phase[t].Woken?
    ensures Inv(s.(lock := None, phase := s.phase[t := Awake]))
  {
    var s1 := s.(lock := None, phase := s.phase[t := Awake]);
    forall u
      ensures PlaceOk(s1, u)
    {
      assert PlaceOk(s, u) && PlaceOk(s, t);
    }
  }

  // Whatever thread or handler moves next, no assertion of ioq_wait or thread_unblock fires, the history
  // law holds after, and the one sleeper there may be is the lock's holder.
  lemma StepKeeps(s: State, e: Event)
    requires Inv(s) && Enabled(s, e)
    ensures Step(s, e).Some? && Inv(Step(s, e).value)
  {
    match e
    case Call(t, want) =>
      assert PlaceOk(s, t);
      TurnKeeps(s, t, want);
    case GetLock(t) =>
      WaitKeeps(s, t, s.phase[t].want);
    case Resume(t) =>
      ReleaseKeeps(s, t);
      var s1 := s.(lock := None, phase := s.phase[t := Awake]);
      TurnKeeps(s1, t, s.phase[t].want);
      SameTurn(s.(lock := None), t, s.phase[t].want);
    case Key(c) =>
      if |s.data| < CAPACITY {
        StoreKeeps(s, c);
      }
  }

  // the turn overwrites the caller's phase
  lemma SameTurn(s: State, t: Tid, want: Want)
    ensures Turn(s.(phase := s.phase[t := Awake]), t, want) == Turn(s, t, want)
  {
    assert s.phase[t := Awake][t := Awake] == s.phase[t := Awake];
    assert s.phase[t := Awake][t := ForLock(want)] == s.phase[t := ForLock(want)];
    assert s.phase[t := Awake][t := Asleep(want)] == s.phase[t := Asleep(want)];
  }

  // Over every run of any number of consumers and producers.
  lemma {:induction false} RunsKeep(s: State, es: seq<Event>)
    requires Inv(s) && CanRun(s, es)
    ensures RunAll(s, es).Some? && Inv(RunAll(s, es).value)
    decreases |es|
  {
    if es != [] {
      StepKeeps(s, es[0]);
      RunsKeep(Step(s, es[0]).value, es[1..]);
    }
  }

  // the queue as ioqueue_init leaves it, its threads in no call
  function Start(threads: set<Tid>): State {
    State([], [], [], None, None, None, map t | t in threads :: Awake)
  }

  lemma StartOk(threads: set<Tid>)
    ensures Inv(Start(threads))
  {
    forall t
      ensures PlaceOk(Start(threads), t)
    {
    }
  }

  // ---------- who sleeps for nothing ----------

  // a registered sleeper has to wait: the consumer for a byte, the producer for room
  predicate Prompt(s: State) {
    (s.consumer.Some? ==> MustWait(s, ToGet)) && (s.producer.Some? ==> |s.data| >= CAPACITY)
  }

  // A step makes a thread sleep for nothing exactly when it gives the lock to one whose reason to wait has
  // gone while it queued.
  lemma StepPrompt(s: State, e: Event)
    requires Inv(s) && Enabled(s, e) && Prompt(s)
    ensures Step(s, e).Some?
    ensures Prompt(Step(s, e).value) <==> !(e.GetLock? && !MustWait(s, s.phase[e.t].want))
  {
    StepKeeps(s, e);
    assert s.consumer.Some? ==> PlaceOk(s, s.consumer.value);
    assert s.producer.Some? ==> PlaceOk(s, s.producer.value);
    if e.Resume? {
      assert PlaceOk(s, e.t);
    }
  }

  // A single thread never queues for the lock, so beside the keyboard alone it sleeps only with reason.
  lemma {:induction false} OneThreadPrompt(s: State, es: seq<Event>, t: Tid)
    requires Inv(s) && Prompt(s) && s.phase.Keys == {t} && !s.phase[t].ForLock? && CanRun(s, es)
    ensures RunAll(s, es).Some? && Prompt(RunAll(s, es).value)
    decreases |es|
  {
    if es != [] {
      assert t in s.phase;
      StepPrompt(s, es[0]);
      StepKeeps(s, es[0]);
      var s1 := Step(s, es[0]).value;
      OneThreadStep(s, es[0], t);
      OneThreadPrompt(s1, es[1..], t);
    }
  }

  lemma OneThreadStep(s: State, e: Event, t: Tid)
    requires Inv(s) && s.phase.Keys == {t} && !s.phase[t].ForLock? && Enabled(s, e) && Step(s, e).Some?
    ensures Step(s, e).value.phase.Keys == {t} && !Step(s, e).value.phase[t].ForLock?
  {
    assert t in s.phase && PlaceOk(s, t);
    assert s.lock.Some? ==> PlaceOk(s, s.lock.value);
    assert s.consumer.Some? ==> PlaceOk(s, s.consumer.value);
    assert s.producer.Some? ==> PlaceOk(s, s.producer.value);
  }

  // With two consumers one can: both wait, two keys arrive, the first takes a byte and gives the lock back,
  // and the second goes to sleep beside the other byte.
  lemma TwoConsumersSleepOnData() returns (es: seq<Event>, s: State)
    ensures CanRun(Start({0, 1}), es) && RunAll(Start({0, 1}), es) == Some(s)
    ensures s.consumer == Some(1) && |s.data| == 1
  {
    var s0 := Start({0, 1});
    var s1 := Step(s0, Call(0, ToGet)).value;
    var s2 := Step(s1, Call(1, ToGet)).value;
    var s3 := Step(s2, Key('a')).value;
    var s4 := Step(s3, Key('b')).value;
    var s5 := Step(s4, Resume(0)).value;
    s := Step(s5, GetLock(1)).value;
    OneStep(s5, GetLock(1), s);
    es := [GetLock(1)];
    es := Prepend(s4, Resume(0), s5, es);
    es := Prepend(s3, Key('b'), s4, es);
    es := Prepend(s2, Key('a'), s3, es);
    es := Prepend(s1, Call(1, ToGet), s2, es);
    es := Prepend(s0, Call(0, ToGet), s1, es);
  }

  lemma Prepend(s: State, e: Event, s1: State, es: seq<Event>) returns (all: seq<Event>)
    requires Enabled(s, e) && Step(s, e) == Some(s1) && CanRun(s1, es)
    ensures all == [e] + es && CanRun(s, all) && RunAll(s, all) == RunAll(s1, es)
  {
    all := [e] + es;
    assert all[1..] == es;
  }

  // ---------- nobody can move ----------

  // a producer sleeps, and every other thread queues for the lock it holds
  predicate Dead(s: State) {
    && s.producer.Some? && s.producer.value in s.phase && s.phase[s.producer.value].Asleep?
    && forall t :: t in s.phase && t != s.producer.value ==> s.phase[t].ForLock?
  }

  // From there no thread ever moves again, whatever keys are typed.
  lemma {:induction false} DeadForever(s: State, es: seq<Event>)
    requires Inv(s) && Dead(s) && CanRun(s, es)
    ensures forall i :: 0 <= i < |es| ==> es[i].Key?
    ensures RunAll(s, es).Some? && Dead(RunAll(s, es).value)
    decreases |es|
  {
    if es != [] {
      assert PlaceOk(s, s.producer.value);
      assert s.consumer.Some? ==> PlaceOk(s, s.consumer.value);
      StepKeeps(s, es[0]);
      DeadForever(Step(s, es[0]).value, es[1..]);
    }
  }

  lemma OneStep(s: State, e: Event, s1: State)
    requires Enabled(s, e) && Step(s, e) == Some(s1)
    ensures CanRun(s, [e]) && RunAll(s, [e]) == Some(s1)
  {
    assert [e][1..] == [];
  }

  lemma {:induction false} RunOn(s: State, es: seq<Event>, s1: State, fs: seq<Event>)
    requires CanRun(s, es) && RunAll(s, es) == Some(s1) && CanRun(s1, fs)
    ensures CanRun(s, es + fs) && RunAll(s, es + fs) == RunAll(s1, fs)
    decreases |es|
  {
    if es == [] {
      assert es + fs == fs;
    } else {
      RunOn(Step(s, es[0]).value, es[1..], s1, fs);
      assert (es + fs)[1..] == es[1..] + fs;
    }
  }

  // a thread fills the buffer while nobody is registered
  lemma {:induction false} Fill(s: State, t: Tid, k: nat) returns (es: seq<Event>, s1: State)
    requires s.consumer == None && t in s.phase && s.phase[t].Awake? && |s.data| + k <= CAPACITY
    ensures CanRun(s, es) && RunAll(s, es) == Some(s1)
    ensures s1 == s.(data := s1.data, put := s1.put) && |s1.data| == |s.data| + k
    decreases k
  {
    if k == 0 {
      es, s1 := [], s;
    } else {
      var e := Call(t, ToPut('a'));
      var s0 := s.(data := s.data + ['a'], put := s.put + ['a']);
      assert s.phase[t := Awake] == s.phase;
      OneStep(s, e, s0);
      es, s1 := Fill(s0, t, k - 1);
      RunOn(s, [e], s0, es);
      es := [e] + es;
    }
  }

  // ... or takes all of it
  lemma {:induction false} Drain(s: State, t: Tid) returns (es: seq<Event>, s1: State)
    requires s.producer == None && t in s.phase && s.phase[t].Awake?
    ensures CanRun(s, es) && RunAll(s, es) == Some(s1) && s1 == s.(data := [], got := s1.got)
    decreases |s.data|
  {
    if s.data == [] {
      es, s1 := [], s;
    } else {
      var e := Call(t, ToGet);
      var s0 := s.(data := s.data[1..], got := s.got + [s.data[0]]);
      assert s.phase[t := Awake] == s.phase;
      OneStep(s, e, s0);
      es, s1 := Drain(s0, t);
      RunOn(s, [e], s0, es);
      es := [e] + es;
    }
  }

  // One consumer and one producer can get there: the consumer sleeps on the empty buffer, the producer
  // wakes it, fills the buffer and queues for the lock the consumer still holds; the consumer gives the
  // lock back and empties the buffer, the producer takes the lock and sleeps, the consumer queues for it.
  lemma Deadlock() returns (es: seq<Event>, s: State)
    ensures CanRun(Start({0, 1}), es) && RunAll(Start({0, 1}), es) == Some(s)
    ensures Dead(s) && s.data == [] && s.phase.Keys == {0, 1}
  {
    var s0 := Start({0, 1});
    var x, y := Call(0, ToGet), Call(1, ToPut('a'));
    var s1, s2 := Step(s0, x).value, Step(Step(s0, x).value, y).value;
    OneStep(s0, x, s1);
    OneStep(s1, y, s2);
    RunOn(s0, [x], s1, [y]);
    var fill, s3 := Fill(s2, 1, 62);
    RunOn(s0, [x] + [y], s2, fill);
    es := [x] + [y] + fill;
    es, s := DeadlockRest(s0, es, s3);
  }

  lemma DeadlockRest(s0: State, begun: seq<Event>, s3: State) returns (es: seq<Event>, s: State)
    requires CanRun(s0, begun) && RunAll(s0, begun) == Some(s3) && |s3.data| == CAPACITY
    requires s3.consumer == s3.producer == None && s3.lock == Some(0) && s3.phase == map[0 := Woken(ToGet), 1 := Awake]
    ensures CanRun(s0, es) && RunAll(s0, es) == Some(s) && Dead(s) && s.data == [] && s.phase.Keys == {0, 1}
  {
    var x, y, z := Call(1, ToPut('a')), Resume(0), GetLock(1);
    var s4 := Step(s3, x).value;
    var s5 := Step(s4, y).value;
    OneStep(s3, x, s4);
    OneStep(s4, y, s5);
    RunOn(s0, begun, s3, [x]);
    RunOn(s0, begun + [x], s4, [y]);
    var drain, s6 := Drain(s5, 0);
    RunOn(s0, begun + [x] + [y], s5, drain);
    var s7 := Step(s6, z).value;
    OneStep(s6, z, s7);
    RunOn(s0, begun + [x] + [y] + drain, s6, [z]);
    s := Step(s7, Call(0, ToGet)).value;
    OneStep(s7, Call(0, ToGet), s);
    RunOn(s0, begun + [x] + [y] + drain + [z], s7, [Call(0, ToGet)]);
    es := begun + [x] + [y] + drain + [z] + [Call(0, ToGet)];
  }
}
