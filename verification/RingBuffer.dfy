/** The ring buffer of device/ioqueue.c. */
module RingBuffer {
  import opened Bits
  import opened RingWaiting

  const BUFSIZE: nat := 64

  function NextPos(pos: nat): nat { (pos + 1) % BUFSIZE }

  function Occupancy(head: nat, tail: nat): nat
    requires head < BUFSIZE && tail < BUFSIZE
  {
    if head >= tail then head - tail else head + BUFSIZE - tail
  }

  // what the cells from tail to head hold, oldest first
  function Cells(buf: seq<char>, head: nat, tail: nat): (r: seq<char>)
    requires |buf| == BUFSIZE && head < BUFSIZE && tail < BUFSIZE
    ensures |r| == Occupancy(head, tail) <= 63
  {
    if tail <= head then buf[tail..head] else buf[tail..] + buf[..head]
  }

  // writing the cell at head and moving head on appends, unless the buffer is full
  lemma PutCell(buf: seq<char>, head: nat, tail: nat, c: char)
    requires |buf| == BUFSIZE && head < BUFSIZE && tail < BUFSIZE && NextPos(head) != tail
    ensures Cells(buf[head := c], NextPos(head), tail) == Cells(buf, head, tail) + [c]
  {
    var after := buf[head := c];
    if tail > head {
      assert after[tail..] == buf[tail..] && after[..head + 1] == buf[..head] + [c];
    } else if head + 1 < BUFSIZE {
      assert after[tail..head + 1] == buf[tail..head] + [c];
    } else {
      assert after[tail..] == buf[tail..head] + [c];
    }
  }

  lemma NextPosValue(pos: nat)
    requires pos < BUFSIZE
    ensures NextPos(pos) == if pos + 1 == BUFSIZE then 0 else pos + 1
  {
  }

  lemma FirstOf<T>(s: seq<T>, lo: nat, hi: nat, rest: seq<T>)
    requires lo < hi <= |s|
    ensures s[lo..hi] + rest == [s[lo]] + (s[lo + 1..hi] + rest)
  {
  }

  // moving tail on takes the oldest byte, unless the buffer is empty
  lemma GetCell(buf: seq<char>, head: nat, tail: nat)
    requires |buf| == BUFSIZE && head < BUFSIZE && tail < BUFSIZE && head != tail
    ensures Cells(buf, head, tail) == [buf[tail]] + Cells(buf, head, NextPos(tail))
  {
    NextPosValue(tail);
    if tail < head {
      FirstOf(buf, tail, head, []);
      assert buf[tail..head] + [] == buf[tail..head] && buf[tail + 1..head] + [] == buf[tail + 1..head];
    } else {
      FirstOf(buf, tail, BUFSIZE, buf[..head]);
      assert buf[tail..] == buf[tail..BUFSIZE] && buf[tail + 1..] == buf[tail + 1..BUFSIZE];
      assert tail + 1 == BUFSIZE ==> buf[tail + 1..] + buf[..head] == buf[0..head];
    }
  }

  // Empty and full, as the source tests them.
  lemma FullAndEmpty(buf: seq<char>, head: nat, tail: nat)
    requires |buf| == BUFSIZE && head < BUFSIZE && tail < BUFSIZE
    ensures head == tail <==> Cells(buf, head, tail) == []
    ensures NextPos(head) == tail <==> |Cells(buf, head, tail)| == 63
  {
  }

  // How a turn of the loops of ioq_getchar and ioq_putchar ends: with the byte taken or stored, in
  // lock_acquire or ioq_wait, or with an assertion.
  datatype Outcome = Moved(c: char) | Waits | Panic

  class IoQueue {
    const buf: array<char>
    var head: nat
    var tail: nat
    var consumer: Option<Tid>
    var producer: Option<Tid>
    var lock: Option<Tid>               // the lock's holder
    var phase: map<Tid, Phase>          // where the threads that use the queue are
    ghost var put: seq<char>            // every byte ever stored
    ghost var got: seq<char>            // every byte ever taken

    ghost predicate Shape()
      reads this
    {
      buf.Length == BUFSIZE && head < BUFSIZE && tail < BUFSIZE
    }

    ghost function Contents(): seq<char>
      reads this, buf
      requires Shape()
    {
      Cells(buf[..], head, tail)
    }

    // the queue and its threads as a state of RingWaiting
    ghost function Now(): State
      reads this, buf
      requires Shape()
    {
      State(Contents(), put, got, consumer, producer, lock, phase)
    }

    // ioqueue_init
    constructor (threads: set<Tid>)
      ensures Shape() && fresh(buf) && Now() == Start(threads)
    {
      buf := new char[BUFSIZE];
      head, tail, consumer, producer, lock := 0, 0, None, None, None;
      put, got, phase := [], [], map t | t in threads :: Awake;
    }

    // ioq_wait, the caller having the lock
    method IoqWait(me: Tid, want: Want) returns (r: Outcome)
      requires Shape()
      modifies this`consumer, this`producer, this`lock, this`phase
      ensures r == if Wait(old(Now()), me, want) == None then Panic else Waits
      ensures r != Panic ==> Wait(old(Now()), me, want) == Some(Now())
    {
      if want.ToGet? {
        if consumer != None {
          return Panic;
        }
        consumer := Some(me);
      } else {
        if producer != None {
          return Panic;
        }
        producer := Some(me);
      }
      lock, phase := Some(me), phase[me := Asleep(want)];
      r := Waits;
    }

    // lock_acquire and ioq_wait, as far as they get at once
    method MustQueue(me: Tid, want: Want) returns (r: Outcome)
      requires Shape() && MustWait(Now(), want)
      modifies this`consumer, this`producer, this`lock, this`phase
      ensures r == if Turn(old(Now()), me, want) == None then Panic else Waits
      ensures r != Panic ==> Turn(old(Now()), me, want) == Some(Now())
    {
      if lock == None {
        r := IoqWait(me, want);
      } else {
        phase := phase[me := ForLock(want)];
        r := Waits;
      }
    }

    // a turn of the loop of ioq_getchar
    method GetTurn(me: Tid) returns (r: Outcome)
      requires Shape()
      modifies this
      ensures Shape() && (r.Panic? <==> Turn(old(Now()), me, ToGet) == None)
      ensures !r.Panic? ==> Turn(old(Now()), me, ToGet) == Some(Now())
      ensures !r.Panic? ==> r == if old(Contents()) == [] then Waits else Moved(old(Contents())[0])
    {
      FullAndEmpty(buf[..], head, tail);
      if head == tail {
        r := MustQueue(me, ToGet);
        return;
      }
      GetCell(buf[..], head, tail);
      var byte := buf[tail];
      tail := NextPos(tail);
      got, phase := got + [byte], phase[me := Awake];
      if producer != None {
        if Unblock(phase, producer.value) == None {  // thread_unblock's assertion
          return Panic;
        }
        phase := Unblock(phase, producer.value).value;
        producer := None;
      }
      r := Moved(byte);
    }

    // a turn of the loop of ioq_putchar
    method PutTurn(me: Tid, c: char) returns (r: Outcome)
      requires Shape()
      modifies this, buf
      ensures Shape() && (r.Panic? <==> Turn(old(Now()), me, ToPut(c)) == None)
      ensures !r.Panic? ==> Turn(old(Now()), me, ToPut(c)) == Some(Now())
      ensures !r.Panic? ==> r == if |old(Contents())| == 63 then Waits else Moved(c)
    {
      FullAndEmpty(buf[..], head, tail);
      if NextPos(head) == tail {
        r := MustQueue(me, ToPut(c));
        return;
      }
      phase := phase[me := Awake];
      var stored := StoreByte(c);
      r := if stored then Moved(c) else Panic;
    }

    // ioq_putchar behind its loop
    method StoreByte(c: char) returns (ok: bool)
      requires Shape() && |Contents()| < 63
      modifies this, buf
      ensures Shape() && ok == Store(old(Now()), c).Some?
      ensures ok ==> Store(old(Now()), c) == Some(Now())
    {
      FullAndEmpty(buf[..], head, tail);
      PutCell(buf[..], head, tail, c);
      ghost var after := buf[..][head := c];
      buf[head] := c;
      assert buf[..] == after;
      head, put := NextPos(head), put + [c];
      if consumer != None {
        if Unblock(phase, consumer.value) == None {  // thread_unblock's assertion
          return false;
        }
        phase := Unblock(phase, consumer.value).value;
        consumer := None;
      }
      ok := true;
    }

    // a thread woken in ioq_wait releases the lock and goes back to the head of its loop
    method Resume(me: Tid) returns (r: Outcome)
      requires Shape() && Enabled(Now(), Event.Resume(me))
      modifies this, buf
      ensures Shape() && (r.Panic? <==> Step(old(Now()), Event.Resume(me)) == None)
      ensures !r.Panic? ==> Step(old(Now()), Event.Resume(me)) == Some(Now())
    {
      var want := phase[me].want;
      lock := None;
      if want.ToGet? {
        r := GetTurn(me);
      } else {
        r := PutTurn(me, want.c);
      }
    }

    // the keyboard handler: a byte that does not fit is dropped, and the handler never sleeps
    method KeyboardPut(c: char) returns (ok: bool)
      requires Shape()
      modifies this, buf
      ensures Shape() && ok == Step(old(Now()), Key(c)).Some?
      ensures ok ==> Step(old(Now()), Key(c)) == Some(Now())
    {
      FullAndEmpty(buf[..], head, tail);
      ok := true;
      if NextPos(head) != tail {
        ok := StoreByte(c);
      }
    }
  }
}
