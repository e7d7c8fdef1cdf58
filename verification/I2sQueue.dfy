/**
 * An I2S channel: `n` DMA buffers linked into a ring, and a message queue of
 * `n - 1` slots through which the interrupt hands finished buffers to the task
 * that reads or refills them.  When the queue is full the interrupt drops the
 * oldest entry first.
 *
 * The steps below are those that another core can see separately: a completion
 * by the hardware, the three queue operations of the interrupt handler, the
 * queue operations of the task, and enabling and disabling the channel.
 */
module I2sQueue {
  import opened Arith
  import opened Common

  // ----- the descriptor ring -----------------------------------------------------

  /** The descriptor behind i. */
  function Succ(i: nat, n: nat): (j: nat)
    requires i < n
    ensures j < n
  {
    if i < n - 1 then i + 1 else 0
  }

  /** The descriptor k behind i. */
  function Ahead(i: nat, k: nat, n: nat): (j: nat)
    requires i < n
    ensures j < n
  {
    if k == 0 then i else Succ(Ahead(i, k - 1, n), n)
  }

  /** Linking as the program does it. */
  method LinkRing(n: nat) returns (next: array<nat>)
    ensures next.Length == n
    ensures forall i :: 0 <= i < n ==> next[i] == Succ(i, n)
  {
    next := new nat[n](_ => 0);
    for i := 0 to n
      invariant forall j :: 0 <= j < i ==> next[j] == Succ(j, n)
    {
      next[i] := if i < n - 1 then i + 1 else 0;
    }
  }

  lemma {:induction false} AheadIs(i: nat, k: nat, n: nat)
    requires i < n && k < n
    ensures Ahead(i, k, n) == if i + k < n then i + k else i + k - n
  {
    if k > 0 {
      AheadIs(i, k - 1, n);
    }
  }

  /** Following the links visits every descriptor once and comes back. */
  lemma RingVisitsAll(i: nat, j: nat, n: nat)
    requires i < n && j < n
    ensures exists k :: 0 <= k < n && Ahead(i, k, n) == j
    ensures forall k, l :: 0 <= k < n && 0 <= l < n && Ahead(i, k, n) == Ahead(i, l, n) ==> k == l
    ensures Ahead(i, n, n) == i
  {
    var k := if i <= j then j - i else j + n - i;
    AheadIs(i, k, n);
    forall k, l | 0 <= k < n && 0 <= l < n && Ahead(i, k, n) == Ahead(i, l, n) ensures k == l {
      AheadIs(i, k, n);
      AheadIs(i, l, n);
    }
    AheadIs(i, n - 1, n);
  }

  // ----- the channel ---------------------------------------------------------------

  datatype Phase = Stopped | Starting | Running

  /** Where the interrupt handler is between its queue operations. */
  datatype Isr = Idle | Drop | Send

  datatype Chan = Chan(
    n: nat,               // number of DMA buffers
    tx: bool,
    phase: Phase,
    queue: seq<nat>,      // the message queue, oldest first
    next: nat,            // the buffer whose completion is reported next
    unreported: nat,      // completions the interrupt handler has not dealt with
    isr: Isr,
    cur: Option<nat>,     // the buffer the task is reading or filling
    first: nat,           // the first buffer of this session
    gone: seq<bool>)      // what became of those that left the queue: taken, or dropped

  datatype Event =
    | PreloadFirst   // first preload: queue all buffers but the first, work on the first
    | PreloadNext    // preload goes on to the next buffer
    | Enable
    | ResetQueue     // second half of enabling a receiver
    | Complete       // the DMA finishes the buffer it is on and goes on to the next
    | IsrCheck       // interrupt: look whether the queue is full
    | IsrDrop        // interrupt: take the oldest entry out
    | IsrSend        // interrupt: queue the finished buffer
    | Receive        // task: take the next buffer
    | Disable

  function Fresh(n: nat, tx: bool): Chan {
    Chan(n, tx, Stopped, [], 0, 0, Idle, None, 0, [])
  }

  /** The buffers 1, 2, ..., n-1. */
  function AllButFirst(n: nat): (q: seq<nat>)
    requires n > 0
    ensures |q| == n - 1 && forall i :: 0 <= i < |q| ==> q[i] == i + 1
  {
    seq(n - 1, i requires 0 <= i => i + 1)
  }

  function Step(c: Chan, e: Event): Option<Chan>
    requires c.n >= 2 && c.next < c.n
  {
    match e
    case PreloadFirst =>
      if c.tx && c.phase == Stopped && c.cur == None
      then Some(c.(queue := AllButFirst(c.n), cur := Some(0), gone := [true])) else None
    case PreloadNext =>
      if c.tx && c.phase == Stopped && c.cur != None && c.queue != []
      then Some(c.(cur := Some(c.queue[0]), queue := c.queue[1..], gone := c.gone + [true])) else None
    case Enable =>
      if c.phase == Stopped
      then Some(c.(phase := if c.tx then Running else Starting, next := 0, unreported := 0)) else None
    case ResetQueue =>
      if c.phase == Starting
      then Some(c.(phase := Running, queue := [], first := c.next, gone := [])) else None
    case Complete => if c.phase != Stopped then Some(c.(unreported := c.unreported + 1)) else None
    case IsrCheck =>
      if c.phase != Stopped && c.isr == Idle && c.unreported > 0
      then Some(c.(isr := if |c.queue| == c.n - 1 then Drop else Send)) else None
    case IsrDrop =>
      if c.isr != Drop then None
      else if c.queue == [] then Some(c.(isr := Send))
      else Some(c.(isr := Send, queue := c.queue[1..], gone := c.gone + [false]))
    case IsrSend =>
      // a send to a full queue would be refused and the buffer lost
      if c.isr == Send && c.unreported > 0
      then Some(c.(isr := Idle,
                   queue := if |c.queue| < c.n - 1 then c.queue + [c.next] else c.queue,
                   next := Succ(c.next, c.n),
                   unreported := c.unreported - 1))
      else None
    case Receive =>
      if c.phase == Running && c.queue != []
      then Some(c.(cur := Some(c.queue[0]), queue := c.queue[1..], gone := c.gone + [true])) else None
    case Disable =>
      if c.phase == Running && c.isr == Idle
      then Some(c.(phase := Stopped, cur := None, unreported := 0, next := 0, first := 0, gone := [],
                   queue := if c.tx then [] else c.queue)) else None
  }

  function Run(c: Chan, events: seq<Event>): Option<Chan>
    requires c.n >= 2 && c.next < c.n
    decreases |events|
  {
    if events == [] then Some(c)
    else
      match Step(c, events[0])
      case None => None
      case Some(c') => Run(c', events[1..])
  }

  // ----- what every run keeps --------------------------------------------------------

  /** The queue is the arc of the ring that ends just behind `next`. */
  predicate IsArc(queue: seq<nat>, next: nat, n: nat)
    requires next < n
  {
    && |queue| <= n - 1
    && forall i :: 0 <= i < |queue| ==>
                     queue[i] == if i + next < |queue| then i + next + n - |queue| else i + next - |queue|
  }

  predicate Inv(c: Chan) {
    && c.n >= 2
    && c.next < c.n
    && |c.queue| <= c.n - 1
    && (c.isr == Send ==> |c.queue| <= c.n - 2)
    && (c.isr != Idle ==> c.phase != Stopped && c.unreported > 0)
    && (c.phase == Stopped ==> c.next == 0 && c.unreported == 0)
    && (c.phase == Running || (c.phase == Stopped && c.tx) ==> IsArc(c.queue, c.next, c.n))
    && (c.phase == Stopped && c.tx && c.cur == None ==> c.queue == [] && c.gone == [])
    && (c.phase == Running || (c.phase == Stopped && c.tx) ==> InOrder(c))
    && (c.phase == Starting ==> c.cur == None)
    && (c.phase == Stopped ==> c.first == 0 && (c.cur.Some? ==> c.tx))
  }

  /** The last buffer to be taken rather than dropped, counted from 0. */
  function LastTaken(gone: seq<bool>): (k: int)
    ensures -1 <= k < |gone|
    ensures k >= 0 ==> gone[k] && forall j :: k < j < |gone| ==> !gone[j]
    ensures k == -1 ==> forall j :: 0 <= j < |gone| ==> !gone[j]
  {
    if gone == [] then -1
    else if gone[|gone| - 1] then |gone| - 1
    else LastTaken(gone[..|gone| - 1])
  }

  /**
   * Buffers pass through the queue in ring order without a gap: number k of the session is the
   * buffer k places behind the first; those that left come first, then those queued, then the next to
   * be reported; and the task works on the last one it took.
   */
  predicate InOrder(c: Chan)
    requires c.next < c.n
  {
    && c.first < c.n
    && (forall i :: 0 <= i < |c.queue| ==> c.queue[i] == Ahead(c.first, |c.gone| + i, c.n))
    && c.next == Ahead(c.first, |c.gone| + |c.queue|, c.n)
    && (c.cur.Some? ==> LastTaken(c.gone) >= 0 && c.cur.value == Ahead(c.first, LastTaken(c.gone), c.n))
  }

  lemma TakenNow(gone: seq<bool>, taken: bool)
    ensures LastTaken(gone + [taken]) == if taken then |gone| else LastTaken(gone)
  {
    assert (gone + [taken])[..|gone|] == gone;
  }

  /** The oldest entry leaves the queue, to the task or for good. */
  lemma LeaveInOrder(c: Chan, taken: bool, c': Chan)
    requires c.next < c.n && InOrder(c) && c.queue != []
    requires c'.n == c.n && c'.first == c.first && c'.next == c.next
    requires c'.queue == c.queue[1..] && c'.gone == c.gone + [taken]
    requires c'.cur == if taken then Some(c.queue[0]) else c.cur
    ensures InOrder(c')
  {
    hide Ahead, LastTaken;
    TakenNow(c.gone, taken);
    assert c.queue[0] == Ahead(c.first, |c.gone| + 0, c.n);
  }

  /** A finished buffer joins the queue. */
  lemma SendInOrder(c: Chan, c': Chan)
    requires c.next < c.n && InOrder(c)
    requires c'.n == c.n && c'.first == c.first && c'.gone == c.gone && c'.cur == c.cur
    requires c'.queue == c.queue + [c.next] && c'.next == Succ(c.next, c.n)
    ensures InOrder(c')
  {
    hide LastTaken;
  }

  lemma PreloadInOrder(c: Chan, c': Chan)
    requires c.n >= 2 && c'.n == c.n && c'.first == 0 && c'.next == 0 && c'.gone == [true]
    requires c'.queue == AllButFirst(c.n) && c'.cur == Some(0)
    ensures InOrder(c')
  {
    hide LastTaken;
    TakenNow([], true);
    assert [] + [true] == [true];
    forall i | 0 <= i < c.n ensures Ahead(0, i, c.n) == i {
      AheadIs(0, i, c.n);
    }
    assert Ahead(0, c.n, c.n) == Succ(Ahead(0, c.n - 1, c.n), c.n);
  }

  lemma StepInOrder(c: Chan, e: Event)
    requires Inv(c) && Step(c, e).Some?
    ensures var c' := Step(c, e).value;
            c'.phase == Running || (c'.phase == Stopped && c'.tx) ==> c'.next < c'.n && InOrder(c')
  {
    hide IsArc, LastTaken, Ahead;
    var c' := Step(c, e).value;
    if c.phase == Running || (c.phase == Stopped && c.tx) {
      match e
      case PreloadFirst => PreloadInOrder(c, c');
      case PreloadNext => LeaveInOrder(c, true, c');
      case Receive => LeaveInOrder(c, true, c');
      case IsrDrop =>
        if c.queue != [] {
          LeaveInOrder(c, false, c');
        }
      case IsrSend => SendInOrder(c, c');
      case Disable => Nothing(c');
      case _ =>
    } else if e == ResetQueue {
      Nothing(c');
    }
  }

  /** A session in which no buffer has come up yet. */
  lemma Nothing(c: Chan)
    requires c.next < c.n
    ensures c.first == c.next && c.queue == [] && c.gone == [] && c.cur == None ==> InOrder(c)
  {
  }

  lemma StepInv(c: Chan, e: Event)
    requires Inv(c) && Step(c, e).Some?
    ensures Inv(Step(c, e).value) && Step(c, e).value.n == c.n
  {
    hide InOrder, LastTaken;
    StepInOrder(c, e);
  }

  lemma {:induction false} RunInv(c: Chan, events: seq<Event>)
    requires Inv(c) && Run(c, events).Some?
    ensures Inv(Run(c, events).value) && Run(c, events).value.n == c.n
    decreases |events|
  {
    hide IsArc, InOrder, Step;
    if events != [] {
      StepInv(c, events[0]);
      RunInv(Step(c, events[0]).value, events[1..]);
    }
  }

  /** The interrupt goes on to drop a buffer only from a full queue. */
  lemma DropsOnlyWhenFull(c: Chan, e: Event)
    requires Inv(c) && Step(c, e).Some? && Step(c, e).value.isr == Drop && c.isr != Drop
    ensures e == IsrCheck && |c.queue| == c.n - 1
  {
  }

  /**
   * The interrupt always gets through.  Of a completion it has to deal with, in its three steps or two:
   * the oldest buffer is dropped if the queue is full, and the one finished becomes the newest.
   */
  lemma InterruptDelivers(c: Chan)
    requires Inv(c) && c.phase != Stopped && c.isr == Idle && c.unreported > 0
    ensures var full := |c.queue| == c.n - 1;
            var r := Run(c, if full then [IsrCheck] + ([IsrDrop] + [IsrSend]) else [IsrCheck] + [IsrSend]);
            && r.Some? && r.value.isr == Idle && r.value.unreported == c.unreported - 1
            && r.value.next == Succ(c.next, c.n)
            && r.value.queue == (if full then c.queue[1..] else c.queue) + [c.next]
            && r.value.gone == c.gone + (if full then [false] else [])
            && r.value.cur == c.cur
  {
    hide Run, Inv, InOrder, IsArc;
    var full := |c.queue| == c.n - 1;
    assert c.n >= 2 && c.next < c.n && |c.queue| <= c.n - 1 by { Basics(c); }
    var c1 := c.(isr := if full then Drop else Send);
    var c2 := if full then c.(isr := Send, queue := c.queue[1..], gone := c.gone + [false]) else c1;
    var c3 := c2.(isr := Idle, queue := c2.queue + [c.next], next := Succ(c.next, c.n), unreported := c.unreported - 1);
    assert [IsrSend] + [] == [IsrSend];
    RunCons(c2, IsrSend, [], c3);
    RunNone(c3);
    if full {
      RunCons(c1, IsrDrop, [IsrSend], c2);
      RunCons(c, IsrCheck, [IsrDrop] + [IsrSend], c1);
    } else {
      RunCons(c, IsrCheck, [IsrSend], c1);
      assert c.gone + [] == c.gone;
    }
  }

  lemma Basics(c: Chan)
    requires Inv(c)
    ensures c.n >= 2 && c.next < c.n && |c.queue| <= c.n - 1
  {
  }

  /** While the channel runs and a buffer is queued, the task gets the oldest. */
  lemma TaskTakesOldest(c: Chan)
    requires Inv(c)
    ensures var r := Step(c, Receive);
            && (r.Some? <==> c.phase == Running && c.queue != [])
            && (r.Some? ==> r.value.cur == Some(c.queue[0]) && r.value.queue == c.queue[1..])
  {
  }

  /**
   * Nothing else ever blocks: the hardware goes on while the channel is enabled, also before a
   * receiver's queue is reset; preloading goes on while buffers are left; a channel can be enabled when
   * it is stopped, and stopped when it runs and the interrupt is idle.
   */
  lemma StepsPossible(c: Chan)
    requires Inv(c)
    ensures Step(c, Complete).Some? <==> c.phase != Stopped
    ensures Step(c, Enable).Some? <==> c.phase == Stopped
    ensures Step(c, Disable).Some? <==> c.phase == Running && c.isr == Idle
    ensures Step(c, PreloadFirst).Some? <==> c.tx && c.phase == Stopped && c.cur == None
    ensures Step(c, PreloadNext).Some? <==> c.tx && c.phase == Stopped && c.cur.Some? && c.queue != []
  {
    hide IsArc, InOrder;
  }

  /** The history of a session only grows, until the session ends; so preloading never starts over. */
  lemma HistoryGrows(c: Chan, e: Event)
    requires Inv(c) && Step(c, e).Some? && e != Disable && e != ResetQueue
    ensures var c' := Step(c, e).value;
            |c'.gone| >= |c.gone| && c'.gone[..|c.gone|] == c.gone && (c.cur.Some? ==> c'.cur.Some?)
  {
  }

  /** What a receiver left in the queue stays there, out of the task's reach, until it is enabled again. */
  lemma StaleUntilEnabled(c: Chan)
    requires Inv(c) && !c.tx && Step(c, Disable).Some?
    ensures var c1 := Step(c, Disable).value;
            && c1.queue == c.queue && Step(c1, Receive) == None
            && Step(c1, Enable).Some? && Step(Step(c1, Enable).value, Receive) == None
            && Step(Step(c1, Enable).value, ResetQueue).Some?
            && Step(Step(c1, Enable).value, ResetQueue).value.queue == []
  {
    hide IsArc, InOrder;
  }

  /** In a run the interrupt never finds the queue full. */
  predicate NeverFull(c: Chan, events: seq<Event>)
    requires c.n >= 2 && c.next < c.n
    decreases |events|
  {
    events != [] ==>
      && (events[0] == IsrCheck ==> |c.queue| < c.n - 1)
      && (Step(c, events[0]).Some? ==> NeverFull(Step(c, events[0]).value, events[1..]))
  }

  /** Then no buffer is dropped: every buffer that left the queue in this session went to the task. */
  lemma {:induction false} NothingDropped(c: Chan, events: seq<Event>)
    requires Inv(c) && Run(c, events).Some? && NeverFull(c, events)
    requires c.isr != Drop && forall k :: 0 <= k < |c.gone| ==> c.gone[k]
    ensures var c' := Run(c, events).value;
            c'.isr != Drop && forall k :: 0 <= k < |c'.gone| ==> c'.gone[k]
    decreases |events|
  {
    hide IsArc, InOrder;
    if events != [] {
      var c1 := Step(c, events[0]).value;
      StepInv(c, events[0]);
      assert forall k :: 0 <= k < |c1.gone| ==> c1.gone[k];
      NothingDropped(c1, events[1..]);
    }
  }

  /** The buffer the DMA is working on. */
  function DmaBuffer(c: Chan): nat
    requires c.next < c.n
  {
    Ahead(c.next, c.unreported, c.n)
  }

  /**
   * Every interleaving of completions, interrupt steps, preloading, reads or writes, enabling and
   * disabling: in a running channel the queue is a contiguous arc of distinct buffers ending just
   * behind the next buffer to be reported, does not hold that buffer, and the interrupt's send
   * never finds it full.
   */
  lemma QueueIsArc(n: nat, tx: bool, events: seq<Event>)
    requires n >= 2 && Run(Fresh(n, tx), events).Some?
    ensures var c := Run(Fresh(n, tx), events).value;
            && c.n == n && c.next < n
            && (c.isr == Send ==> |c.queue| < n - 1)
            && (c.phase == Running ==>
                  && IsArc(c.queue, c.next, n)
                  && InOrder(c)
                  && c.next !in c.queue
                  && forall i, j :: 0 <= i < j < |c.queue| ==> c.queue[i] != c.queue[j])
  {
    hide Run;
    RunInv(Fresh(n, tx), events);
  }

  /** Neighbours in the queue are neighbours in the ring, and the last one is just behind `next`. */
  lemma ArcFollowsRing(queue: seq<nat>, next: nat, n: nat)
    requires next < n && IsArc(queue, next, n)
    ensures forall i :: 0 <= i < |queue| ==>
              queue[i] < n && Succ(queue[i], n) == if i + 1 < |queue| then queue[i + 1] else next
  {
  }

  lemma {:induction false} AheadLap(i: nat, k: nat, n: nat)
    requires i < n
    ensures Ahead(i, k + n, n) == Ahead(i, k, n)
  {
    if k == 0 {
      RingVisitsAll(i, i, n);
    } else {
      AheadLap(i, k - 1, n);
    }
  }

  lemma {:induction false} AheadMod(i: nat, k: nat, n: nat)
    requires i < n
    ensures Ahead(i, k, n) == Ahead(i, k % n, n)
  {
    hide Ahead;
    ModStep(k, n);
    if k >= n {
      AheadLap(i, k - n, n);
      AheadMod(i, k - n, n);
    }
  }

  /**
   * The hardware runs ahead of the interrupt, by any number of laps.  The queue holds the very buffer
   * the DMA is working on exactly if queued buffers and unreported completions, less whole laps,
   * together make up a lap; with nothing unreported it never does.
   */
  lemma DmaBufferQueued(n: nat, tx: bool, events: seq<Event>)
    requires n >= 2 && Run(Fresh(n, tx), events).Some?
    requires Run(Fresh(n, tx), events).value.phase == Running
    ensures var c := Run(Fresh(n, tx), events).value;
            c.next < c.n == n && (DmaBuffer(c) in c.queue <==> |c.queue| + c.unreported % n >= n)
  {
    hide Run;
    RunInv(Fresh(n, tx), events);
    var c := Run(Fresh(n, tx), events).value;
    var k := c.unreported % n;
    AheadMod(c.next, c.unreported, n);
    AheadIs(c.next, k, n);
    if |c.queue| + k >= n {
      assert c.queue[|c.queue| + k - n] == DmaBuffer(c);
    }
  }

  lemma RunCons(c: Chan, e: Event, rest: seq<Event>, c': Chan)
    requires c.n >= 2 && c.next < c.n && Step(c, e) == Some(c') && c'.n >= 2 && c'.next < c'.n
    ensures Run(c, [e] + rest) == Run(c', rest)
  {
    hide Step;
    assert ([e] + rest)[1..] == rest;
  }

  /** A receiver with two buffers that has been enabled. */
  function Receiver(unreported: nat, isr: Isr): Chan {
    Chan(2, false, Running, [], 0, unreported, isr, None, 0, [])
  }

  lemma ExampleStart()
    ensures Run(Fresh(2, false), [Enable, ResetQueue, Complete, IsrCheck] + [IsrSend, Complete]) ==
            Run(Receiver(1, Send), [IsrSend, Complete])
  {
    hide Run;
    var c1 := Chan(2, false, Starting, [], 0, 0, Idle, None, 0, []);
    var tail := [IsrSend, Complete];
    RunCons(Receiver(1, Idle), IsrCheck, tail, Receiver(1, Send));
    RunCons(Receiver(0, Idle), Complete, [IsrCheck] + tail, Receiver(1, Idle));
    RunCons(c1, ResetQueue, [Complete] + ([IsrCheck] + tail), Receiver(0, Idle));
    RunCons(Fresh(2, false), Enable, [ResetQueue] + ([Complete] + ([IsrCheck] + tail)), c1);
    assert [Enable, ResetQueue, Complete, IsrCheck] + tail ==
           [Enable] + ([ResetQueue] + ([Complete] + ([IsrCheck] + tail)));
  }

  /** It does happen: two buffers, the first one reported and not yet taken, the second completed. */
  lemma DmaBufferQueuedExample()
    ensures var r := Run(Fresh(2, false), [Enable, ResetQueue, Complete, IsrCheck] + [IsrSend, Complete]);
            r.Some? && r.value.phase == Running && r.value.next < r.value.n && DmaBuffer(r.value) in r.value.queue
  {
    hide Run;
    ExampleStart();
    var c5 := Chan(2, false, Running, [0], 1, 0, Idle, None, 0, []);
    var c6 := c5.(unreported := 1);
    assert [] + [0] == c5.queue;
    RunCons(Receiver(1, Send), IsrSend, [Complete], c5);
    RunCons(c5, Complete, [], c6);
    assert [IsrSend] + [Complete] == [IsrSend, Complete] && [Complete] + [] == [Complete];
    assert Run(c6, []) == Some(c6) by {
      RunNone(c6);
    }
    AheadIs(1, 1, 2);
    assert c6.queue[0] == DmaBuffer(c6);
  }

  lemma RunNone(c: Chan)
    requires c.n >= 2 && c.next < c.n
    ensures Run(c, []) == Some(c)
  {
  }
}
