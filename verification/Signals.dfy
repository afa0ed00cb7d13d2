// The wake-up protocol (kernel/Core/Signal.cpp). Each operation runs with
// interrupts disabled and is one atomic step.
module Signals {
  import opened LinkedList
  import opened Sequences
  import opened ThreadQueue

  datatype Latch<T> = Latch(raised: bool, waiting: seq<T>)
  datatype Event<T> = Wait(thread: T) | Raise | Reset

  function After<T>(s: Latch<T>, e: Event<T>): Latch<T> {
    match e
    case Wait(thread) => if s.raised then s.(raised := false) else s.(waiting := s.waiting + [thread])
    case Raise => if s.waiting == [] then s.(raised := true) else Latch(false, s.waiting[1..])
    case Reset => s.(raised := false)
  }

  // --- What happened in a run ---

  function Run<T>(events: seq<Event<T>>): Latch<T> {
    if events == [] then Latch(false, []) else After(Run(events[..|events| - 1]), events[|events| - 1])
  }

  lemma RunStep<T>(events: seq<Event<T>>, e: Event<T>)
    ensures Run(events + [e]) == After(Run(events), e)
  {
    assert (events + [e])[..|events + [e]| - 1] == events;
  }

  // Threads that went to sleep, and threads that were woken, in order.
  function Slept<T>(events: seq<Event<T>>): seq<T> {
    if events == [] then []
    else
      var before, e := events[..|events| - 1], events[|events| - 1];
      Slept(before) + if e.Wait? && !Run(before).raised then [e.thread] else []
  }

  function Woken<T>(events: seq<Event<T>>): seq<T> {
    if events == [] then []
    else
      var before, e := events[..|events| - 1], events[|events| - 1];
      Woken(before) + if e.Raise? && Run(before).waiting != [] then [Run(before).waiting[0]] else []
  }

  function Raises<T>(events: seq<Event<T>>): nat {
    if events == [] then 0
    else Raises(events[..|events| - 1]) + if events[|events| - 1].Raise? then 1 else 0
  }

  // How often an event of this kind found the latch set: a wait that did not
  // sleep, a reset that dropped a signal, a raise that added nothing.
  function FoundRaised<T>(events: seq<Event<T>>, kind: Event<T> -> bool): nat {
    if events == [] then 0
    else
      var before, e := events[..|events| - 1], events[|events| - 1];
      FoundRaised(before, kind) + if kind(e) && Run(before).raised then 1 else 0
  }

  lemma {:induction false} WokenInOrder<T>(events: seq<Event<T>>)
    ensures Run(events).raised ==> Run(events).waiting == []
    ensures Slept(events) == Woken(events) + Run(events).waiting
  {
    if events != [] {
      WokenInOrder(events[..|events| - 1]);
    }
  }

  // Over every interleaving: a set latch has no waiters, waiters are woken in
  // the order in which they came, and every raise is accounted for.
  lemma {:induction false} RunAccounts<T>(events: seq<Event<T>>)
    ensures Run(events).raised ==> Run(events).waiting == []
    ensures Slept(events) == Woken(events) + Run(events).waiting
    ensures Raises(events) ==
            |Woken(events)| + FoundRaised(events, (e: Event<T>) => e.Wait?) +
            FoundRaised(events, (e: Event<T>) => e.Reset?) + FoundRaised(events, (e: Event<T>) => e.Raise?) +
            (if Run(events).raised then 1 else 0)
  {
    hide Slept;
    WokenInOrder(events);
    if events != [] {
      RunAccounts(events[..|events| - 1]);
    }
  }

  class Signal {
    var raised: bool
    var waitingThreads: seq<Thread>
    const scheduler: Scheduler
    ghost var events: seq<Event<Thread>>

    // The state is the one that the run so far leads to.
    ghost predicate Valid()
      reads this
    {
      Run(events) == Latch(raised, waitingThreads)
    }

    // Every waiter sleeps, is out of the run queue and waits once.
    ghost predicate Asleep()
      reads this, waitingThreads, scheduler.threadsQueue
    {
      && NoDuplicates(waitingThreads)
      && forall t :: t in waitingThreads ==> t.state == State.Waiting && t !in scheduler.Queue()
    }

    constructor (scheduler: Scheduler)
      ensures Valid() && Asleep() && events == [] && this.scheduler == scheduler
    {
      raised, waitingThreads, events := false, [], [];
      this.scheduler := scheduler;
    }

    // Going to sleep takes the current thread off the run queue, with what
    // that can do to the list.
    method Wait() returns (fault: bool)
      requires Valid() && scheduler.QueueOk()
      modifies this, scheduler.threadsQueue, scheduler.threadsQueue.footprint, scheduler.currentThread
      ensures fresh(scheduler.threadsQueue.footprint - old(scheduler.threadsQueue.footprint))
      ensures Valid() && events == old(events) + [Event.Wait(scheduler.currentThread)]
      ensures old(raised || scheduler.CanSet(scheduler.currentThread, State.Waiting)) <==> !fault && scheduler.QueueOk()
      ensures old(Asleep() && scheduler.currentThread.state != State.Waiting) && !fault ==> Asleep()
      ensures old(!raised && scheduler.currentThread.state != State.Waiting) && !fault ==>
        scheduler.currentThread.state == State.Waiting && scheduler.currentThread !in scheduler.Queue()
    {
      hide List.Forward, List.Owned, List.Straight, List.Backward, List.Unlinked, List.HeadLink, Values, NoDuplicates;
      hide List.RemovableFrom, Without, Run;
      RunStep(events, Event.Wait(scheduler.currentThread));
      events := events + [Event.Wait(scheduler.currentThread)];
      fault := false;
      if raised {
        raised := false;
        return;
      }
      var thread := scheduler.currentThread;
      waitingThreads := waitingThreads + [thread];
      if old(NoDuplicates(waitingThreads)) && thread !in old(waitingThreads) {
        NoDuplicatesWith(old(waitingThreads), 0, thread);
      }
      RequeuedKeeps(scheduler.Queue(), thread, State.Waiting);
      fault := scheduler.SetState(null, State.Waiting);
    }

    // Wakes the thread that waited longest, or leaves the latch set.
    method Raise() returns (fault: bool)
      requires Valid() && scheduler.QueueOk()
      modifies this, scheduler.threadsQueue, scheduler.threadsQueue.footprint
      modifies if waitingThreads == [] then {} else {waitingThreads[0]}
      ensures fresh(scheduler.threadsQueue.footprint - old(scheduler.threadsQueue.footprint))
      ensures Valid() && scheduler.QueueOk() && !fault && events == old(events) + [Event.Raise]
      ensures old(waitingThreads) == [] ==> raised && scheduler.Queue() == old(scheduler.Queue())
      ensures old(waitingThreads) != [] ==>
        && !raised && waitingThreads == old(waitingThreads[1..])
        && old(waitingThreads)[0].state == State.Running
      ensures old(Asleep() && waitingThreads != []) ==>
        scheduler.Queue() == old(scheduler.Queue() + [waitingThreads[0]])
      ensures old(Asleep()) ==> Asleep()
    {
      hide List.Forward, List.Owned, List.Straight, List.Backward, List.Unlinked, List.HeadLink, Values, NoDuplicates;
      hide List.Linked, List.RemovableFrom, Scheduler.Consistent, Without, Run;
      RunStep(events, Event.Raise);
      events := events + [Event.Raise];
      raised := true;
      fault := false;
      if waitingThreads != [] {
        var thread := waitingThreads[0];
        if old(Asleep()) {
          NoDuplicatesWithout(waitingThreads, 0);
          Unique(waitingThreads, 0);
        }
        waitingThreads := waitingThreads[1..];
        fault := scheduler.SetState(thread, State.Running);
        raised := false;
      }
    }

    method Reset()
      requires Valid()
      modifies this
      ensures Valid() && events == old(events) + [Event.Reset]
      ensures old(Asleep()) ==> Asleep()
    {
      RunStep(events, Event.Reset);
      events := events + [Event.Reset];
      raised := false;
    }
  }
}
