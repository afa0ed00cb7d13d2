// Thread states and the run queue (kernel/Core/Thread.cpp, SetState and
// SwitchTo), on the linked list of the queued threads.
module ThreadQueue {
  import opened LinkedList
  import opened Sequences

  datatype State = Created | Running | Waiting | Zombie | Unstoppable {
    predicate Runnable() {
      Running? || Unstoppable?
    }
  }

  datatype Status = Success | Undefined

  class Thread {
    var state: State

    constructor ()
      ensures state == Created
    {
      state := Created;
    }
  }

  lemma {:induction false} WithoutKeepsDistinct<T>(s: seq<T>, x: T)
    requires NoDuplicates(s)
    ensures NoDuplicates(Without(s, x))
    ensures forall y :: y in Without(s, x) ==> y in s && y != x
    ensures forall y :: y in s && y != x ==> y in Without(s, x)
  {
    if s != [] {
      var n := |s| - 1;
      WithoutKeepsDistinct(s[..n], x);
      assert s == s[..n] + [s[n]];
      assert s[n] !in s[..n];
    }
  }

  lemma {:induction false} WithoutAbsent<T>(s: seq<T>, x: T)
    requires x !in s
    ensures Without(s, x) == s
  {
    if s != [] {
      WithoutAbsent(s[..|s| - 1], x);
      assert s == s[..|s| - 1] + [s[|s| - 1]];
    }
  }

  lemma {:induction false} WithoutTwice<T>(s: seq<T>, x: T)
    ensures Without(Without(s, x), x) == Without(s, x)
    ensures Without([x] + s, x) == Without(s, x) == Without(s + [x], x)
  {
    WithoutMultiset(s, x);
    WithoutAbsent(Without(s, x), x);
    WithoutConcat([x], s, x);
    WithoutConcat(s, [x], x);
    assert [x][..0] == [] && Without([], x) == [];
    assert Without([x], x) == [];
  }

  // The run queue after a change of state.
  function Requeued<T(==)>(queue: seq<T>, thread: T, state: State): seq<T> {
    match state
    case Running => if thread in queue then queue else queue + [thread]
    case Unstoppable => if thread in queue then queue else queue + [thread]
    case Waiting => Without(queue, thread)
    case Zombie => Without(queue, thread)
    case Created => queue
  }

  // The thread's place follows its new state, except for Created; everybody
  // else stays where they are.
  lemma {:induction false} RequeuedKeeps<T>(queue: seq<T>, thread: T, state: State)
    requires NoDuplicates(queue)
    ensures NoDuplicates(Requeued(queue, thread, state))
    ensures Without(Requeued(queue, thread, state), thread) == Without(queue, thread)
    ensures !state.Created? ==> (thread in Requeued(queue, thread, state) <==> state == Running || state == Unstoppable)
    ensures thread !in queue && (state == Running || state == Unstoppable) ==> Requeued(queue, thread, state) == queue + [thread]
    ensures forall y :: y != thread && y in Requeued(queue, thread, state) ==> y in queue
    ensures forall y :: y != thread && y in queue ==> y in Requeued(queue, thread, state)
  {
    hide Without;
    WithoutKeepsDistinct(queue, thread);
    WithoutTwice(queue, thread);
  }

  class Scheduler {
    var currentThread: Thread
    const threadsQueue: List<Thread>

    constructor (thread: Thread)
      ensures currentThread == thread && Queue() == [] && QueueOk() && threadsQueue.Valid()
      ensures fresh(threadsQueue) && threadsQueue.footprint == {}
    {
      currentThread := thread;
      threadsQueue := new List<Thread>();
    }

    ghost function Queue(): seq<Thread>
      reads threadsQueue
    {
      threadsQueue.Contents()
    }

    ghost predicate QueueOk()
      reads threadsQueue, threadsQueue.footprint, Queue()
    {
      threadsQueue.Linked() && NoDuplicates(Queue()) && forall t :: t in Queue() ==> t.state.Runnable()
    }

    // What the state says about the queue.
    ghost predicate Consistent(thread: Thread)
      reads threadsQueue, thread
    {
      thread in Queue() <==> thread.state.Runnable()
    }

    // A thread that has to leave the queue can be removed from it: it is not
    // queued, or the first one, or its back link is right (LinkedList,
    // RemovableIff).
    ghost predicate CanSet(thread: Thread, state: State)
      requires threadsQueue.Forward()
      reads threadsQueue, threadsQueue.footprint, thread
    {
      state.Waiting? || state.Zombie? ==> thread.state == state || threadsQueue.Removable(thread)
    }

    // A null pointer means the current thread. Nothing happens when the state
    // stays the same.
    method SetState(target: Thread?, state: State) returns (fault: bool)
      requires QueueOk()
      modifies threadsQueue, threadsQueue.footprint, if target == null then currentThread else target
      ensures fresh(threadsQueue.footprint - old(threadsQueue.footprint))
      ensures
        var thread: Thread := if target == null then currentThread else target;
        && thread.state == state
        && (old(CanSet(thread, state)) <==> !fault && threadsQueue.Forward())
        && (!fault ==> Queue() == if old(thread.state) == state then old(Queue()) else Requeued(old(Queue()), thread, state))
      ensures
        var thread: Thread := if target == null then currentThread else target;
        fault <==> (state.Waiting? || state.Zombie?) && old(thread.state != state && threadsQueue.Unlinked(thread))
      ensures
        var thread: Thread := if target == null then currentThread else target;
        old(CanSet(thread, state)) ==>
          && (QueueOk() <==> !(state.Created? && thread in old(Queue())))
          && (old(thread.state) != state && !state.Created? ==> Consistent(thread))
          && (old(Consistent(thread)) ==> (Consistent(thread) <==> QueueOk()))
          && (old(threadsQueue.Backward()) ==> threadsQueue.Backward())
          && (old(threadsQueue.head == null || threadsQueue.head.data != thread) ==>
               && threadsQueue.HeadLink() == old(threadsQueue.HeadLink())
               && (old(threadsQueue.head) != null ==> threadsQueue.head == old(threadsQueue.head)))
    {
      hide List.Forward, List.Owned, List.Straight, List.Backward, List.Unlinked, List.HeadLink, Values, NoDuplicates, List.RemovableFrom, Without;
      var thread: Thread := if target == null then currentThread else target;
      RequeuedKeeps(Queue(), thread, state);
      threadsQueue.Ends();
      fault := false;
      if thread.state == state {
        return;
      }
      thread.state := state;
      match state {
        case Running | Unstoppable =>
          var queued := threadsQueue.Contains(thread);
          if !queued {
            threadsQueue.PushBack(thread);
          }
        case Waiting =>
          fault := threadsQueue.Remove(thread);
        case Zombie =>
          fault := threadsQueue.Remove(thread);
        case Created =>
      }
    }

    // A runnable thread moves to the front. The list is whole afterwards
    // exactly if no other thread is queued: the second one cannot be removed.
    method SwitchTo(thread: Thread) returns (status: Status, fault: bool)
      requires QueueOk()
      modifies threadsQueue, threadsQueue.footprint
      ensures fresh(threadsQueue.footprint - old(threadsQueue.footprint))
      ensures status.Success? <==> thread.state == Running || thread.state == Unstoppable
      ensures status.Undefined? ==> !fault && QueueOk() && Queue() == old(Queue())
      ensures status.Success? ==>
        && (old(threadsQueue.Removable(thread)) <==> !fault && threadsQueue.Forward())
        && (!fault ==> Queue() == [thread] + Without(old(Queue()), thread))
      ensures status.Success? && old(threadsQueue.Removable(thread)) ==>
        && QueueOk() && Consistent(thread)
        && (threadsQueue.Valid() <==> Queue() == [thread])
        && (|Queue()| > 1 ==> !threadsQueue.Removable(Queue()[1]))
        && (old(threadsQueue.head != null && threadsQueue.head.data != thread) ==>
             && |Queue()| > 1 && Queue()[1] == old(threadsQueue.head.data)
             && (threadsQueue.Unlinked(Queue()[1]) <==> old(threadsQueue.HeadLink()) == null))
    {
      hide List.Forward, List.Owned, List.Straight, List.Backward, List.Unlinked, Values, NoDuplicates, List.RemovableFrom, Without;
      fault := false;
      if thread.state != Running && thread.state != Unstoppable {
        return Undefined, false;
      }
      threadsQueue.Ends();
      WithoutKeepsDistinct(Queue(), thread);
      NoDuplicatesWith(Without(Queue(), thread), 0, thread);
      fault := threadsQueue.Remove(thread);
      if fault {
        return Success, true;
      }
      if threadsQueue.Linked() {
        threadsQueue.Ends();
      }
      threadsQueue.PushFront(thread);
      status := Success;
      assert forall t :: t in old(Queue()) ==> t.state == old(t.state);
      forall t | t in [thread] + Without(old(Queue()), thread) ensures t.state.Runnable() {
        assert t == thread || t in Without(old(Queue()), thread);
      }
      if old(threadsQueue.Removable(thread)) && |Queue()| > 1 {
        threadsQueue.Blocked(1);
      }
    }
  }

  // Two queued threads are enough: once the second one has been switched to,
  // the first one cannot go to sleep.
  method SleepAfterSwitch(a: Thread, b: Thread) returns (scheduler: Scheduler, fault: bool)
    requires a != b && a.state.Created? && b.state.Created?
    modifies a, b
    ensures fault && a.state == Waiting
  {
    hide List.Forward, List.Owned, List.Straight, List.Backward, List.Unlinked, Values, NoDuplicates, List.RemovableFrom, Without;
    scheduler := new Scheduler(a);
    scheduler.threadsQueue.Ends();
    fault := scheduler.SetState(a, Running);
    assert scheduler.Queue() == [a] && scheduler.QueueOk();
    scheduler.threadsQueue.Ends();
    fault := scheduler.SetState(b, Running);
    assert scheduler.Queue() == [a, b] && scheduler.QueueOk() && scheduler.threadsQueue.HeadLink() == null;
    var status;
    scheduler.threadsQueue.WholeIsRemovable(b);
    status, fault := scheduler.SwitchTo(b);
    assert scheduler.threadsQueue.Unlinked(a);
    fault := scheduler.SetState(a, Waiting);
  }
}
