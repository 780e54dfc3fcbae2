/** popcorn_threadpool.c: the work queue of the thread pool, a ring buffer that the holder of the
    pool's mutex updates in place. */
module ThreadPool {

  /** A function and its argument, as addresses; 0 is NULL. */
  datatype Task = Task(fn: int, args: int)

  const NO_TASK := Task(0, 0)

  datatype Status = Added | Invalid | QueueFull | ShutDown

  /** The value of the ring: what its fields hold between critical sections. */
  datatype Ring = Ring(slots: seq<Task>, head: nat, tail: nat, count: nat)
  {
    ghost predicate Ok() {
      && head < |slots| && tail < |slots| && count <= |slots|
      && tail == Slot(head, count, |slots|)
    }

    predicate Full() {
      count == |slots|
    }

    /** The queued tasks, oldest first. */
    ghost function Contents(): (s: seq<Task>)
      requires Ok()
      ensures |s| == count
    {
      seq(count, i requires 0 <= i < count => slots[Slot(head, i, |slots|)])
    }
  }

  /** The slot i places after `head` in a ring of n slots. */
  function Slot(head: nat, i: nat, n: nat): (k: nat)
    requires n > 0
    ensures k < n
  {
    (head + i) % n
  }

  lemma SlotIs(head: nat, i: nat, n: nat)
    requires head < n && i <= n
    ensures Slot(head, i, n) == if head + i < n then head + i else head + i - n
  {
    ModOnce(head + i, n, (head + i) / n, (head + i) % n);
  }

  lemma ModOnce(x: nat, n: nat, q: int, r: nat)
    requires x < 2 * n && r < n && x == n * q + r
    ensures r == if x < n then x else x - n
  {
    if q >= 2 {
      assert n * q >= n * 2 by { MulAtLeast(n, q, 2); }
    }
    if q <= -1 {
      assert n * -q >= n by { MulAtLeast(n, -q, 1); }
    }
  }

  lemma MulAtLeast(n: nat, q: int, k: int)
    requires q >= k
    ensures n * q >= n * k
  {
  }

  function Pushed(r: Ring, task: Task): Ring
    requires r.tail < |r.slots|
  {
    Ring(r.slots[r.tail := task], r.head, (r.tail + 1) % |r.slots|, r.count + 1)
  }

  function Popped(r: Ring): Ring
    requires |r.slots| > 0 && r.count > 0
  {
    Ring(r.slots, (r.head + 1) % |r.slots|, r.tail, r.count - 1)
  }

  /** What threadpool_add answers with the lock held.  A full queue is reported even after a
      shutdown. */
  function AddStatus(r: Ring, shutdown: bool): Status {
    if r.Full() then QueueFull else if shutdown then ShutDown else Added
  }

  lemma PushedAppends(r: Ring, task: Task)
    requires r.Ok() && !r.Full()
    ensures Pushed(r, task).Ok() && Pushed(r, task).Contents() == r.Contents() + [task]
  {
    var n, p := |r.slots|, Pushed(r, task);
    SlotIs(r.head, r.count, n);
    SlotIs(r.head, r.count + 1, n);
    SlotIs(r.tail, 1, n);
    forall i | 0 <= i < r.count
      ensures Slot(r.head, i, n) != r.tail
    {
      SlotIs(r.head, i, n);
    }
    assert p.Ok();
  }

  lemma PoppedTakesFirst(r: Ring)
    requires r.Ok() && r.count > 0
    ensures Popped(r).Ok() && r.Contents() == [r.slots[r.head]] + Popped(r).Contents()
  {
    var n, p := |r.slots|, Popped(r);
    SlotIs(r.head, 1, n);
    SlotIs(r.head, 0, n);
    SlotIs(r.head, r.count, n);
    SlotIs(p.head, p.count, n);
    assert p.Ok();
    forall i | 0 <= i < p.count
      ensures Slot(p.head, i, n) == Slot(r.head, i + 1, n)
    {
      SlotIs(p.head, i, n);
      SlotIs(r.head, i + 1, n);
    }
    assert r.Contents()[0] == r.slots[r.head];
  }

  class Pool {
    const queue: array<Task>
    var head: nat
    var tail: nat
    var count: nat
    var shutdown: bool

    ghost function Value(): Ring
      reads this, queue
    {
      Ring(queue[..], head, tail, count)
    }

    ghost predicate Valid()
      reads this, queue
    {
      Value().Ok()
    }

    ghost function Contents(): seq<Task>
      requires Valid()
      reads this, queue
    {
      Value().Contents()
    }

    constructor (queueSize: nat)
      requires queueSize > 0
      ensures Valid() && fresh(queue) && queue.Length == queueSize && Contents() == [] && !shutdown
    {
      queue := new Task[queueSize](_ => NO_TASK);
      head, tail, count, shutdown := 0, 0, 0, false;
      new;
      SlotIs(0, 0, queueSize);
    }

    /** threadpool_add between taking the lock and releasing it. */
    method Add(fn: int, args: int) returns (result: Status)
      requires Valid()
      modifies this, queue
      ensures Valid() && shutdown == old(shutdown)
      ensures result == (if fn == 0 then Invalid else if old(count) == queue.Length then QueueFull
                         else if old(shutdown) then ShutDown else Added)
      ensures fn != 0 ==> result == old(AddStatus(Value(), shutdown))
      ensures Contents() == old(Contents()) + if result.Added? then [Task(fn, args)] else []
      ensures Value() == if result.Added? then Pushed(old(Value()), Task(fn, args)) else old(Value())
    {
      if fn == 0 {
        return Invalid;
      }
      var next := (tail + 1) % queue.Length;
      if count == queue.Length {
        return QueueFull;
      }
      if shutdown {
        return ShutDown;
      }
      PushedAppends(Value(), Task(fn, args));
      queue[tail] := Task(fn, args);
      count := count + 1;
      tail := next;
      assert Value() == Pushed(old(Value()), Task(fn, args));
      result := Added;
    }

    /** threadpool_run, once the worker holds the lock and has found a task waiting. */
    method Take() returns (task: Task)
      requires Valid() && count > 0
      modifies this
      ensures Valid() && shutdown == old(shutdown) && old(Contents()) == [task] + Contents()
      ensures Value() == Popped(old(Value())) && task == old(Value()).slots[old(head)]
    {
      PoppedTakesFirst(Value());
      task := queue[head];
      head := (head + 1) % queue.Length;
      count := count - 1;
      assert Value() == Popped(old(Value()));
    }

    /** What threadpool_destroy does with the lock held. */
    method ShutDownPool()
      requires Valid()
      modifies this
      ensures Valid() && shutdown && Value() == old(Value())
    {
      shutdown := true;
    }
  }
}
