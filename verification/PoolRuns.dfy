/** popcorn_threadpool.c: what holds of every run of the pool, from the invariants of PoolSteps. */
module PoolRuns {
  import opened ThreadPool
  import opened PoolSteps

  // ---------- whole runs ----------

  /** Where a run from s stands after `events`. */
  ghost function Run(s: State, events: seq<Event>): (r: State)
    requires Inv(s)
    ensures Inv(r) && |r.workers| == |s.workers| && |r.producers| == |s.producers|
    decreases |events|
  {
    hide Step, LockOk, WakeOk, WorkOk, EndOk, StartedOk;
    if events == [] then s else (StepInv(s, events[0]); StepSizes(s, events[0]); Run(Step(s, events[0]), events[1..]))
  }

  /** Where the pool stands when `events` have happened since it was created. */
  ghost function Reach(s: State, events: seq<Event>): (r: State)
    requires Init(s)
    ensures Inv(r) && |r.workers| == |s.workers| && |r.producers| == |s.producers|
  {
    InitInv(s);
    Run(s, events)
  }

  /** First in, first out: what was accepted is what was taken followed by what is in the ring,
      in order; and each task was taken by exactly one worker, that runs it once. */
  lemma Fifo(s: State, events: seq<Event>)
    requires Init(s)
    ensures var r := Reach(s, events);
            && r.accepted == r.taken + r.ring.Contents()
            && r.ring.tail == (r.ring.head + r.ring.count) % |r.ring.slots|
            && |r.takers| == |r.taken|
            && forall i: nat | i < |r.taken| ::
                 if i in r.finished then forall w: nat :: !Has(r, w, i)
                 else forall w: nat :: Has(r, w, i) <==> w == r.takers[i]
  {
    var r := Reach(s, events);
    forall i: nat | i < |r.taken|
      ensures if i in r.finished then forall w: nat :: !Has(r, w, i)
              else forall w: nat :: Has(r, w, i) <==> w == r.takers[i]
    {
      assert Served(r, i);
    }
  }

  /** No wake-up is lost: with the lock free, no worker sleeps while there is a task to take or a
      shutdown to heed. */
  lemma NoLostWakeUp(s: State, events: seq<Event>, w: nat)
    requires Init(s) && w < |s.workers|
    requires Reach(s, events).lock.Nobody?
    requires Reach(s, events).ring.count > 0 || Reach(s, events).shutdown
    ensures !Reach(s, events).workers[w].Sleeping?
  {
    assert !Announcing(Reach(s, events));
  }

  /** A worker that has left does so for good: the queue was drained, and nothing is accepted or
      taken afterwards, whatever happens. */
  lemma LeavesDrained(s: State, before: seq<Event>, after: seq<Event>, w: nat)
    requires Init(s) && w < |s.workers| && Leaves(Reach(s, before).workers[w])
    ensures Reach(s, before).ring.Contents() == []
    ensures var now, later := Reach(s, before), Run(Reach(s, before), after);
            later.accepted == now.accepted && later.taken == now.taken
  {
    NothingMore(Reach(s, before), after, w);
  }

  lemma {:induction false} NothingMore(s: State, events: seq<Event>, w: nat)
    requires Inv(s) && w < |s.workers| && Leaves(s.workers[w])
    ensures Run(s, events).accepted == s.accepted && Run(s, events).taken == s.taken
    decreases |events|
  {
    if events != [] {
      hide Step, LockOk, WakeOk, WorkOk, EndOk, StartedOk;
      StepInv(s, events[0]);
      StepSizes(s, events[0]);
      StaysLeft(s, events[0], w);
      NothingMore(Step(s, events[0]), events[1..], w);
    }
  }

  lemma StaysLeft(s: State, e: Event, w: nat)
    requires Inv(s) && w < |s.workers| && Leaves(s.workers[w])
    ensures Leaves(Step(s, e).workers[w])
    ensures Step(s, e).accepted == s.accepted && Step(s, e).taken == s.taken
  {
    hide LockOk, WakeOk, WorkOk, StartedOk, Ring.Contents;
    assert s.shutdown && s.ring.count == 0;
  }

  /** When threadpool_destroy has joined its workers, every task ever accepted has been run, and
      the pool is freed: no worker is counted any more. */
  lemma DestroyCompletesAll(s: State, events: seq<Event>)
    requires Init(s) && |s.workers| > 0
    requires Reach(s, events).destroyer.Freed? || Reach(s, events).destroyer.Kept?
    ensures var r := Reach(s, events);
            && r.destroyer.Freed? && r.started == 0 && r.taken == r.accepted
            && forall i: nat | i < |r.accepted| :: i in r.finished
  {
    var r := Reach(s, events);
    NoneAlive(r.workers);
    assert Leaves(r.workers[0]);
    forall i: nat | i < |r.accepted|
      ensures i in r.finished
    {
      assert Served(r, i);
    }
  }

  /** Whoever holds the lock can go on; and with the lock free and a task unfinished, a worker can. */
  lemma NoDeadlock(s: State, events: seq<Event>, i: nat)
    requires Init(s) && |s.workers| > 0
    ensures var r := Reach(s, events);
            match r.lock
            case WorkerHolds(w) => w < |r.workers| && Step(r, WorkerStep(w)) != r
            case ProducerHolds(p) => p < |r.producers| && Step(r, ProducerStep(p)) != r
            case DestroyerHolds => Step(r, DestroyerStep) != r
            case Nobody =>
              i < |r.accepted| && i !in r.finished ==>
                exists w: nat :: w < |r.workers| && Step(r, WorkerStep(w)) != r
  {
    var r := Reach(s, events);
    if r.lock.Nobody? {
      if i < |r.accepted| && i !in r.finished {
        WorkerGoesOn(r, i);
      }
    } else {
      HolderGoesOn(r);
    }
  }

  lemma HolderGoesOn(r: State)
    requires Inv(r)
    ensures r.lock.WorkerHolds? ==> r.lock.w < |r.workers| && Step(r, WorkerStep(r.lock.w)) != r
    ensures r.lock.ProducerHolds? ==> r.lock.p < |r.producers| && Step(r, ProducerStep(r.lock.p)) != r
    ensures r.lock.DestroyerHolds? ==> Step(r, DestroyerStep) != r
  {
    if r.lock.WorkerHolds? {
      assert WorkerLocks(r.workers[r.lock.w]);
      assert Step(r, WorkerStep(r.lock.w)).workers[r.lock.w] != r.workers[r.lock.w];
    } else if r.lock.ProducerHolds? {
      assert ProducerLocks(r.producers[r.lock.p]);
      assert Step(r, ProducerStep(r.lock.p)).producers[r.lock.p] != r.producers[r.lock.p];
    } else if r.lock.DestroyerHolds? {
      assert Step(r, DestroyerStep).destroyer != r.destroyer;
    }
  }

  lemma WorkerGoesOn(r: State, i: nat)
    requires Inv(r) && |r.workers| > 0 && r.lock.Nobody? && i < |r.accepted| && i !in r.finished
    ensures exists w: nat :: w < |r.workers| && Step(r, WorkerStep(w)) != r
  {
    if i < |r.taken| {
      assert Served(r, i);
      assert Step(r, WorkerStep(r.takers[i])).workers[r.takers[i]] != r.workers[r.takers[i]];
    } else {
      assert !Announcing(r) && r.ring.count > 0;
      assert !r.workers[0].Sleeping? && !Leaves(r.workers[0]);
      assert Step(r, WorkerStep(0)).workers[0] != r.workers[0];
    }
  }

  // ---------- every task is finished ----------

  /** Steps a worker can take before it sleeps or is dead, if it gets no task. */
  function WorkerLeft(pc: Worker): nat {
    match pc
    case Took(_) => 7
    case Running(_) => 6
    case Ready => 5
    case Woken => 5
    case Holding => 4
    case Dying => 2
    case Parting => 1
    case Sleeping => 0
    case Dead => 0
  }

  function WorkersLeft(workers: seq<Worker>): nat {
    if workers == [] then 0 else WorkerLeft(workers[0]) + WorkersLeft(workers[1..])
  }

  /** Steps a caller can take, those its task gives a worker, and those of the n workers it wakes. */
  function ProducerLeft(n: nat, pc: Producer): nat {
    match pc
    case Away => 0
    case Wants(_) => 5 * n + 8
    case Asking(_) => 5 * n + 7
    case Queued(_) => 5 * n + 2
    case Answered(_, _) => 1
  }

  function ProducersLeft(n: nat, producers: seq<Producer>): nat {
    if producers == [] then 0 else ProducerLeft(n, producers[0]) + ProducersLeft(n, producers[1..])
  }

  function DestroyerLeft(n: nat, pc: Destroyer): int {
    match pc
    case NotYet => 6 * n + 5
    case Setting => 6 * n + 4
    case Set => 6 * n + 3
    case Announced => n + 2
    case Joining(k) => n - k + 1
    case Freed => 0
    case Kept => 0
  }

  /** A bound on the steps that can change something, if no more calls come in. */
  function Left(s: State): int {
    WorkersLeft(s.workers) + 4 * s.ring.count + ProducersLeft(|s.workers|, s.producers) + DestroyerLeft(|s.workers|, s.destroyer)
  }

  lemma {:induction false} WorkersLeftUpdate(workers: seq<Worker>, w: nat, pc: Worker)
    requires w < |workers|
    ensures WorkersLeft(workers[w := pc]) == WorkersLeft(workers) - WorkerLeft(workers[w]) + WorkerLeft(pc)
  {
    if w == 0 {
      assert workers[w := pc][1..] == workers[1..];
    } else {
      assert workers[w := pc][1..] == workers[1..][w - 1 := pc];
      WorkersLeftUpdate(workers[1..], w - 1, pc);
    }
  }

  lemma {:induction false} WorkersLeftWake(workers: seq<Worker>)
    ensures WorkersLeft(WakeAll(workers)) <= WorkersLeft(workers) + 5 * |workers|
  {
    if workers != [] {
      assert WakeAll(workers)[1..] == WakeAll(workers[1..]);
      WorkersLeftWake(workers[1..]);
    }
  }

  lemma {:induction false} ProducersLeftUpdate(n: nat, producers: seq<Producer>, p: nat, pc: Producer)
    requires p < |producers|
    ensures ProducersLeft(n, producers[p := pc])
            == ProducersLeft(n, producers) - ProducerLeft(n, producers[p]) + ProducerLeft(n, pc)
  {
    if p == 0 {
      assert producers[p := pc][1..] == producers[1..];
    } else {
      assert producers[p := pc][1..] == producers[1..][p - 1 := pc];
      ProducersLeftUpdate(n, producers[1..], p - 1, pc);
    }
  }

  /** What an event adds to the steps left: a call brings its own and those of a task and of the
      workers it wakes, a spurious wake-up those of one worker, and any other event uses up one. */
  function Brings(n: nat, e: Event): int {
    match e
    case Calls(_, _) => 5 * n + 8
    case Spurious(_) => 5
    case _ => -1
  }

  lemma WorkerSpends(s: State, w: nat)
    requires s.ring.Ok() && w < |s.workers| && StepWorker(s, w) != s
    ensures Left(StepWorker(s, w)) < Left(s)
  {
    hide WorkersLeft, ProducersLeft, StepWorker;
    var t := StepWorker(s, w);
    OneMoves(s, w);
    OneSpends(s, w);
    WorkersLeftUpdate(s.workers, w, t.workers[w]);
  }

  lemma OneSpends(s: State, w: nat)
    requires s.ring.Ok() && w < |s.workers| && StepWorker(s, w) != s
    ensures var t := StepWorker(s, w);
            && |t.workers| == |s.workers| && t.producers == s.producers
            && WorkerLeft(t.workers[w]) + 4 * t.ring.count < WorkerLeft(s.workers[w]) + 4 * s.ring.count
  {
    hide Ring.Contents;
  }

  lemma ProducerSpends(s: State, p: nat)
    requires s.ring.Ok() && p < |s.producers| && StepProducer(s, p) != s
    ensures Left(StepProducer(s, p)) < Left(s)
  {
    hide WorkersLeft, ProducersLeft, Ring.Contents;
    var t := StepProducer(s, p);
    assert t.producers == s.producers[p := t.producers[p]];
    ProducersLeftUpdate(|s.workers|, s.producers, p, t.producers[p]);
    WorkersLeftWake(s.workers);
  }

  lemma DestroyerSpends(s: State)
    requires StepDestroyer(s) != s && (s.destroyer.Joining? ==> s.destroyer.k <= |s.workers|)
    ensures Left(StepDestroyer(s)) < Left(s)
  {
    hide WorkersLeft, ProducersLeft;
    WorkersLeftWake(s.workers);
  }

  lemma StepSpends(s: State, e: Event)
    requires Inv(s) && Step(s, e) != s
    ensures Left(Step(s, e)) <= Left(s) + Brings(|s.workers|, e)
  {
    hide WorkersLeft, ProducersLeft, StepWorker, StepProducer, StepDestroyer;
    match e {
      case WorkerStep(w) => WorkerSpends(s, w);
      case Spurious(w) => WorkersLeftUpdate(s.workers, w, Woken);
      case Calls(p, task) => ProducersLeftUpdate(|s.workers|, s.producers, p, Wants(task));
      case ProducerStep(p) => ProducerSpends(s, p);
      case DestroyerStep => DestroyerSpends(s);
    }
  }

  /** The steps of threads of the pool that change something in a run, and what calls and spurious
      wake-ups bring. */
  ghost function Steps(s: State, events: seq<Event>): nat
    requires Inv(s)
    decreases |events|
  {
    if events == [] then 0
    else
      StepInv(s, events[0]);
      (if Step(s, events[0]) != s && Brings(0, events[0]) < 0 then 1 else 0) + Steps(Step(s, events[0]), events[1..])
  }

  function Brought(n: nat, events: seq<Event>): nat {
    if events == [] then 0
    else (if Brings(n, events[0]) < 0 then 0 else Brings(n, events[0])) + Brought(n, events[1..])
  }

  lemma {:induction false} RunSpends(s: State, events: seq<Event>)
    requires Inv(s)
    ensures Steps(s, events) + Left(Run(s, events)) <= Left(s) + Brought(|s.workers|, events)
    decreases |events|
  {
    if events != [] {
      hide Inv, Step, Left;
      StepInv(s, events[0]);
      StepSizes(s, events[0]);
      if Step(s, events[0]) != s {
        StepSpends(s, events[0]);
      }
      RunSpends(Step(s, events[0]), events[1..]);
    }
  }

  lemma LeftNonNegative(s: State)
    requires Inv(s)
    ensures Left(s) >= 0
  {
  }

  lemma {:induction false} AllReady(workers: seq<Worker>)
    requires forall w | 0 <= w < |workers| :: workers[w].Ready?
    ensures WorkersLeft(workers) == 5 * |workers|
  {
    if workers != [] {
      AllReady(workers[1..]);
    }
  }

  lemma {:induction false} AllAway(n: nat, producers: seq<Producer>)
    requires forall p | 0 <= p < |producers| :: producers[p].Away?
    ensures ProducersLeft(n, producers) == 0
  {
    if producers != [] {
      AllAway(n, producers[1..]);
    }
  }

  /** Every task is finished and every call answered: however the threads are interleaved, the steps
      that change something are bounded by the calls and spurious wake-ups; and when no thread of the
      pool can change anything any more, every task that was accepted has been run and no caller is
      in threadpool_add. */
  lemma EveryTaskFinishes(s: State, events: seq<Event>)
    requires Init(s) && |s.workers| > 0
    ensures Inv(s) && Steps(s, events) <= 11 * |s.workers| + 5 + Brought(|s.workers|, events)
    ensures var r := Reach(s, events);
            || (exists w: nat :: w < |r.workers| && Step(r, WorkerStep(w)) != r)
            || (exists p: nat :: p < |r.producers| && Step(r, ProducerStep(p)) != r)
            || (r.lock.DestroyerHolds? && Step(r, DestroyerStep) != r)
            || ((forall i: nat | i < |r.accepted| :: i in r.finished) && forall p | 0 <= p < |r.producers| :: r.producers[p].Away?)
  {
    InitInv(s);
    AllReady(s.workers);
    AllAway(|s.workers|, s.producers);
    RunSpends(s, events);
    var r := Reach(s, events);
    LeftNonNegative(r);
    hide Step, Inv, Left;
    if r.lock.Nobody? {
      if i: nat :| i < |r.accepted| && i !in r.finished {
        WorkerGoesOn(r, i);
      } else if p: nat :| p < |r.producers| && !r.producers[p].Away? {
        CallerGoesOn(r, p);
      }
    } else {
      HolderGoesOn(r);
    }
  }

  lemma CallerGoesOn(r: State, p: nat)
    requires Inv(r) && r.lock.Nobody? && p < |r.producers| && !r.producers[p].Away?
    ensures Step(r, ProducerStep(p)) != r
  {
    assert !ProducerLocks(r.producers[p]);
    assert Step(r, ProducerStep(p)).producers[p] != r.producers[p];
  }

  // ---------- calls and answers ----------

  /** threadpool_add with the lock held: the task goes to the end of the queue exactly if there is
      room and no shutdown, and that is what the caller is told. */
  lemma AddsExactly(s: State, events: seq<Event>, p: nat)
    requires Init(s) && p < |s.producers| && Reach(s, events).producers[p].Asking?
    ensures var r := Reach(s, events);
            var t, task := Step(r, ProducerStep(p)), r.producers[p].task;
            if r.ring.count < |r.ring.slots| && !r.shutdown then
              && t.accepted == r.accepted + [task] && t.ring.Ok() && t.ring.Contents() == r.ring.Contents() + [task]
              && t.producers[p] == Queued(task)
            else
              && t.accepted == r.accepted && t.ring == r.ring
              && t.producers[p] == Answered(task, if r.ring.count == |r.ring.slots| then QueueFull else ShutDown)
  {
    var r := Reach(s, events);
    if !r.ring.Full() {
      PushedAppends(r.ring, r.producers[p].task);
    }
  }

  /** The tasks that caller p has come with, those it has been answered for, and all that were
      answered to have been added. */
  ghost function CalledBy(calls: seq<Call>, p: nat): seq<Task> {
    if calls == [] then []
    else CalledBy(calls[..|calls| - 1], p) + (var c := calls[|calls| - 1]; if c.p == p then [c.task] else [])
  }

  ghost function AnsweredTo(replies: seq<Reply>, p: nat): seq<Task> {
    if replies == [] then []
    else AnsweredTo(replies[..|replies| - 1], p) + (var r := replies[|replies| - 1]; if r.p == p then [r.task] else [])
  }

  ghost function AnsweredAdded(replies: seq<Reply>): seq<Task> {
    if replies == [] then []
    else AnsweredAdded(replies[..|replies| - 1]) + (var r := replies[|replies| - 1]; if r.status.Added? then [r.task] else [])
  }

  /** The task of a caller in threadpool_add. */
  function Pending(pc: Producer): seq<Task> {
    if pc.Away? then [] else [pc.task]
  }

  /** The task that has been accepted, but whose caller has not been answered yet. */
  function Unanswered(s: State): seq<Task> {
    if s.lock.ProducerHolds? && s.lock.p < |s.producers| then
      match s.producers[s.lock.p]
      case Queued(task) => [task]
      case Answered(task, Added) => [task]
      case _ => []
    else []
  }

  /** Every call is answered once, in each caller's order, unless the caller is still waiting; and
      the accepted tasks are those of the calls answered with Added, in order. */
  ghost predicate CallsOk(s: State) {
    && (forall p: nat | p < |s.producers| :: CalledBy(s.calls, p) == AnsweredTo(s.replies, p) + Pending(s.producers[p]))
    && s.accepted == AnsweredAdded(s.replies) + Unanswered(s)
  }

  lemma OneMoreCall(calls: seq<Call>, c: Call, p: nat)
    ensures CalledBy(calls + [c], p) == CalledBy(calls, p) + if c.p == p then [c.task] else []
  {
    assert (calls + [c])[..|calls|] == calls;
  }

  lemma OneMoreReply(replies: seq<Reply>, r: Reply, p: nat)
    ensures AnsweredTo(replies + [r], p) == AnsweredTo(replies, p) + if r.p == p then [r.task] else []
    ensures AnsweredAdded(replies + [r]) == AnsweredAdded(replies) + if r.status.Added? then [r.task] else []
  {
    assert (replies + [r])[..|replies|] == replies;
  }

  lemma CallsStep(s: State, e: Event)
    requires Inv(s) && CallsOk(s)
    ensures CallsOk(Step(s, e))
  {
    match e {
      case WorkerStep(w) => if w < |s.workers| { WorkerCalls(s, w); }
      case Spurious(w) =>
      case Calls(p, task) => if p < |s.producers| && s.producers[p].Away? { EnterCalls(s, p, task); }
      case ProducerStep(p) => if p < |s.producers| { ProducerCalls(s, p); }
      case DestroyerStep => DestroyerCalls(s);
    }
  }

  lemma WorkerCalls(s: State, w: nat)
    requires LockOk(s) && s.ring.Ok() && CallsOk(s) && w < |s.workers|
    ensures CallsOk(StepWorker(s, w))
  {
    hide CalledBy, AnsweredTo, AnsweredAdded;
    assert !s.lock.ProducerHolds? ==> Unanswered(s) == [];
  }

  lemma DestroyerCalls(s: State)
    requires LockOk(s) && CallsOk(s)
    ensures CallsOk(StepDestroyer(s))
  {
    hide CalledBy, AnsweredTo, AnsweredAdded;
  }

  lemma EnterCalls(s: State, p: nat, task: Task)
    requires LockOk(s) && CallsOk(s) && p < |s.producers| && s.producers[p].Away?
    ensures CallsOk(Enter(s, p, task))
  {
    hide CalledBy, AnsweredTo, AnsweredAdded;
    var t := Enter(s, p, task);
    forall q: nat | q < |t.producers|
      ensures CalledBy(t.calls, q) == AnsweredTo(t.replies, q) + Pending(t.producers[q])
    {
      OneMoreCall(s.calls, Called(p, task), q);
      OneMoreReply(s.replies, Replied(p, task, Invalid), q);
    }
    OneMoreReply(s.replies, Replied(p, task, Invalid), p);
  }

  lemma ProducerCalls(s: State, p: nat)
    requires LockOk(s) && s.ring.Ok() && CallsOk(s) && p < |s.producers|
    ensures CallsOk(StepProducer(s, p))
  {
    hide CalledBy, AnsweredTo, AnsweredAdded;
    var t := StepProducer(s, p);
    if s.producers[p].Answered? {
      var reply := Replied(p, s.producers[p].task, s.producers[p].status);
      OneMoreReply(s.replies, reply, p);
      forall q: nat | q < |t.producers|
        ensures CalledBy(t.calls, q) == AnsweredTo(t.replies, q) + Pending(t.producers[q])
      {
        OneMoreReply(s.replies, reply, q);
      }
    }
  }

  lemma {:induction false} CallsRun(s: State, events: seq<Event>)
    requires Inv(s) && CallsOk(s)
    ensures CallsOk(Run(s, events))
    decreases |events|
  {
    if events != [] {
      hide Inv, Step, CallsOk;
      StepInv(s, events[0]);
      CallsStep(s, events[0]);
      CallsRun(Step(s, events[0]), events[1..]);
    }
  }

  /** Over all interleavings every call gets one answer: a caller that is not in threadpool_add has
      been answered for exactly the tasks it came with, in order.  And with no caller in it, the tasks
      accepted are exactly those of the calls answered with Added, in order. */
  lemma EveryCallAnswered(s: State, events: seq<Event>, p: nat)
    requires Init(s) && p < |s.producers|
    ensures var r := Reach(s, events);
            && CalledBy(r.calls, p) == AnsweredTo(r.replies, p) + Pending(r.producers[p])
            && (r.producers[p].Away? ==> CalledBy(r.calls, p) == AnsweredTo(r.replies, p))
            && r.accepted == AnsweredAdded(r.replies) + Unanswered(r)
            && (!r.lock.ProducerHolds? ==> r.accepted == AnsweredAdded(r.replies))
  {
    InitInv(s);
    assert CallsOk(s);
    hide Inv, Step;
    CallsRun(s, events);
  }

  // ---------- without interruption ----------

  lemma RunOn(s: State, e: Event, events: seq<Event>)
    requires Inv(s)
    ensures Inv(Step(s, e)) && Run(s, [e] + events) == Run(Step(s, e), events)
  {
    hide LockOk, WakeOk, WorkOk, EndOk, StartedOk, Step;
    StepInv(s, e);
    assert ([e] + events)[0] == e && ([e] + events)[1..] == events;
  }

  lemma NoMore(s: State)
    requires Inv(s)
    ensures Run(s, []) == s
  {
  }

  lemma RunFour(s: State, a: Event, b: Event, c: Event, d: Event) returns (t: State, u: State, v: State)
    requires Inv(s)
    ensures t == Step(s, a) && Inv(t) && u == Step(t, b) && Inv(u) && v == Step(u, c) && Inv(v)
    ensures Run(s, [a, b, c, d]) == Step(v, d)
  {
    hide LockOk, WakeOk, WorkOk, EndOk, StartedOk, Step;
    RunOn(s, a, [b, c, d]);
    t := Step(s, a);
    RunOn(t, b, [c, d]);
    u := Step(t, b);
    RunOn(u, c, [d]);
    v := Step(u, c);
    RunOn(v, d, []);
    NoMore(Step(v, d));
    assert [a, b, c, d] == [a] + [b, c, d] && [b, c, d] == [b] + [c, d] && [c, d] == [c] + [d] && [d] == [d] + [];
  }

  /** A call that nobody comes between is let in, answered and over at once: its task is at the end of
      the queue exactly if there was room and no shutdown. */
  lemma CallAlone(s: State, events: seq<Event>, p: nat, task: Task)
    requires Init(s) && p < |s.producers| && task.fn != 0
    requires Reach(s, events).lock.Nobody? && Reach(s, events).producers[p].Away?
    ensures var r := Reach(s, events);
            Inv(Step(r, Calls(p, task)))
    ensures var r := Reach(s, events);
            var t := Run(Step(r, Calls(p, task)), [ProducerStep(p), ProducerStep(p), ProducerStep(p), ProducerStep(p)]);
            var added := r.ring.count < |r.ring.slots| && !r.shutdown;
            && t.lock.Nobody? && t.producers[p].Away? && t.calls == r.calls + [Called(p, task)]
            && t.ring.Contents() == r.ring.Contents() + (if added then [task] else [])
            && t.accepted == r.accepted + (if added then [task] else [])
            && t.replies == r.replies
                 + [Replied(p, task, if added then Added else if r.ring.count == |r.ring.slots| then QueueFull else ShutDown)]
  {
    var r := Reach(s, events);
    var e := ProducerStep(p);
    StepInv(r, Calls(p, task));
    var _, _, _ := RunFour(Step(r, Calls(p, task)), e, e, e, e);
    if !r.ring.Full() {
      PushedAppends(r.ring, task);
    }
  }

  /** So is the oldest task run by a worker that nobody comes between. */
  lemma WorkAlone(s: State, events: seq<Event>, w: nat)
    requires Init(s) && w < |s.workers|
    requires Reach(s, events).lock.Nobody? && Reach(s, events).workers[w].Ready? && Reach(s, events).ring.count > 0
    ensures var r := Reach(s, events);
            var t := Run(r, [WorkerStep(w), WorkerStep(w), WorkerStep(w), WorkerStep(w)]);
            && t.lock.Nobody? && t.workers[w].Ready? && r.ring.Contents() == [r.ring.slots[r.ring.head]] + t.ring.Contents()
            && t.taken == r.taken + [r.ring.Contents()[0]] && t.finished == r.finished + {|r.taken|} && t.takers == r.takers + [w]
  {
    var r := Reach(s, events);
    var e := WorkerStep(w);
    var _, _, _ := RunFour(r, e, e, e, e);
    PoppedTakesFirst(r.ring);
  }

  /** And a destroyer that nobody comes between shuts the pool down and wakes everybody up. */
  lemma ShutDownAlone(s: State, events: seq<Event>)
    requires Init(s) && Reach(s, events).lock.Nobody? && Reach(s, events).destroyer.NotYet?
    ensures var r := Reach(s, events);
            var t := Run(r, [DestroyerStep, DestroyerStep, DestroyerStep, DestroyerStep]);
            && t.lock.Nobody? && t.shutdown && t.destroyer == Joining(0) && t.ring == r.ring
            && forall w | 0 <= w < |t.workers| :: t.workers[w] == if r.workers[w].Sleeping? then Woken else r.workers[w]
  {
    var e := DestroyerStep;
    var _, _, _ := RunFour(Reach(s, events), e, e, e, e);
  }
}
