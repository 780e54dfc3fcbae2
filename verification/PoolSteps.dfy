/** popcorn_threadpool.c: the pool's workers, its callers and the thread that destroys it, as an
    interleaving of steps between which the mutex may pass from one to the other. */
module PoolSteps {
  import opened ThreadPool

  /** threadpool_run.  Task numbers are positions in the order of acceptance. */
  datatype Worker =
    | Ready                // about to lock
    | Sleeping             // in pthread_cond_wait
    | Woken                // woken there, about to lock again
    | Holding              // has the lock, at the while test
    | Took(i: nat)         // has the lock and task i
    | Running(i: nat)
    | Dying                // has the lock, has left the loop
    | Parting              // has the lock, is no longer counted in started
    | Dead

  /** threadpool_add. */
  datatype Producer =
    | Away
    | Wants(task: Task)    // about to lock
    | Asking(task: Task)   // has the lock
    | Queued(task: Task)   // has the lock, has queued its task, is about to broadcast
    | Answered(task: Task, status: Status)   // has the lock, is about to unlock

  /** threadpool_destroy. */
  datatype Destroyer =
    | NotYet
    | Setting              // has the lock
    | Set                  // has the lock and set shutdown, is about to broadcast
    | Announced            // has the lock, is about to unlock
    | Joining(k: nat)      // has joined the first k workers
    | Freed
    | Kept                 // threadpool_free refused because a worker was counted in started

  datatype Holder = Nobody | WorkerHolds(w: nat) | ProducerHolds(p: nat) | DestroyerHolds

  /** A call of threadpool_add by caller p, and what it was answered. */
  datatype Call = Called(p: nat, task: Task)

  datatype Reply = Replied(p: nat, task: Task, status: Status)

  /** The pool, its threads and what has happened: the tasks accepted and taken, who took each,
      and which have been run to the end; and the calls and their answers. */
  datatype State = State(ring: Ring, shutdown: bool, started: int, lock: Holder,
                         workers: seq<Worker>, producers: seq<Producer>, destroyer: Destroyer,
                         accepted: seq<Task>, taken: seq<Task>, takers: seq<nat>, finished: set<nat>,
                         calls: seq<Call>, replies: seq<Reply>)

  ghost predicate Init(s: State) {
    && s.ring.Ok() && s.ring.Contents() == []
    && !s.shutdown && s.started == |s.workers| && s.lock.Nobody? && s.destroyer.NotYet?
    && (forall w | 0 <= w < |s.workers| :: s.workers[w].Ready?)
    && (forall p | 0 <= p < |s.producers| :: s.producers[p].Away?)
    && s.accepted == [] && s.taken == [] && s.takers == [] && s.finished == {}
    && s.calls == [] && s.replies == []
  }

  datatype Event =
    | WorkerStep(w: nat)
    | Spurious(w: nat)              // pthread_cond_wait returns unasked
    | Calls(p: nat, task: Task)     // a caller enters threadpool_add
    | ProducerStep(p: nat)
    | DestroyerStep

  function WithWorker(s: State, w: nat, pc: Worker): State
    requires w < |s.workers|
  {
    s.(workers := s.workers[w := pc])
  }

  function WithProducer(s: State, p: nat, pc: Producer): State
    requires p < |s.producers|
  {
    s.(producers := s.producers[p := pc])
  }

  function WakeAll(workers: seq<Worker>): (r: seq<Worker>)
    ensures |r| == |workers|
    ensures forall w | 0 <= w < |workers| :: r[w] == if workers[w].Sleeping? then Woken else workers[w]
  {
    seq(|workers|, w requires 0 <= w < |workers| => if workers[w].Sleeping? then Woken else workers[w])
  }

  ghost function StepWorker(s: State, w: nat): State
    requires w < |s.workers| && s.ring.Ok()
  {
    match s.workers[w]
    case Ready => if s.lock.Nobody? then WithWorker(s, w, Holding).(lock := WorkerHolds(w)) else s
    case Woken => if s.lock.Nobody? then WithWorker(s, w, Holding).(lock := WorkerHolds(w)) else s
    case Sleeping => s
    case Holding =>
      if s.ring.count == 0 && !s.shutdown then WithWorker(s, w, Sleeping).(lock := Nobody)
      else if s.ring.count == 0 then WithWorker(s, w, Dying)
      else
        WithWorker(s, w, Took(|s.taken|)).(ring := Popped(s.ring),
          taken := s.taken + [s.ring.slots[s.ring.head]], takers := s.takers + [w])
    case Took(i) => WithWorker(s, w, Running(i)).(lock := Nobody)
    case Running(i) => WithWorker(s, w, Ready).(finished := s.finished + {i})
    case Dying => WithWorker(s, w, Parting).(started := s.started - 1)
    case Parting => WithWorker(s, w, Dead).(lock := Nobody)
    case Dead => s
  }

  ghost function StepProducer(s: State, p: nat): State
    requires p < |s.producers| && s.ring.Ok()
  {
    match s.producers[p]
    case Away => s
    case Wants(task) => if s.lock.Nobody? then WithProducer(s, p, Asking(task)).(lock := ProducerHolds(p)) else s
    case Asking(task) =>
      var status := AddStatus(s.ring, s.shutdown);
      if status.Added? then WithProducer(s, p, Queued(task)).(ring := Pushed(s.ring, task), accepted := s.accepted + [task])
      else WithProducer(s, p, Answered(task, status))
    case Queued(task) => WithProducer(s, p, Answered(task, Added)).(workers := WakeAll(s.workers))
    case Answered(task, status) => WithProducer(s, p, Away).(lock := Nobody, replies := s.replies + [Replied(p, task, status)])
  }

  /** A null function is refused before anything else is looked at. */
  function Enter(s: State, p: nat, task: Task): State
    requires p < |s.producers|
  {
    var t := s.(calls := s.calls + [Called(p, task)]);
    if task.fn == 0 then t.(replies := s.replies + [Replied(p, task, Invalid)]) else WithProducer(t, p, Wants(task))
  }

  ghost function StepDestroyer(s: State): State {
    match s.destroyer
    case NotYet => if s.lock.Nobody? then s.(destroyer := Setting, lock := DestroyerHolds) else s
    case Setting => s.(destroyer := Set, shutdown := true)
    case Set => s.(destroyer := Announced, workers := WakeAll(s.workers))
    case Announced => s.(destroyer := Joining(0), lock := Nobody)
    case Joining(k) =>
      if k < |s.workers| then (if s.workers[k].Dead? then s.(destroyer := Joining(k + 1)) else s)
      else s.(destroyer := if s.started > 0 then Kept else Freed)
    case Freed => s
    case Kept => s
  }

  /** The state after an event; an event that is not possible changes nothing. */
  ghost function Step(s: State, e: Event): State
    requires s.ring.Ok()
  {
    match e
    case WorkerStep(w) => if w < |s.workers| then StepWorker(s, w) else s
    case Spurious(w) => if w < |s.workers| && s.workers[w].Sleeping? then WithWorker(s, w, Woken) else s
    case Calls(p, task) => if p < |s.producers| && s.producers[p].Away? then Enter(s, p, task) else s
    case ProducerStep(p) => if p < |s.producers| then StepProducer(s, p) else s
    case DestroyerStep => StepDestroyer(s)
  }

  // ---------- invariants ----------

  predicate WorkerLocks(pc: Worker) {
    pc.Holding? || pc.Took? || pc.Dying? || pc.Parting?
  }

  predicate ProducerLocks(pc: Producer) {
    pc.Asking? || pc.Queued? || pc.Answered?
  }

  predicate DestroyerLocks(pc: Destroyer) {
    pc.Setting? || pc.Set? || pc.Announced?
  }

  /** The mutex excludes: whoever is in a critical section is its one holder. */
  ghost predicate LockOk(s: State) {
    && (forall w | 0 <= w < |s.workers| :: WorkerLocks(s.workers[w]) <==> s.lock == WorkerHolds(w))
    && (forall p | 0 <= p < |s.producers| :: ProducerLocks(s.producers[p]) <==> s.lock == ProducerHolds(p))
    && (DestroyerLocks(s.destroyer) <==> s.lock == DestroyerHolds)
    && (s.lock.WorkerHolds? ==> s.lock.w < |s.workers|)
    && (s.lock.ProducerHolds? ==> s.lock.p < |s.producers|)
  }

  /** Tasks leave the queue in the order they were accepted in. */
  ghost predicate QueueOk(s: State) {
    s.ring.Ok() && s.accepted == s.taken + s.ring.Contents()
  }

  /** Somebody holds the lock and is about to broadcast. */
  predicate Announcing(s: State) {
    || (s.lock.ProducerHolds? && s.lock.p < |s.producers| && s.producers[s.lock.p].Queued?)
    || s.destroyer.Set?
  }

  /** A worker sleeps only while there is nothing to do, or is about to be woken. */
  ghost predicate WakeOk(s: State) {
    s.ring.count > 0 || s.shutdown ==>
      Announcing(s) || forall w | 0 <= w < |s.workers| :: !s.workers[w].Sleeping?
  }

  predicate Has(s: State, w: nat, i: nat) {
    w < |s.workers| && (s.workers[w] == Took(i) || s.workers[w] == Running(i))
  }

  /** Task i has been run, or is with the worker that took it. */
  predicate Served(s: State, i: nat)
    requires i < |s.takers|
  {
    i in s.finished || Has(s, s.takers[i], i)
  }

  /** Every task taken is with the one worker that took it, or has been run. */
  ghost predicate WorkOk(s: State) {
    && |s.takers| == |s.taken|
    && (forall i {:trigger Served(s, i)} | 0 <= i < |s.taken| :: Served(s, i))
    && (forall i | i in s.finished :: i < |s.taken|)
    && (forall w: nat, i: nat {:trigger Has(s, w, i)} | Has(s, w, i) :: i < |s.taken| && s.takers[i] == w && i !in s.finished)
  }

  predicate Leaves(pc: Worker) {
    pc.Dying? || pc.Parting? || pc.Dead?
  }

  /** Workers leave only a pool that is shut down and drained. */
  ghost predicate EndOk(s: State) {
    && (s.shutdown <==> !s.destroyer.NotYet? && !s.destroyer.Setting?)
    && (forall w | 0 <= w < |s.workers| && Leaves(s.workers[w]) :: s.shutdown && s.ring.count == 0)
    && (s.destroyer.Joining? ==> s.destroyer.k <= |s.workers|)
    && (s.destroyer.Joining? ==> forall w | 0 <= w < s.destroyer.k :: s.workers[w].Dead?)
    && (s.destroyer.Freed? || s.destroyer.Kept? ==> forall w | 0 <= w < |s.workers| :: s.workers[w].Dead?)
  }

  function Counted(pc: Worker): nat {
    if pc.Parting? || pc.Dead? then 0 else 1
  }

  function Alive(workers: seq<Worker>): nat {
    if workers == [] then 0 else Counted(workers[0]) + Alive(workers[1..])
  }

  /** `started` counts the workers that have not left. */
  ghost predicate StartedOk(s: State) {
    s.started == Alive(s.workers) && !s.destroyer.Kept?
  }

  ghost predicate Inv(s: State) {
    LockOk(s) && QueueOk(s) && WakeOk(s) && WorkOk(s) && EndOk(s) && StartedOk(s)
  }

  lemma {:induction false} AliveUpdate(workers: seq<Worker>, w: nat, pc: Worker)
    requires w < |workers|
    ensures Alive(workers[w := pc]) == Alive(workers) - Counted(workers[w]) + Counted(pc)
  {
    if w == 0 {
      assert workers[w := pc][1..] == workers[1..];
    } else {
      assert workers[w := pc][1..] == workers[1..][w - 1 := pc];
      AliveUpdate(workers[1..], w - 1, pc);
    }
  }

  lemma {:induction false} AliveWake(workers: seq<Worker>)
    ensures Alive(WakeAll(workers)) == Alive(workers)
  {
    if workers != [] {
      assert WakeAll(workers)[1..] == WakeAll(workers[1..]);
      AliveWake(workers[1..]);
    }
  }

  lemma {:induction false} NoneAlive(workers: seq<Worker>)
    requires forall w | 0 <= w < |workers| :: workers[w].Dead?
    ensures Alive(workers) == 0
  {
    if workers != [] {
      NoneAlive(workers[1..]);
    }
  }

  lemma {:induction false} AllAlive(workers: seq<Worker>)
    requires forall w | 0 <= w < |workers| :: workers[w].Ready?
    ensures Alive(workers) == |workers|
  {
    if workers != [] {
      AllAlive(workers[1..]);
    }
  }

  lemma InitInv(s: State)
    requires Init(s)
    ensures Inv(s)
  {
    AllAlive(s.workers);
  }

  lemma WorkerInv(s: State, w: nat)
    requires Inv(s) && w < |s.workers|
    ensures Inv(StepWorker(s, w))
  {
    WorkerLock(s, w);
    WorkerQueue(s, w);
    WorkerWake(s, w);
    WorkerWork(s, w);
    WorkerEnd(s, w);
    WorkerStarted(s, w);
  }

  lemma WorkerLock(s: State, w: nat)
    requires LockOk(s) && s.ring.Ok() && w < |s.workers|
    ensures LockOk(StepWorker(s, w))
  {
  }

  lemma WorkerWake(s: State, w: nat)
    requires LockOk(s) && WakeOk(s) && s.ring.Ok() && w < |s.workers|
    ensures WakeOk(StepWorker(s, w))
  {
    var t := StepWorker(s, w);
    assert Announcing(s) ==> t == s || s.workers[w].Running?;
  }

  lemma WorkerEnd(s: State, w: nat)
    requires EndOk(s) && LockOk(s) && s.ring.Ok() && w < |s.workers|
    ensures EndOk(StepWorker(s, w))
  {
  }

  lemma OneMoves(s: State, w: nat)
    requires s.ring.Ok() && w < |s.workers|
    ensures var t := StepWorker(s, w);
            && |t.workers| == |s.workers| && t.workers == s.workers[w := t.workers[w]]
            && t.started - s.started == Counted(t.workers[w]) - Counted(s.workers[w])
            && t.destroyer == s.destroyer
  {
  }

  lemma WorkerStarted(s: State, w: nat)
    requires StartedOk(s) && s.ring.Ok() && w < |s.workers|
    ensures StartedOk(StepWorker(s, w))
  {
    hide Alive, Ring.Ok, Popped;
    var t := StepWorker(s, w);
    OneMoves(s, w);
    hide StepWorker;
    AliveUpdate(s.workers, w, t.workers[w]);
  }

  lemma WorkerQueue(s: State, w: nat)
    requires QueueOk(s) && w < |s.workers|
    ensures QueueOk(StepWorker(s, w))
  {
    if s.ring.count > 0 {
      PoppedTakesFirst(s.ring);
    }
  }

  lemma WorkerWork(s: State, w: nat)
    requires QueueOk(s) && WorkOk(s) && w < |s.workers|
    ensures WorkOk(StepWorker(s, w))
  {
    var t := StepWorker(s, w);
    assert s.workers[w].Running? ==> Has(s, w, s.workers[w].i);
    assert s.workers[w].Took? ==> Has(s, w, s.workers[w].i);
    forall i | 0 <= i < |t.taken|
      ensures Served(t, i)
    {
      assert i < |s.taken| ==> Served(s, i);
    }
    forall u: nat, i: nat | Has(t, u, i)
      ensures i < |t.taken| && t.takers[i] == u && i !in t.finished
    {
      assert Has(s, u, i) || (u == w && s.workers[w].Holding?);
    }
  }

  lemma SpuriousInv(s: State, w: nat)
    requires Inv(s) && w < |s.workers| && s.workers[w].Sleeping?
    ensures Inv(WithWorker(s, w, Woken))
  {
    var t := WithWorker(s, w, Woken);
    AliveUpdate(s.workers, w, Woken);
    SameWork(s, t);
  }

  /** Steps that leave running workers where they are leave the account of their work alone. */
  lemma SameWork(s: State, t: State)
    requires WorkOk(s) && t.taken == s.taken && t.takers == s.takers && t.finished == s.finished
    requires |t.workers| == |s.workers|
    requires forall w | 0 <= w < |s.workers| :: s.workers[w] == t.workers[w] || (s.workers[w].Sleeping? && t.workers[w].Woken?)
    ensures WorkOk(t)
  {
    forall i | 0 <= i < |t.taken|
      ensures Served(t, i)
    {
      assert Served(s, i);
    }
    forall u: nat, i: nat | Has(t, u, i)
      ensures i < |t.taken| && t.takers[i] == u && i !in t.finished
    {
      assert Has(s, u, i);
    }
  }

  lemma ProducerInv(s: State, p: nat)
    requires Inv(s) && p < |s.producers|
    ensures Inv(StepProducer(s, p))
  {
    ProducerLock(s, p);
    ProducerQueue(s, p);
    ProducerWake(s, p);
    SameWork(s, StepProducer(s, p));
    ProducerEnd(s, p);
    AliveWake(s.workers);
  }

  lemma ProducerLock(s: State, p: nat)
    requires LockOk(s) && s.ring.Ok() && p < |s.producers|
    ensures LockOk(StepProducer(s, p))
  {
  }

  lemma ProducerQueue(s: State, p: nat)
    requires QueueOk(s) && p < |s.producers|
    ensures QueueOk(StepProducer(s, p))
  {
    if s.producers[p].Asking? && !s.ring.Full() {
      PushedAppends(s.ring, s.producers[p].task);
    }
  }

  lemma ProducerWake(s: State, p: nat)
    requires LockOk(s) && WakeOk(s) && s.ring.Ok() && p < |s.producers|
    ensures WakeOk(StepProducer(s, p))
  {
    assert ProducerLocks(s.producers[p]) ==> s.lock == ProducerHolds(p);
  }

  lemma ProducerEnd(s: State, p: nat)
    requires EndOk(s) && s.ring.Ok() && p < |s.producers|
    ensures EndOk(StepProducer(s, p))
  {
  }

  lemma DestroyerInv(s: State)
    requires Inv(s)
    ensures Inv(StepDestroyer(s))
  {
    DestroyerLock(s);
    SameWork(s, StepDestroyer(s));
    DestroyerEnd(s);
    AliveWake(s.workers);
    if s.destroyer.Joining? && s.destroyer.k == |s.workers| {
      NoneAlive(s.workers);
    }
  }

  lemma DestroyerLock(s: State)
    requires LockOk(s)
    ensures LockOk(StepDestroyer(s))
  {
  }

  lemma DestroyerEnd(s: State)
    requires EndOk(s)
    ensures EndOk(StepDestroyer(s))
  {
  }

  lemma CallInv(s: State, p: nat, task: Task)
    requires Inv(s) && p < |s.producers| && s.producers[p].Away?
    ensures Inv(Enter(s, p, task))
  {
    SameWork(s, Enter(s, p, task));
  }

  lemma StepSizes(s: State, e: Event)
    requires s.ring.Ok()
    ensures |Step(s, e).workers| == |s.workers| && |Step(s, e).producers| == |s.producers|
  {
  }

  lemma StepInv(s: State, e: Event)
    requires Inv(s)
    ensures Inv(Step(s, e))
  {
    hide StepWorker, StepProducer, StepDestroyer, LockOk, WakeOk, WorkOk, EndOk, StartedOk;
    match e {
      case WorkerStep(w) => if w < |s.workers| { WorkerInv(s, w); }
      case Spurious(w) => if w < |s.workers| && s.workers[w].Sleeping? { SpuriousInv(s, w); }
      case Calls(p, task) =>
        if p < |s.producers| && s.producers[p].Away? {
          CallInv(s, p, task);
        }
      case ProducerStep(p) => if p < |s.producers| { ProducerInv(s, p); }
      case DestroyerStep => DestroyerInv(s);
    }
  }
}
