/** processing.c: parallel regions, each forked by handing out work items to the thread pool and
    joined at the pool's one barrier, as interleaved atomic steps.  The barrier admits `n` threads
    (max == nthreads); the pool has any number of workers, at least n - 1. */
module ForkJoin {
  import opened Barrier

  /** Work item `index` of a parallel region. */
  datatype Item = Item(region: nat, index: nat)

  /** bomp_thread_fn in a worker of the pool.  `gen` is the generation a thread at the barrier has
      counted itself in for. */
  datatype Worker =
    | Idle
    | Working(item: Item)
    | Finished
    | AtBarrier(pc: Pc, gen: nat)

  datatype Master =
    | Between                       // outside any region
    | Adding(i: nat)                // bomp_start_processing is about to add item i
    | InRegion                      // runs the region's function itself
    | AtEnd(pc: Pc, gen: nat)       // bomp_end_processing

  /** `region` counts the regions the master has left, `flips` the barrier's generations. */
  datatype State = State(n: nat, capacity: nat, cycle: bool, counter: nat, flips: nat, queue: seq<Item>,
                         workers: seq<Worker>, master: Master, region: nat, taken: seq<Item>, completed: set<Item>)

  ghost predicate Init(s: State) {
    && !s.cycle && s.counter == 0 && s.flips == 0 && s.queue == [] && s.master.Between?
    && s.region == 0 && s.taken == [] && s.completed == {}
    && forall w | 0 <= w < |s.workers| :: s.workers[w].Idle?
  }

  function WithWorker(s: State, w: nat, pc: Worker): State
    requires w < |s.workers|
  {
    s.(workers := s.workers[w := pc])
  }

  function Flips(pc: Pc): nat {
    if pc.Flipping? then 1 else 0
  }

  /** The generation after a step: a thread that counts itself in joins the current one. */
  function Gen(pc: Pc, gen: nat, flips: nat): nat {
    if pc.Read? then flips else gen
  }

  function StepWorker(s: State, w: nat): State
    requires w < |s.workers|
  {
    match s.workers[w]
    case Idle =>
      if s.queue == [] then s
      else WithWorker(s, w, Working(s.queue[0])).(queue := s.queue[1..], taken := s.taken + [s.queue[0]])
    case Working(item) => WithWorker(s, w, Finished).(completed := s.completed + {item})
    case Finished => WithWorker(s, w, AtBarrier(Read(s.cycle), 0))
    case AtBarrier(pc, gen) =>
      var (next, cycle, counter) := Wait(s.n, s.cycle, s.counter, pc);
      WithWorker(s, w, if next.Outside? then Idle else AtBarrier(next, Gen(pc, gen, s.flips)))
        .(cycle := cycle, counter := counter, flips := s.flips + Flips(pc))
  }

  function StepMaster(s: State): State {
    match s.master
    case Between => s.(master := Adding(1))
    case Adding(i) =>
      if i >= s.n then s.(master := InRegion)
      else s.(master := Adding(i + 1),
              // threadpool_add refuses the item when the queue is full, and nobody looks
              queue := if |s.queue| < s.capacity then s.queue + [Item(s.region, i)] else s.queue)
    case InRegion => s.(master := AtEnd(Read(s.cycle), 0))
    case AtEnd(pc, gen) =>
      var (next, cycle, counter) := Wait(s.n, s.cycle, s.counter, pc);
      s.(master := if next.Outside? then Between else AtEnd(next, Gen(pc, gen, s.flips)),
         region := if next.Outside? then s.region + 1 else s.region,
         cycle := cycle, counter := counter, flips := s.flips + Flips(pc))
  }

  // ---------- counting workers ----------

  datatype Class =
    | Busy      // has an item it has not brought to the barrier
    | Arrived   // counted in for the current generation
    | Closing   // between counting itself in last and flipping
    | Stale     // spins although its generation is over
    | Old       // spins although a whole later generation is over, too

  predicate ClosingPc(pc: Pc) {
    pc.Last? || pc.Zeroed? || pc.Flipping?
  }

  function Weight(k: Class, flips: nat, w: Worker): nat {
    var at := w.AtBarrier? && !w.pc.Read?;
    match k
    case Busy => if w.Working? || w.Finished? || (w.AtBarrier? && w.pc.Read?) then 1 else 0
    case Arrived => if at && w.gen == flips then 1 else 0
    case Closing => if at && ClosingPc(w.pc) then 1 else 0
    case Stale => if at && w.gen < flips then 1 else 0
    case Old => if at && w.gen + 1 < flips then 1 else 0
  }

  function Total(k: Class, flips: nat, workers: seq<Worker>): nat {
    if workers == [] then 0 else Weight(k, flips, workers[0]) + Total(k, flips, workers[1..])
  }

  lemma {:induction false} TotalUpdate(k: Class, flips: nat, workers: seq<Worker>, w: nat, pc: Worker)
    requires w < |workers|
    ensures Total(k, flips, workers[w := pc])
            == Total(k, flips, workers) - Weight(k, flips, workers[w]) + Weight(k, flips, pc)
    ensures Weight(k, flips, workers[w]) <= Total(k, flips, workers)
  {
    if w == 0 {
      assert workers[w := pc][1..] == workers[1..];
    } else {
      assert workers[w := pc][1..] == workers[1..][w - 1 := pc];
      TotalUpdate(k, flips, workers[1..], w - 1, pc);
    }
  }

  /** Who has arrived is not stale, and the other way round; a flip makes the stale old. */
  lemma {:induction false} TotalFlip(flips: nat, workers: seq<Worker>)
    requires forall w | 0 <= w < |workers| && workers[w].AtBarrier? && !workers[w].pc.Read? :: workers[w].gen <= flips
    ensures Total(Arrived, flips + 1, workers) == 0
    ensures Total(Old, flips + 1, workers) + Total(Arrived, flips, workers) + Total(Busy, flips, workers) <= |workers|
    ensures Total(Busy, flips + 1, workers) == Total(Busy, flips, workers)
    ensures Total(Closing, flips + 1, workers) == Total(Closing, flips, workers)
  {
    if workers != [] {
      TotalFlip(flips, workers[1..]);
    }
  }

  /** A count of 0 leaves nobody. */
  lemma {:induction false} TotalZero(k: Class, flips: nat, workers: seq<Worker>)
    requires Total(k, flips, workers) == 0
    ensures forall w | 0 <= w < |workers| :: Weight(k, flips, workers[w]) == 0
  {
    if workers != [] {
      TotalZero(k, flips, workers[1..]);
    }
  }

  lemma {:induction false} TotalIdle(k: Class, flips: nat, workers: seq<Worker>)
    requires forall w | 0 <= w < |workers| :: workers[w].Idle?
    ensures Total(k, flips, workers) == 0
  {
    if workers != [] {
      TotalIdle(k, flips, workers[1..]);
    }
  }

  // ---------- invariants ----------

  function MasterArrived(s: State): nat {
    if s.master.AtEnd? && !s.master.pc.Read? && s.master.gen == s.flips then 1 else 0
  }

  function MasterClosing(s: State): nat {
    if s.master.AtEnd? && ClosingPc(s.master.pc) then 1 else 0
  }

  /** Items the master has still to add in the region it is in. */
  function ToAdd(s: State): int {
    if s.master.Adding? then s.n - s.master.i else 0
  }

  /** The master is in no region, or will be when it next looks at the barrier. */
  predicate Over(s: State) {
    s.master.Between? || (s.master.AtEnd? && s.master.pc.Waiting? && s.master.gen < s.flips)
  }

  /** Every item of the region is still to be added, queued, with a worker, or has been brought
      to the barrier: none is lost, and none counts twice. */
  predicate ItemsConserved(s: State) {
    Total(Arrived, s.flips, s.workers) + Total(Busy, s.flips, s.workers) + |s.queue| + ToAdd(s)
    == if Over(s) then 0 else s.n - 1
  }

  /** The barrier counts the arrivals of the current generation and nothing else. */
  predicate CounterOk(s: State) {
    var arrived := Total(Arrived, s.flips, s.workers) + MasterArrived(s);
    var closing := Total(Closing, s.flips, s.workers) + MasterClosing(s);
    && closing <= 1
    && (if closing == 0 then s.counter == arrived < s.n else arrived == s.n)
  }

  /** What a thread at the barrier knows about the generation it is in. */
  predicate AtBarrierOk(s: State, pc: Pc, gen: nat) {
    match pc
    case Outside => false
    case Read(c) => c == s.cycle
    case Waiting(c) => gen <= s.flips && c == (gen % 2 == 1)
    case Last => gen == s.flips && s.counter == s.n
    case Zeroed => gen == s.flips && s.counter == 0
    case Flipping(c) => gen == s.flips && s.counter == 0 && c == s.cycle
  }

  predicate WorkerOk(s: State, w: nat)
    requires w < |s.workers|
  {
    s.workers[w].AtBarrier? ==> AtBarrierOk(s, s.workers[w].pc, s.workers[w].gen)
  }

  predicate MasterOk(s: State) {
    && (s.master.Adding? ==> 1 <= s.master.i <= s.n)
    && (s.master.AtEnd? ==> AtBarrierOk(s, s.master.pc, s.master.gen))
    && (s.master.AtEnd? && s.master.pc.Waiting? ==> s.flips <= s.master.gen + 1)
    && s.flips == s.region + if Over(s) && !s.master.Between? then 1 else 0
  }

  /** All workers but n - 1 at most have missed a flip. */
  predicate FewOld(s: State) {
    Total(Old, s.flips, s.workers) + s.n - 1 <= |s.workers|
  }

  /** The items of the regions before `region`, and the first ones of that region up to `i`,
      in the order they are added in. */
  function Items(n: nat, region: nat, i: nat): seq<Item>
    decreases region, i
  {
    if i > 1 then Items(n, region, i - 1) + [Item(region, i - 1)]
    else if region > 0 then Items(n, region - 1, n)
    else []
  }

  function AddedSoFar(s: State): seq<Item> {
    Items(s.n, s.region, if s.master.Between? then 1 else if s.master.Adding? then s.master.i else s.n)
  }

  predicate HasItem(s: State, w: nat, item: Item) {
    w < |s.workers| && s.workers[w] == Working(item)
  }

  ghost predicate Worked(s: State, item: Item) {
    item in s.completed || exists w: nat :: HasItem(s, w, item)
  }

  /** Items are taken in the order they are added in, and whatever was taken is being worked on
      or completed. */
  ghost predicate LogOk(s: State) {
    && s.taken + s.queue == AddedSoFar(s)
    && forall i | 0 <= i < |s.taken| :: Worked(s, s.taken[i])
  }

  ghost predicate Inv(s: State) {
    && s.n >= 1 && s.n - 1 <= |s.workers| && s.n - 1 <= s.capacity
    && s.cycle == (s.flips % 2 == 1)
    && ItemsConserved(s) && CounterOk(s) && MasterOk(s) && FewOld(s) && LogOk(s)
    && forall w {:trigger WorkerOk(s, w)} | 0 <= w < |s.workers| :: WorkerOk(s, w)
  }

  lemma InitInv(s: State)
    requires Init(s) && s.n >= 1 && s.n - 1 <= |s.workers| && s.n - 1 <= s.capacity
    ensures Inv(s)
  {
    TotalIdle(Arrived, 0, s.workers);
    TotalIdle(Busy, 0, s.workers);
    TotalIdle(Closing, 0, s.workers);
    TotalIdle(Old, 0, s.workers);
  }

  // ---------- a worker's step ----------

  lemma Counts(s: State, w: nat, pc: Worker)
    requires w < |s.workers|
    ensures forall k {:trigger Total(k, s.flips, s.workers)} ::
              && Total(k, s.flips, s.workers[w := pc])
                 == Total(k, s.flips, s.workers) - Weight(k, s.flips, s.workers[w]) + Weight(k, s.flips, pc)
              && Weight(k, s.flips, s.workers[w]) <= Total(k, s.flips, s.workers)
  {
    forall k: Class
      ensures Total(k, s.flips, s.workers[w := pc])
              == Total(k, s.flips, s.workers) - Weight(k, s.flips, s.workers[w]) + Weight(k, s.flips, pc)
      ensures Weight(k, s.flips, s.workers[w]) <= Total(k, s.flips, s.workers)
    {
      TotalUpdate(k, s.flips, s.workers, w, pc);
    }
  }

  /** Where one thread closes the generation, no other does; where one is still busy, none does. */
  lemma OthersOpen(s: State, w: nat)
    requires Inv(s) && w < |s.workers|
    requires Weight(Busy, s.flips, s.workers[w]) == 1 || Weight(Closing, s.flips, s.workers[w]) == 1
    ensures MasterClosing(s) == 0
    ensures forall u | 0 <= u < |s.workers| && u != w :: Weight(Closing, s.flips, s.workers[u]) == 0
    ensures Weight(Busy, s.flips, s.workers[w]) == 1 ==>
              s.counter == Total(Arrived, s.flips, s.workers) + MasterArrived(s) < s.n
  {
    Counts(s, w, Idle);
    assert Total(Closing, s.flips, s.workers[w := Idle]) == 0;
    TotalZero(Closing, s.flips, s.workers[w := Idle]);
    forall u | 0 <= u < |s.workers| && u != w
      ensures Weight(Closing, s.flips, s.workers[u]) == 0
    {
      assert s.workers[w := Idle][u] == s.workers[u];
    }
  }

  /** While a generation is being closed, everybody has arrived. */
  lemma NoneBusy(s: State)
    requires Inv(s) && Total(Closing, s.flips, s.workers) + MasterClosing(s) == 1
    ensures Total(Busy, s.flips, s.workers) == 0 && s.queue == [] && ToAdd(s) == 0
    ensures Total(Arrived, s.flips, s.workers) == s.n - 1 && MasterArrived(s) == 1 && !Over(s)
    ensures forall u | 0 <= u < |s.workers| :: Weight(Busy, s.flips, s.workers[u]) == 0
  {
    TotalZero(Busy, s.flips, s.workers);
  }

  /** The steps before the barrier and out of it. */
  lemma PlainStep(s: State, w: nat)
    requires Inv(s) && w < |s.workers|
    requires s.workers[w].AtBarrier? ==> s.workers[w].pc.Waiting?
    ensures Inv(StepWorker(s, w))
  {
    hide LogOk, Items, Wait;
    PlainLog(s, w);
    PlainOthers(s, w);
    PlainCounts(s, w);
    PlainFrame(s, w);
  }

  lemma PlainFrame(s: State, w: nat)
    requires w < |s.workers| && (s.workers[w].AtBarrier? ==> s.workers[w].pc.Waiting?)
    ensures var t := StepWorker(s, w);
            && t.n == s.n && t.capacity == s.capacity && |t.workers| == |s.workers|
            && t.master == s.master && t.region == s.region
            && t.flips == s.flips && t.cycle == s.cycle && t.counter == s.counter
  {
  }

  lemma PlainCounts(s: State, w: nat)
    requires w < |s.workers| && ItemsConserved(s) && CounterOk(s) && FewOld(s) && WorkerOk(s, w)
    requires s.cycle == (s.flips % 2 == 1)
    requires s.workers[w].AtBarrier? ==> s.workers[w].pc.Waiting?
    ensures ItemsConserved(StepWorker(s, w)) && CounterOk(StepWorker(s, w)) && FewOld(StepWorker(s, w))
  {
    hide Total;
    Counts(s, w, StepWorker(s, w).workers[w]);
    PlainFrame(s, w);
  }

  lemma PlainOthers(s: State, w: nat)
    requires w < |s.workers| && (s.workers[w].AtBarrier? ==> s.workers[w].pc.Waiting?)
    requires forall u {:trigger WorkerOk(s, u)} | 0 <= u < |s.workers| :: WorkerOk(s, u)
    ensures forall u {:trigger WorkerOk(StepWorker(s, w), u)} | 0 <= u < |s.workers| :: WorkerOk(StepWorker(s, w), u)
  {
    forall u | 0 <= u < |s.workers|
      ensures WorkerOk(StepWorker(s, w), u)
    {
      assert WorkerOk(s, u) && WorkerOk(s, w);
    }
  }

  lemma PlainLog(s: State, w: nat)
    requires LogOk(s) && w < |s.workers|
    requires s.workers[w].AtBarrier? ==> s.workers[w].pc.Waiting?
    ensures LogOk(StepWorker(s, w))
  {
    var t := StepWorker(s, w);
    forall i | 0 <= i < |t.taken|
      ensures Worked(t, t.taken[i])
    {
      if i < |s.taken| {
        KeepsWorking(s, w, s.taken[i]);
      } else {
        assert HasItem(t, w, t.taken[i]);
      }
    }
  }

  lemma KeepsWorking(s: State, w: nat, item: Item)
    requires Worked(s, item) && w < |s.workers|
    ensures Worked(StepWorker(s, w), item)
  {
    if item !in s.completed {
      var u: nat :| HasItem(s, u, item);
      assert u != w ==> HasItem(StepWorker(s, w), u, item);
    }
  }

  lemma BarrierLog(s: State, w: nat)
    requires LogOk(s) && w < |s.workers| && s.workers[w].AtBarrier?
    ensures LogOk(StepWorker(s, w))
  {
    forall i | 0 <= i < |s.taken|
      ensures Worked(StepWorker(s, w), s.taken[i])
    {
      KeepsWorking(s, w, s.taken[i]);
    }
  }

  lemma ArriveStep(s: State, w: nat)
    requires Inv(s) && w < |s.workers| && s.workers[w].AtBarrier? && s.workers[w].pc.Read?
    ensures Inv(StepWorker(s, w))
  {
    hide LogOk, Items;
    var t := StepWorker(s, w);
    Counts(s, w, t.workers[w]);
    OthersOpen(s, w);
    assert WorkerOk(s, w);
    forall u | 0 <= u < |t.workers|
      ensures WorkerOk(t, u)
    {
      assert WorkerOk(s, u);
    }
    BarrierLog(s, w);
  }

  lemma CloseStep(s: State, w: nat)
    requires Inv(s) && w < |s.workers| && s.workers[w].AtBarrier? && (s.workers[w].pc.Last? || s.workers[w].pc.Zeroed?)
    ensures Inv(StepWorker(s, w))
  {
    hide LogOk, Items;
    var t := StepWorker(s, w);
    Counts(s, w, t.workers[w]);
    OthersOpen(s, w);
    assert WorkerOk(s, w);
    forall u | 0 <= u < |t.workers|
      ensures WorkerOk(t, u)
    {
      assert WorkerOk(s, u);
    }
    BarrierLog(s, w);
  }

  lemma FlipStep(s: State, w: nat)
    requires Inv(s) && w < |s.workers| && s.workers[w].AtBarrier? && s.workers[w].pc.Flipping?
    ensures Inv(StepWorker(s, w))
  {
    var t := StepWorker(s, w);
    Counts(s, w, Idle);
    OthersOpen(s, w);
    NoneBusy(s);
    FlipCounts(s, w);
    assert WorkerOk(s, w);
    forall u | 0 <= u < |t.workers|
      ensures WorkerOk(t, u)
    {
      assert WorkerOk(s, u);
    }
    BarrierLog(s, w);
  }

  lemma GensOk(s: State)
    requires Inv(s)
    ensures forall w | 0 <= w < |s.workers| && s.workers[w].AtBarrier? && !s.workers[w].pc.Read? ::
              s.workers[w].gen <= s.flips
  {
    forall w | 0 <= w < |s.workers| && s.workers[w].AtBarrier? && !s.workers[w].pc.Read?
      ensures s.workers[w].gen <= s.flips
    {
      assert WorkerOk(s, w);
    }
  }

  /** The counts after worker w has flipped and left. */
  lemma FlipCounts(s: State, w: nat)
    requires Inv(s) && w < |s.workers| && s.workers[w].AtBarrier? && s.workers[w].pc.Flipping?
    ensures var after := s.workers[w := Idle];
            && Total(Arrived, s.flips + 1, after) == 0
            && Total(Busy, s.flips + 1, after) == Total(Busy, s.flips, s.workers) == 0
            && Total(Closing, s.flips + 1, after) == Total(Closing, s.flips, s.workers) - 1
            && Total(Old, s.flips + 1, after) + s.n - 1 <= |s.workers|
  {
    Counts(s, w, Idle);
    NoneBusy(s);
    GensOk(s);
    TotalFlip(s.flips, s.workers);
    TotalUpdate(Arrived, s.flips + 1, s.workers, w, Idle);
    TotalUpdate(Busy, s.flips + 1, s.workers, w, Idle);
    TotalUpdate(Closing, s.flips + 1, s.workers, w, Idle);
    TotalUpdate(Old, s.flips + 1, s.workers, w, Idle);
  }

  lemma WorkerInv(s: State, w: nat)
    requires Inv(s) && w < |s.workers|
    ensures Inv(StepWorker(s, w))
  {
    assert WorkerOk(s, w);
    if !s.workers[w].AtBarrier? || s.workers[w].pc.Waiting? {
      PlainStep(s, w);
    } else if s.workers[w].pc.Read? {
      ArriveStep(s, w);
    } else if s.workers[w].pc.Flipping? {
      FlipStep(s, w);
    } else {
      CloseStep(s, w);
    }
  }

  // ---------- the master's step ----------

  lemma MasterLog(s: State)
    requires Inv(s)
    ensures LogOk(StepMaster(s))
  {
    var t := StepMaster(s);
    forall i | 0 <= i < |t.taken|
      ensures Worked(t, t.taken[i])
    {
      SameWorked(s, t, t.taken[i]);
    }
    assert s.master.Adding? && s.master.i < s.n ==> |s.queue| < s.capacity;
    assert t.taken + t.queue == AddedSoFar(t);
  }

  lemma SameWorked(s: State, t: State, item: Item)
    requires Worked(s, item) && t.workers == s.workers && t.completed == s.completed
    ensures Worked(t, item)
  {
    if item !in s.completed {
      var u: nat :| HasItem(s, u, item);
      assert HasItem(t, u, item);
    }
  }

  lemma MasterPlain(s: State)
    requires Inv(s) && (s.master.AtEnd? ==> s.master.pc.Waiting?)
    ensures Inv(StepMaster(s))
  {
    var t := StepMaster(s);
    MasterLog(s);
    hide LogOk, Items;
    forall u | 0 <= u < |t.workers|
      ensures WorkerOk(t, u)
    {
      assert WorkerOk(s, u);
    }
  }

  lemma MasterCloses(s: State)
    requires Inv(s) && s.master.AtEnd? && !s.master.pc.Waiting? && !s.master.pc.Flipping?
    ensures Inv(StepMaster(s))
  {
    var t := StepMaster(s);
    MasterLog(s);
    hide LogOk, Items;
    TotalZero(Closing, s.flips, s.workers);
    forall u | 0 <= u < |t.workers|
      ensures WorkerOk(t, u)
    {
      assert WorkerOk(s, u);
    }
  }

  lemma MasterFlips(s: State)
    requires Inv(s) && s.master.AtEnd? && s.master.pc.Flipping?
    ensures Inv(StepMaster(s))
  {
    var t := StepMaster(s);
    MasterLog(s);
    hide LogOk, Items;
    NoneBusy(s);
    GensOk(s);
    TotalFlip(s.flips, s.workers);
    TotalZero(Closing, s.flips, s.workers);
    forall u | 0 <= u < |t.workers|
      ensures WorkerOk(t, u)
    {
      assert WorkerOk(s, u);
    }
  }

  lemma MasterInv(s: State)
    requires Inv(s)
    ensures Inv(StepMaster(s))
  {
    if !s.master.AtEnd? || s.master.pc.Waiting? {
      MasterPlain(s);
    } else if s.master.pc.Flipping? {
      MasterFlips(s);
    } else {
      MasterCloses(s);
    }
  }
}
