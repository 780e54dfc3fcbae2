/** processing.c: what holds of every run of parallel regions, from the invariants of ForkJoin. */
module ForkJoinRuns {
  import opened ForkJoin

  // ---------- whole runs ----------

  datatype Mover = TheMaster | TheWorker(w: nat)

  ghost function Step(s: State, m: Mover): State {
    match m
    case TheMaster => StepMaster(s)
    case TheWorker(w) => if w < |s.workers| then StepWorker(s, w) else s
  }

  lemma StepInv(s: State, m: Mover)
    requires Inv(s)
    ensures Inv(Step(s, m))
  {
    match m {
      case TheMaster => MasterInv(s);
      case TheWorker(w) => if w < |s.workers| { WorkerInv(s, w); }
    }
  }

  ghost function Run(s: State, moves: seq<Mover>): (r: State)
    requires Inv(s)
    ensures Inv(r)
    decreases |moves|
  {
    if moves == [] then s else (StepInv(s, moves[0]); Run(Step(s, moves[0]), moves[1..]))
  }

  /** A fresh runtime whose barrier admits `n` threads, with workers and queue enough. */
  ghost predicate Fresh(s: State) {
    Init(s) && s.n >= 1 && s.n - 1 <= |s.workers| && s.n - 1 <= s.capacity
  }

  /** A team of two, with one worker to spare. */
  lemma FreshExample()
    ensures Fresh(State(2, 1, false, 0, 0, [], [Idle, Idle], Between, 0, [], {}))
  {
  }

  ghost function Reach(s: State, moves: seq<Mover>): (r: State)
    requires Fresh(s)
    ensures Inv(r)
  {
    InitInv(s);
    Run(s, moves)
  }

  lemma {:induction false} ItemsAre(n: nat, region: nat, i: nat, item: Item)
    requires 1 <= i <= n
    ensures item in Items(n, region, i)
            <==> 1 <= item.index && ((item.region < region && item.index < n) || (item.region == region && item.index < i))
    decreases region, i
  {
    if i > 1 {
      ItemsAre(n, region, i - 1, item);
    } else if region > 0 {
      ItemsAre(n, region - 1, n, item);
    }
  }

  lemma {:induction false} ItemsDistinct(n: nat, region: nat, i: nat, j: nat, k: nat)
    requires 1 <= i <= n && j < k < |Items(n, region, i)|
    ensures Items(n, region, i)[j] != Items(n, region, i)[k]
    decreases region, i
  {
    if i > 1 {
      ItemsAre(n, region, i - 1, Item(region, i - 1));
      if k < |Items(n, region, i - 1)| {
        ItemsDistinct(n, region, i - 1, j, k);
      } else {
        assert Items(n, region, i)[j] in Items(n, region, i - 1);
      }
    } else if region > 0 {
      ItemsDistinct(n, region - 1, n, j, k);
    }
  }

  /** Join: whenever the master is out of its regions, the queue is empty, and the items 1 to n - 1
      of every region it has left were each taken once, in order, and completed. */
  lemma RegionsJoin(s: State, moves: seq<Mover>, item: Item)
    requires Fresh(s) && Reach(s, moves).master.Between?
    ensures var r := Reach(s, moves);
            && r.queue == [] && r.taken == Items(r.n, r.region, 1)
            && (item in r.taken <==> item.region < r.region && 1 <= item.index < r.n)
            && (item in r.taken ==> item in r.completed)
            && forall j, k | 0 <= j < k < |r.taken| :: r.taken[j] != r.taken[k]
  {
    var r := Reach(s, moves);
    TotalZero(Busy, r.flips, r.workers);
    ItemsAre(r.n, r.region, 1, item);
    if item in r.taken {
      var i :| 0 <= i < |r.taken| && r.taken[i] == item;
      assert Worked(r, r.taken[i]);
      NobodyWorks(r, item);
    }
    forall j, k | 0 <= j < k < |r.taken|
      ensures r.taken[j] != r.taken[k]
    {
      ItemsDistinct(r.n, r.region, 1, j, k);
    }
  }

  lemma NobodyWorks(s: State, item: Item)
    requires forall w | 0 <= w < |s.workers| :: Weight(Busy, s.flips, s.workers[w]) == 0
    ensures forall w: nat :: !HasItem(s, w, item)
  {
  }

  /** Waiters of earlier generations never count as arrivals.  Until a generation is closed,
      counter is the number of threads that have arrived for it; and the workers among them, the
      items that workers still have, the queued ones and those not added yet make up the n - 1
      items of the region. */
  lemma StaleNeverCount(s: State, moves: seq<Mover>)
    requires Fresh(s)
    ensures var r := Reach(s, moves);
            var arrived := Total(Arrived, r.flips, r.workers);
            && (r.counter == arrived + MasterArrived(r) || Total(Closing, r.flips, r.workers) + MasterClosing(r) == 1)
            && (Over(r) ==> arrived == 0)
            && (!Over(r) ==> arrived + Total(Busy, r.flips, r.workers) + |r.queue| + ToAdd(r) == r.n - 1)
  {
  }

  /** With exactly n - 1 workers no flip is missed: a waiter whose generation is over sees it. */
  lemma NoFlipMissed(s: State, moves: seq<Mover>, w: nat)
    requires Fresh(s) && |Reach(s, moves).workers| == Reach(s, moves).n - 1
    requires w < |Reach(s, moves).workers|
    requires Reach(s, moves).workers[w].AtBarrier? && Reach(s, moves).workers[w].pc.Waiting?
    ensures var r := Reach(s, moves);
            r.workers[w].gen < r.flips <==> r.workers[w].pc.c != r.cycle
  {
    var r := Reach(s, moves);
    TotalZero(Old, r.flips, r.workers);
    assert WorkerOk(r, w);
  }

  /** In a region some thread can always take a step that changes something, however many waiters
      have missed their flip. */
  lemma NoDeadlock(s: State, moves: seq<Mover>)
    requires Fresh(s) && !Reach(s, moves).master.Between?
    ensures exists m :: Goes(Reach(s, moves), m)
  {
    SomethingGoes(Reach(s, moves));
  }

  /** A step that changes something and does not begin a new region. */
  ghost predicate Goes(s: State, m: Mover) {
    Step(s, m) != s && !(m.TheMaster? && s.master.Between?)
  }

  lemma SomethingGoes(r: State)
    requires Inv(r) && !r.master.Between?
    ensures exists m :: Goes(r, m)
  {
    if StepMaster(r) != r {
      assert Goes(r, TheMaster);
    } else {
      MasterStuck(r);
      SomeWorkerMoves(r);
      var w: nat :| w < |r.workers| && !Stuck(r, w);
      assert Goes(r, TheWorker(w));
    }
  }

  lemma MasterStuck(s: State)
    requires Inv(s) && StepMaster(s) == s
    ensures s.master.AtEnd? && s.master.pc.Waiting? && s.master.gen == s.flips
  {
    assert s.master.AtEnd? && s.master.pc.Read? ==> StepMaster(s).counter == s.counter + 1;
  }

  predicate Stuck(s: State, w: nat)
    requires w < |s.workers|
  {
    StepWorker(s, w) == s
  }

  /** A stuck worker is idle with nothing to do, or waits for the current generation, or has missed
      a flip. */
  predicate StuckWaits(flips: nat, empty: bool, w: Worker) {
    if w.Idle? then empty
    else w.AtBarrier? && w.pc.Waiting? && (w.gen == flips || w.gen + 1 < flips)
  }

  lemma {:induction false} StuckCounts(flips: nat, empty: bool, workers: seq<Worker>)
    requires forall w | 0 <= w < |workers| :: StuckWaits(flips, empty, workers[w])
    ensures Total(Busy, flips, workers) == 0 && Total(Closing, flips, workers) == 0
    ensures !empty ==> Total(Arrived, flips, workers) + Total(Old, flips, workers) == |workers|
  {
    if workers != [] {
      StuckCounts(flips, empty, workers[1..]);
    }
  }

  lemma StuckMeans(s: State, w: nat)
    requires Inv(s) && w < |s.workers| && Stuck(s, w)
    ensures StuckWaits(s.flips, s.queue == [], s.workers[w])
  {
    assert WorkerOk(s, w);
    assert StepWorker(s, w).workers[w] == s.workers[w] && StepWorker(s, w).counter == s.counter;
  }

  lemma SomeWorkerMoves(s: State)
    requires Inv(s) && s.master.AtEnd? && s.master.pc.Waiting? && s.master.gen == s.flips
    ensures exists w: nat :: w < |s.workers| && !Stuck(s, w)
  {
    if forall w | 0 <= w < |s.workers| :: Stuck(s, w) {
      forall w | 0 <= w < |s.workers|
        ensures StuckWaits(s.flips, s.queue == [], s.workers[w])
      {
        StuckMeans(s, w);
      }
      StuckCounts(s.flips, s.queue == [], s.workers);
      assert false;
    }
  }

  // ---------- every region ends ----------

  /** Steps left to a thread at the barrier. */
  function BarrierLeft(pc: Barrier.Pc): nat {
    match pc
    case Outside => 0
    case Read(_) => 4
    case Last => 3
    case Zeroed => 2
    case Flipping(_) => 1
    case Waiting(_) => 1
  }

  /** Steps left to a worker without a new item. */
  function WorkerLeft(w: Worker): nat {
    match w
    case Idle => 0
    case Working(_) => 6
    case Finished => 5
    case AtBarrier(pc, _) => BarrierLeft(pc)
  }

  function WorkersLeft(workers: seq<Worker>): nat {
    if workers == [] then 0 else WorkerLeft(workers[0]) + WorkersLeft(workers[1..])
  }

  /** Steps left to the master in its region, and to those that get the items it has still to add. */
  function MasterLeft(n: nat, m: Master): int {
    match m
    case Between => 0
    case Adding(i) => 6 + 8 * (n - i)
    case InRegion => 5
    case AtEnd(pc, _) => BarrierLeft(pc)
  }

  /** A bound on the steps that can change something before the next region begins. */
  function Left(s: State): int {
    WorkersLeft(s.workers) + 7 * |s.queue| + MasterLeft(s.n, s.master)
  }

  lemma {:induction false} LeftUpdate(workers: seq<Worker>, w: nat, pc: Worker)
    requires w < |workers|
    ensures WorkersLeft(workers[w := pc]) == WorkersLeft(workers) - WorkerLeft(workers[w]) + WorkerLeft(pc)
  {
    if w == 0 {
      assert workers[w := pc][1..] == workers[1..];
    } else {
      assert workers[w := pc][1..] == workers[1..][w - 1 := pc];
      LeftUpdate(workers[1..], w - 1, pc);
    }
  }

  lemma WorkerSpends(s: State, w: nat)
    requires w < |s.workers| && StepWorker(s, w) != s && (s.workers[w].AtBarrier? ==> !s.workers[w].pc.Outside?)
    ensures Left(StepWorker(s, w)) < Left(s)
  {
    hide WorkersLeft;
    var t := StepWorker(s, w);
    assert t.workers == s.workers[w := t.workers[w]];
    LeftUpdate(s.workers, w, t.workers[w]);
  }

  lemma MasterSpends(s: State)
    requires !s.master.Between? && MasterOk(s) && StepMaster(s) != s
    ensures Left(StepMaster(s)) < Left(s)
  {
    hide WorkersLeft;
  }

  lemma StepsSpend(s: State, m: Mover)
    requires Inv(s) && Goes(s, m)
    ensures Left(Step(s, m)) < Left(s)
  {
    hide Left, StepWorker, StepMaster;
    match m {
      case TheMaster => MasterSpends(s);
      case TheWorker(w) =>
        assert WorkerOk(s, w);
        WorkerSpends(s, w);
    }
  }

  /** Every move changes something, and none begins a new region. */
  ghost predicate AllGo(s: State, moves: seq<Mover>)
    requires Inv(s)
    decreases |moves|
  {
    moves == [] || (Goes(s, moves[0]) && (StepInv(s, moves[0]); AllGo(Step(s, moves[0]), moves[1..])))
  }

  lemma {:induction false} MovesSpend(s: State, moves: seq<Mover>)
    requires Inv(s) && AllGo(s, moves)
    ensures |moves| + Left(Run(s, moves)) <= Left(s)
    decreases |moves|
  {
    if moves != [] {
      hide Inv, Goes, Step, Left;
      StepInv(s, moves[0]);
      StepsSpend(s, moves[0]);
      MovesSpend(Step(s, moves[0]), moves[1..]);
    }
  }

  lemma LeftNonNegative(s: State)
    requires Inv(s)
    ensures Left(s) >= 0
  {
  }

  /** Between two regions the workers are idle, or still have to leave the barrier. */
  lemma {:induction false} LeftBetween(flips: nat, workers: seq<Worker>)
    requires Total(Busy, flips, workers) == 0 && Total(Closing, flips, workers) == 0
    requires forall w | 0 <= w < |workers| && workers[w].AtBarrier? :: !workers[w].pc.Outside?
    ensures WorkersLeft(workers) <= |workers|
  {
    if workers != [] {
      LeftBetween(flips, workers[1..]);
    }
  }

  lemma RegionBegins(r: State)
    requires Inv(r) && r.master.Between?
    ensures Left(StepMaster(r)) <= 8 * r.n - 2 + |r.workers|
  {
    forall w | 0 <= w < |r.workers| && r.workers[w].AtBarrier?
      ensures !r.workers[w].pc.Outside?
    {
      assert WorkerOk(r, w);
    }
    LeftBetween(r.flips, r.workers);
  }

  /** The number of regions begun. */
  function Begun(s: State): nat {
    if s.master.Between? then s.region else s.region + 1
  }

  lemma StepBegins(s: State, m: Mover)
    requires Goes(s, m)
    ensures Begun(Step(s, m)) == Begun(s)
  {
  }

  lemma {:induction false} RegionKept(s: State, moves: seq<Mover>)
    requires Inv(s) && AllGo(s, moves)
    ensures Begun(Run(s, moves)) == Begun(s)
    decreases |moves|
  {
    if moves != [] {
      hide Inv, Goes, Step, Begun;
      StepInv(s, moves[0]);
      StepBegins(s, moves[0]);
      RegionKept(Step(s, moves[0]), moves[1..]);
    }
  }

  /** Every region ends: once it has begun, the steps that change something run out after 8 for each
      thread of the team and 1 for each worker, whatever the schedule and however many waiters have
      missed their flip; and when they have run out the master has left the region. */
  lemma EveryRegionEnds(s: State, before: seq<Mover>, moves: seq<Mover>)
    requires Fresh(s) && Reach(s, before).master.Between?
    requires Inv(StepMaster(Reach(s, before))) ==> AllGo(StepMaster(Reach(s, before)), moves)
    ensures Inv(StepMaster(Reach(s, before)))
    ensures |moves| <= 8 * s.n - 2 + |s.workers|
    ensures var r := Run(StepMaster(Reach(s, before)), moves);
            if r.master.Between? then r.region == Reach(s, before).region + 1
            else r.region == Reach(s, before).region && exists m :: Goes(r, m)
  {
    hide Inv, Left, Goes, Run, AllGo;
    var r := Reach(s, before);
    StepInv(r, TheMaster);
    RegionBegins(r);
    SameTeam(s, before);
    MovesSpend(StepMaster(r), moves);
    var end := Run(StepMaster(r), moves);
    LeftNonNegative(end);
    RegionKept(StepMaster(r), moves);
    if !end.master.Between? {
      SomethingGoes(end);
    }
  }

  /** The team and the pool do not change. */
  lemma SameTeam(s: State, moves: seq<Mover>)
    requires Fresh(s)
    ensures Reach(s, moves).n == s.n && |Reach(s, moves).workers| == |s.workers|
  {
    InitInv(s);
    SameTeamRun(s, moves);
  }

  lemma {:induction false} SameTeamRun(s: State, moves: seq<Mover>)
    requires Inv(s)
    ensures Run(s, moves).n == s.n && |Run(s, moves).workers| == |s.workers|
    decreases |moves|
  {
    if moves != [] {
      hide Inv, Step;
      StepInv(s, moves[0]);
      SameTeamStep(s, moves[0]);
      SameTeamRun(Step(s, moves[0]), moves[1..]);
    }
  }

  lemma SameTeamStep(s: State, m: Mover)
    ensures Step(s, m).n == s.n && |Step(s, m).workers| == |s.workers|
  {
  }
}
