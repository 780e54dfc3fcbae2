/** spin.h: bomp_barrier_wait as the interleaving of its threads' atomic steps, for a fixed set of
    exactly `max` threads that use the barrier any number of times. */
module Barrier {

  /** Where a thread stands in bomp_barrier_wait; `c` is its local copy of `cycle`. */
  datatype Pc =
    | Outside
    | Read(c: bool)      // has read cycle
    | Waiting(c: bool)   // has added itself, and spins
    | Last               // has added itself, as the last one
    | Zeroed             // has reset counter
    | Flipping(c: bool)  // has read cycle for the flip

  /** `done` counts the waits the thread has returned from. */
  datatype Thread = Thread(pc: Pc, done: nat)

  /** `flips` counts the generations that are over; the code knows only its parity, `cycle`. */
  datatype State = State(cycle: bool, counter: nat, threads: seq<Thread>, flips: nat)

  predicate Init(s: State) {
    && !s.cycle && s.counter == 0 && s.flips == 0
    && forall t | 0 <= t < |s.threads| :: s.threads[t] == Thread(Outside, 0)
  }

  /** The next atomic step of a thread at `pc`, and what it leaves in the barrier's two fields.
      A waiter whose cycle has not flipped spins. */
  function Wait(max: nat, cycle: bool, counter: nat, pc: Pc): (Pc, bool, nat) {
    match pc
    case Outside => (Read(cycle), cycle, counter)
    case Read(c) => (if counter == max - 1 then Last else Waiting(c), cycle, counter + 1)
    case Waiting(c) => (if c == cycle then pc else Outside, cycle, counter)
    case Last => (Zeroed, cycle, 0)
    case Zeroed => (Flipping(cycle), cycle, counter)
    case Flipping(c) => (Outside, !c, counter)
  }

  /** Thread t takes its next step. */
  function Step(s: State, t: nat): (r: State)
    requires t < |s.threads|
    ensures |r.threads| == |s.threads| && forall u | 0 <= u < |s.threads| && u != t :: r.threads[u] == s.threads[u]
  {
    var th := s.threads[t];
    var (pc, cycle, counter) := Wait(|s.threads|, s.cycle, s.counter, th.pc);
    var left := if pc.Outside? then 1 else 0;
    State(cycle, counter, s.threads[t := Thread(pc, th.done + left)], s.flips + if th.pc.Flipping? then 1 else 0)
  }

  /** Waits the thread has counted itself in for. */
  function Arrivals(th: Thread): nat {
    th.done + if th.pc.Outside? || th.pc.Read? then 0 else 1
  }

  /** Threads counted in for the generation that is not over yet. */
  ghost function Here(s: State): set<nat> {
    set t | 0 <= t < |s.threads| && Arrivals(s.threads[t]) == s.flips + 1
  }

  ghost function Range(n: nat): (r: set<nat>)
    ensures |r| == n && forall t :: t in r <==> 0 <= t < n
  {
    if n == 0 then {} else Range(n - 1) + {n - 1}
  }

  ghost function Everyone(s: State): set<nat> {
    Range(|s.threads|)
  }

  predicate ThreadOk(s: State, t: nat)
    requires t < |s.threads|
  {
    var th := s.threads[t];
    match th.pc
    case Outside => th.done == s.flips
    case Read(c) => th.done == s.flips && c == s.cycle
    case Waiting(c) => if c == s.cycle then th.done == s.flips else th.done + 1 == s.flips
    case Last => th.done == s.flips && s.counter == |s.threads|
    case Zeroed => th.done == s.flips && s.counter == 0
    case Flipping(c) => th.done == s.flips && s.counter == 0 && c == s.cycle
  }

  /** A thread between adding itself last and flipping. */
  predicate Closing(th: Thread) {
    th.pc.Last? || th.pc.Zeroed? || th.pc.Flipping?
  }

  ghost predicate Inv(s: State) {
    && s.cycle == (s.flips % 2 == 1)
    && (forall t {:trigger ThreadOk(s, t)} | 0 <= t < |s.threads| :: ThreadOk(s, t))
    && ((forall t | 0 <= t < |s.threads| :: !Closing(s.threads[t])) ==> s.counter == |Here(s)| < |s.threads|)
    && (forall t | 0 <= t < |s.threads| && Closing(s.threads[t]) :: ClosesAlone(s, t))
  }

  /** While a thread closes the generation, all the others spin on the cycle it is about to flip. */
  predicate ClosesAlone(s: State, t: nat) {
    forall u | 0 <= u < |s.threads| && u != t :: s.threads[u].pc == Waiting(s.cycle)
  }

  lemma InitInv(s: State)
    requires Init(s) && |s.threads| > 0
    ensures Inv(s)
  {
    assert Here(s) == {};
  }

  /** A set that lacks only t of everyone has everyone else. */
  lemma AllButOne(s: State, r: set<nat>, t: nat)
    requires t < |s.threads| && r <= Everyone(s) && t !in r && |r| == |s.threads| - 1
    ensures r == Everyone(s) - {t}
  {
    Subset(r, Everyone(s) - {t});
  }

  lemma Subset(r: set<nat>, all: set<nat>)
    requires r <= all && |r| == |all|
    ensures r == all
  {
    assert |all - r| == |all| - |r|;
  }

  /** A step of any thread keeps the invariant. */
  lemma StepInv(s: State, t: nat)
    requires Inv(s) && t < |s.threads|
    ensures Inv(Step(s, t))
  {
    var next := Step(s, t);
    assert ThreadOk(s, t);
    match s.threads[t].pc {
      case Outside => Stays(s, next, t);
      case Read(c) => ArriveInv(s, t);
      case Waiting(c) => Stays(s, next, t);
      case Last => CloseInv(s, t);
      case Zeroed => CloseInv(s, t);
      case Flipping(c) => FlipInv(s, t);
    }
  }

  /** Entering and leaving: thread t is not counted in before or after. */
  lemma Stays(s: State, next: State, t: nat)
    requires Inv(s) && t < |s.threads| && next == Step(s, t)
    requires s.threads[t].pc.Outside? || s.threads[t].pc.Waiting?
    ensures Inv(next)
  {
    assert ThreadOk(s, t);
    forall u | 0 <= u < |s.threads|
      ensures ThreadOk(next, u)
    {
      assert ThreadOk(s, u);
    }
    assert Here(next) == Here(s);
    forall u | 0 <= u < |s.threads| && Closing(next.threads[u])
      ensures ClosesAlone(next, u)
    {
      assert Closing(s.threads[u]) && ClosesAlone(s, u);
    }
    if forall u | 0 <= u < |s.threads| :: !Closing(next.threads[u]) {
      assert forall u | 0 <= u < |s.threads| :: Closing(s.threads[u]) ==> Closing(next.threads[u]);
    }
  }

  lemma ArriveInv(s: State, t: nat)
    requires Inv(s) && t < |s.threads| && s.threads[t].pc.Read?
    ensures Inv(Step(s, t))
  {
    var next := Step(s, t);
    NoneCloses(s, t);
    assert ThreadOk(s, t);
    assert Here(next) == Here(s) + {t};
    forall u | 0 <= u < |s.threads|
      ensures ThreadOk(next, u) && (u != t ==> !Closing(next.threads[u]))
    {
      assert ThreadOk(s, u) && !Closing(s.threads[u]);
    }
    if s.counter == |s.threads| - 1 {
      OthersWait(s, t);
      assert ClosesAlone(next, t);
    }
  }

  /** While a thread is about to count itself in, no generation is being closed. */
  lemma NoneCloses(s: State, t: nat)
    requires Inv(s) && t < |s.threads| && s.threads[t].pc.Read?
    ensures forall u | 0 <= u < |s.threads| :: !Closing(s.threads[u])
    ensures s.counter == |Here(s)| < |s.threads|
  {
    forall u | 0 <= u < |s.threads|
      ensures !Closing(s.threads[u])
    {
      assert Closing(s.threads[u]) ==> ClosesAlone(s, u);
    }
  }

  /** The last thread to count itself in finds all the others waiting. */
  lemma OthersWait(s: State, t: nat)
    requires Inv(s) && t < |s.threads| && s.threads[t].pc.Read? && s.counter == |s.threads| - 1
    ensures ClosesAlone(s, t)
  {
    NoneCloses(s, t);
    assert ThreadOk(s, t);
    AllButOne(s, Here(s), t);
    forall u | 0 <= u < |s.threads| && u != t
      ensures s.threads[u].pc == Waiting(s.cycle)
    {
      assert u in Here(s) && ThreadOk(s, u);
    }
  }

  lemma CloseInv(s: State, t: nat)
    requires Inv(s) && t < |s.threads| && (s.threads[t].pc.Last? || s.threads[t].pc.Zeroed?)
    ensures Inv(Step(s, t))
  {
    var next := Step(s, t);
    assert ThreadOk(s, t) && ClosesAlone(s, t);
    forall u | 0 <= u < |s.threads|
      ensures ThreadOk(next, u) && (Closing(next.threads[u]) ==> ClosesAlone(next, u))
    {
      assert ThreadOk(s, u);
    }
    assert Closing(next.threads[t]);
  }

  lemma FlipInv(s: State, t: nat)
    requires Inv(s) && t < |s.threads| && s.threads[t].pc.Flipping?
    ensures Inv(Step(s, t))
  {
    var next := Step(s, t);
    assert ThreadOk(s, t) && ClosesAlone(s, t);
    forall u | 0 <= u < |s.threads|
      ensures ThreadOk(next, u) && !Closing(next.threads[u]) && u !in Here(next)
    {
      assert ThreadOk(s, u);
    }
    assert Here(next) == {};
  }

  // ---------- whole runs ----------

  predicate Threads(s: State, schedule: seq<nat>) {
    forall i | 0 <= i < |schedule| :: schedule[i] < |s.threads|
  }

  /** Where a run from s stands after the threads in `schedule` have stepped in turn. */
  function Run(s: State, schedule: seq<nat>): (r: State)
    requires Threads(s, schedule)
    ensures |r.threads| == |s.threads|
    decreases |schedule|
  {
    if schedule == [] then s else Run(Step(s, schedule[0]), schedule[1..])
  }

  lemma {:induction false} RunInv(s: State, schedule: seq<nat>)
    requires Inv(s) && Threads(s, schedule)
    ensures Inv(Run(s, schedule)) && s.flips <= Run(s, schedule).flips
    decreases |schedule|
  {
    if schedule != [] {
      StepInv(s, schedule[0]);
      RunInv(Step(s, schedule[0]), schedule[1..]);
    }
  }

  /** However the threads interleave: nobody has left a generation that somebody has not
      entered, nobody is two generations ahead, and between generations counter counts arrivals. */
  lemma NobodyLeavesEarly(s: State, schedule: seq<nat>, t: nat, u: nat)
    requires Init(s) && t < |s.threads| && u < |s.threads|
    requires Threads(s, schedule)
    ensures Run(s, schedule).threads[t].done <= Arrivals(Run(s, schedule).threads[u])
    ensures Run(s, schedule).threads[t].done <= Run(s, schedule).threads[u].done + 1
    ensures Arrivals(Run(s, schedule).threads[t]) <= Arrivals(Run(s, schedule).threads[u]) + 1
  {
    InitInv(s);
    RunInv(s, schedule);
    assert ThreadOk(Run(s, schedule), t) && ThreadOk(Run(s, schedule), u);
  }

  /** One bit is enough: a waiter sees a flipped cycle exactly when its generation is over, and
      goes on seeing it for as long as it has not moved, whatever the others do meanwhile. */
  lemma FlipNotMissed(s: State, before: seq<nat>, after: seq<nat>, t: nat)
    requires Init(s) && t < |s.threads| && t !in after
    requires Threads(s, before) && Threads(s, after)
    requires Run(s, before).threads[t].pc.Waiting?
    ensures var now := Run(s, before);
            now.threads[t].pc.c != now.cycle <==> now.threads[t].done < now.flips
    ensures var now := Run(s, before);
            var later := Run(now, after);
            && later.threads[t] == now.threads[t]
            && (now.threads[t].pc.c != now.cycle ==> now.threads[t].pc.c != later.cycle)
  {
    InitInv(s);
    RunInv(s, before);
    var now := Run(s, before);
    RunInv(now, after);
    StaysPut(now, after, t);
    assert ThreadOk(now, t) && ThreadOk(Run(now, after), t);
  }

  lemma {:induction false} StaysPut(s: State, schedule: seq<nat>, t: nat)
    requires t < |s.threads| && t !in schedule && Threads(s, schedule)
    ensures Run(s, schedule).threads[t] == s.threads[t]
    decreases |schedule|
  {
    if schedule != [] {
      StaysPut(Step(s, schedule[0]), schedule[1..], t);
    }
  }

  // ---------- every generation ends ----------

  /** Thread t can make progress, when each thread is to wait `rounds` times. */
  predicate Moves(s: State, t: nat, rounds: nat)
    requires t < |s.threads|
  {
    var th := s.threads[t];
    (th.pc.Outside? ==> th.done < rounds) && (th.pc.Waiting? ==> th.pc.c != s.cycle)
  }

  ghost predicate Bounded(s: State, rounds: nat) {
    BoundedBy(s.threads, rounds)
  }

  ghost predicate BoundedBy(threads: seq<Thread>, rounds: nat) {
    forall t | 0 <= t < |threads| :: if threads[t].pc.Outside? then threads[t].done <= rounds else threads[t].done < rounds
  }

  function Left(th: Thread, rounds: nat): int {
    var steps := match th.pc
      case Outside => 0
      case Read(_) => 1
      case Waiting(_) => 2
      case Last => 2
      case Zeroed => 3
      case Flipping(_) => 4;
    5 * (rounds - th.done) - steps
  }

  function Work(threads: seq<Thread>, rounds: nat): int {
    if threads == [] then 0 else Left(threads[0], rounds) + Work(threads[1..], rounds)
  }

  lemma {:induction false} WorkUpdate(threads: seq<Thread>, rounds: nat, t: nat, th: Thread)
    requires t < |threads|
    ensures Work(threads[t := th], rounds) == Work(threads, rounds) - Left(threads[t], rounds) + Left(th, rounds)
  {
    if t > 0 {
      WorkUpdate(threads[1..], rounds, t - 1, th);
      assert threads[t := th][1..] == threads[1..][t - 1 := th];
    } else {
      assert threads[t := th][1..] == threads[1..];
    }
  }

  lemma {:induction false} WorkNonNegative(threads: seq<Thread>, rounds: nat)
    requires BoundedBy(threads, rounds)
    ensures Work(threads, rounds) >= 0
  {
    if threads != [] {
      WorkNonNegative(threads[1..], rounds);
    }
  }

  lemma MoveWorks(s: State, t: nat, rounds: nat)
    requires t < |s.threads| && Bounded(s, rounds) && Moves(s, t, rounds)
    ensures Bounded(Step(s, t), rounds) && Work(Step(s, t).threads, rounds) < Work(s.threads, rounds)
  {
    var next := Step(s, t);
    WorkUpdate(s.threads, rounds, t, next.threads[t]);
    assert next.threads == s.threads[t := next.threads[t]];
  }

  /** If nobody can move, everybody has left the barrier `rounds` times: there is no deadlock. */
  lemma StuckIsDone(s: State, rounds: nat)
    requires Inv(s) && Bounded(s, rounds) && forall t | 0 <= t < |s.threads| :: !Moves(s, t, rounds)
    ensures forall t | 0 <= t < |s.threads| :: s.threads[t] == Thread(Outside, rounds)
  {
    forall t | 0 <= t < |s.threads|
      ensures ThreadOk(s, t) && !Closing(s.threads[t]) && (s.threads[t].pc.Outside? || t in Here(s))
      ensures s.threads[t].pc.Outside? ==> s.flips == rounds
      ensures !s.threads[t].pc.Outside? ==> s.flips < rounds
    {
      assert ThreadOk(s, t) && !Moves(s, t, rounds);
    }
    assert s.flips != rounds ==> Here(s) == Everyone(s);
  }

  ghost predicate AllMove(s: State, schedule: seq<nat>, rounds: nat)
    requires Threads(s, schedule)
    decreases |schedule|
  {
    schedule != [] ==> Moves(s, schedule[0], rounds) && AllMove(Step(s, schedule[0]), schedule[1..], rounds)
  }

  lemma {:induction false} MovesRunOut(s: State, schedule: seq<nat>, rounds: nat)
    requires Bounded(s, rounds) && Threads(s, schedule)
    requires AllMove(s, schedule, rounds)
    ensures Bounded(Run(s, schedule), rounds) && |schedule| <= Work(s.threads, rounds)
    decreases |schedule|
  {
    if schedule == [] {
      WorkNonNegative(s.threads, rounds);
    } else {
      MoveWorks(s, schedule[0], rounds);
      MovesRunOut(Step(s, schedule[0]), schedule[1..], rounds);
    }
  }

  lemma {:induction false} InitialWork(threads: seq<Thread>, rounds: nat)
    requires forall t | 0 <= t < |threads| :: threads[t] == Thread(Outside, 0)
    ensures Work(threads, rounds) == 5 * rounds * |threads|
  {
    if threads != [] {
      InitialWork(threads[1..], rounds);
    }
  }

  /** When each thread waits `rounds` times, there are at most 5 * rounds * max steps besides
      spinning, and a run that cannot go on has brought every thread out `rounds` times. */
  lemma EveryGenerationEnds(s: State, schedule: seq<nat>, rounds: nat)
    requires Init(s) && |s.threads| > 0 && Threads(s, schedule)
    requires AllMove(s, schedule, rounds)
    ensures |schedule| <= 5 * rounds * |s.threads|
    ensures (exists t | 0 <= t < |s.threads| :: Moves(Run(s, schedule), t, rounds))
            || forall t | 0 <= t < |s.threads| :: Run(s, schedule).threads[t] == Thread(Outside, rounds)
  {
    InitInv(s);
    RunInv(s, schedule);
    InitialWork(s.threads, rounds);
    MovesRunOut(s, schedule, rounds);
    if forall t | 0 <= t < |s.threads| :: !Moves(Run(s, schedule), t, rounds) {
      StuckIsDone(Run(s, schedule), rounds);
    }
  }
}
