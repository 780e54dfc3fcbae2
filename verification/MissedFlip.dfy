/** processing.c and spin.h: with more workers than a team of at least two needs, a waiter can miss
    the flip it waits for. */
module MissedFlip {
  import opened ForkJoin
  import opened ForkJoinRuns

  lemma {:induction false} RunRuns(s: State, first: seq<Mover>, second: seq<Mover>)
    requires Inv(s)
    ensures Run(s, first + second) == Run(Run(s, first), second)
    decreases |first|
  {
    hide Inv, StepMaster, StepWorker;
    if first == [] {
      assert first + second == second;
    } else {
      StepInv(s, first[0]);
      RunRuns(Step(s, first[0]), first[1..], second);
      assert (first + second)[1..] == first[1..] + second;
    }
  }

  /** A run that starts with one step. */
  lemma Then(s: State, m: Mover, rest: seq<Mover>) returns (moves: seq<Mover>)
    requires Inv(s) && Inv(Step(s, m))
    ensures Run(s, moves) == Run(Step(s, m), rest)
  {
    moves := [m] + rest;
    assert moves[1..] == rest;
  }

  lemma Stays(s: State)
    requires Inv(s)
    ensures Run(s, []) == s
  {
  }

  /** A worker that takes the first item, completes it and waits. */
  lemma OneWorks(s: State, w: nat) returns (moves: seq<Mover>)
    requires Inv(s) && w < |s.workers| && s.workers[w].Idle? && s.queue != [] && s.counter != s.n - 1
    ensures Run(s, moves) == Waits(s, w)
  {
    var m := TheWorker(w);
    var a := Step(s, m);
    StepInv(s, m);
    var b := Step(a, m);
    StepInv(a, m);
    var c := Step(b, m);
    StepInv(b, m);
    StepInv(c, m);
    FourSteps(s, w);
    hide Inv, StepWorker, StepMaster;
    Stays(Step(c, m));
    moves := Then(c, m, []);
    moves := Then(b, m, moves);
    moves := Then(a, m, moves);
    moves := Then(s, m, moves);
  }

  ghost function Waits(s: State, w: nat): State
    requires w < |s.workers| && s.queue != []
  {
    s.(workers := s.workers[w := AtBarrier(Barrier.Waiting(s.cycle), s.flips)], queue := s.queue[1..],
       counter := s.counter + 1, taken := s.taken + [s.queue[0]], completed := s.completed + {s.queue[0]})
  }

  lemma FourSteps(s: State, w: nat)
    requires w < |s.workers| && s.workers[w].Idle? && s.queue != [] && s.counter != s.n - 1
    ensures StepWorker(StepWorker(StepWorker(StepWorker(s, w), w), w), w) == Waits(s, w)
    ensures |StepWorker(s, w).workers| == |s.workers| && |StepWorker(StepWorker(s, w), w).workers| == |s.workers|
    ensures |StepWorker(StepWorker(StepWorker(s, w), w), w).workers| == |s.workers|
  {
    var a := StepWorker(s, w);
    assert a == s.(workers := s.workers[w := Working(s.queue[0])], queue := s.queue[1..], taken := s.taken + [s.queue[0]]);
    var b := StepWorker(a, w);
    assert b == a.(workers := s.workers[w := Finished], completed := s.completed + {s.queue[0]});
    var c := StepWorker(b, w);
    assert c == b.(workers := s.workers[w := AtBarrier(Barrier.Read(s.cycle), 0)]);
    var d := StepWorker(c, w);
    assert d.workers == s.workers[w := AtBarrier(Barrier.Waiting(s.cycle), s.flips)];
  }

  /** Nothing but the workers, the queue and the counter differs. */
  predicate SameRegion(s: State, r: State) {
    && r.n == s.n && r.capacity == s.capacity && r.cycle == s.cycle && r.flips == s.flips
    && r.master == s.master && r.region == s.region && |r.workers| == |s.workers|
  }

  /** Workers w to w + m - 1 work off a queue of m items and wait. */
  lemma {:induction false} AllWork(s: State, w: nat, m: nat) returns (moves: seq<Mover>)
    requires Inv(s) && w + m <= |s.workers| && |s.queue| == m && s.counter + m < s.n
    requires forall j | w <= j < w + m :: s.workers[j].Idle?
    ensures var r := Run(s, moves);
            && SameRegion(s, r) && r.queue == [] && r.counter == s.counter + m
            && forall j | 0 <= j < |s.workers| ::
                 r.workers[j] == if w <= j < w + m then AtBarrier(Barrier.Waiting(s.cycle), s.flips) else s.workers[j]
    decreases m
  {
    hide Inv, StepWorker, StepMaster;
    if m == 0 {
      Stays(s);
      moves := [];
    } else {
      var first := OneWorks(s, w);
      var rest := AllWork(Run(s, first), w + 1, m - 1);
      RunRuns(s, first, rest);
      moves := first + rest;
    }
  }

  /** Waiters w to w + m - 1 see the flip and leave. */
  lemma {:induction false} AllLeave(s: State, w: nat, m: nat) returns (moves: seq<Mover>)
    requires Inv(s) && w + m <= |s.workers|
    requires forall j | w <= j < w + m :: s.workers[j].AtBarrier? && s.workers[j].pc == Barrier.Waiting(!s.cycle)
    ensures var r := Run(s, moves);
            && SameRegion(s, r) && r.queue == s.queue && r.counter == s.counter
            && forall j | 0 <= j < |s.workers| :: r.workers[j] == if w <= j < w + m then Idle else s.workers[j]
    decreases m
  {
    if m == 0 {
      Stays(s);
      moves := [];
    } else {
      StepInv(s, TheWorker(w));
      assert Step(s, TheWorker(w)) == s.(workers := s.workers[w := Idle]);
      hide Inv, StepWorker, StepMaster;
      var rest := AllLeave(Step(s, TheWorker(w)), w + 1, m - 1);
      moves := Then(s, TheWorker(w), rest);
    }
  }

  lemma Room(s: State)
    requires Inv(s) && s.master.Adding? && s.master.i < s.n
    ensures |s.queue| < s.capacity
  {
  }

  /** The master adds the rest of its items. */
  lemma {:induction false} AddsRest(s: State) returns (moves: seq<Mover>)
    requires Inv(s) && s.master.Adding? && s.master.i <= s.n
    ensures var r := Run(s, moves);
            && r == s.(master := InRegion, queue := r.queue) && |r.queue| == |s.queue| + s.n - s.master.i
    decreases s.n - s.master.i
  {
    StepInv(s, TheMaster);
    if s.master.i == s.n {
      hide Inv;
      Stays(Step(s, TheMaster));
      moves := Then(s, TheMaster, []);
    } else {
      Room(s);
      hide Inv;
      var rest := AddsRest(Step(s, TheMaster));
      moves := Then(s, TheMaster, rest);
    }
  }

  /** The master arrives last. */
  lemma JoinsLast(s: State) returns (moves: seq<Mover>)
    requires Inv(s) && s.master.InRegion? && s.counter == s.n - 1
    ensures Run(s, moves) == s.(master := AtEnd(Barrier.Last, s.flips), counter := s.n)
  {
    var a := Step(s, TheMaster);
    StepInv(s, TheMaster);
    StepInv(a, TheMaster);
    hide Inv, StepWorker;
    Stays(Step(a, TheMaster));
    moves := Then(a, TheMaster, []);
    moves := Then(s, TheMaster, moves);
  }

  /** It closes the generation and leaves. */
  lemma Flips(s: State) returns (moves: seq<Mover>)
    requires Inv(s) && s.master.AtEnd? && s.master.pc.Last?
    ensures Run(s, moves) == s.(master := Between, counter := 0, cycle := !s.cycle, flips := s.flips + 1, region := s.region + 1)
  {
    var a := Step(s, TheMaster);
    var b := Step(a, TheMaster);
    StepInv(s, TheMaster);
    StepInv(a, TheMaster);
    StepInv(b, TheMaster);
    hide Inv, StepWorker;
    Stays(Step(b, TheMaster));
    moves := Then(b, TheMaster, []);
    moves := Then(a, TheMaster, moves);
    moves := Then(s, TheMaster, moves);
  }

  /** A whole region in which the workers from w on take the items and none looks at the barrier
      again. */
  lemma OneRegion(s: State, w: nat) returns (moves: seq<Mover>)
    requires Inv(s) && s.n >= 1 && s.master.Between? && w + s.n - 1 <= |s.workers| && s.counter == 0 && s.queue == []
    requires forall j | w <= j < w + s.n - 1 :: s.workers[j].Idle?
    ensures var r := Run(s, moves);
            && r.master.Between? && r.n == s.n && r.counter == 0 && r.queue == [] && r.flips == s.flips + 1
            && r.cycle == !s.cycle && |r.workers| == |s.workers|
            && forall j | 0 <= j < |s.workers| ::
                 r.workers[j] == if w <= j < w + s.n - 1 then AtBarrier(Barrier.Waiting(s.cycle), s.flips) else s.workers[j]
  {
    StepInv(s, TheMaster);
    assert Step(s, TheMaster) == s.(master := Adding(1));
    hide Inv, StepWorker, StepMaster;
    var adds := AddsRest(Step(s, TheMaster));
    var forks := Then(s, TheMaster, adds);
    var s1 := Run(s, forks);
    var works := AllWork(s1, w, s.n - 1);
    var s2 := Run(s1, works);
    var joins := JoinsLast(s2);
    var flips := Flips(Run(s2, joins));
    RunRuns(s2, joins, flips);
    RunRuns(s1, works, joins + flips);
    RunRuns(s, forks, works + (joins + flips));
    moves := forks + (works + (joins + flips));
  }

  /** Whenever a team of at least two has a worker to spare there is a run in which worker 0 still
      spins after two regions: its generation is over, but its cycle has come round again. */
  lemma FlipMissed(s: State) returns (moves: seq<Mover>)
    requires Fresh(s) && s.n >= 2 && |s.workers| >= s.n
    ensures var r := Reach(s, moves);
            && |r.workers| == |s.workers| && r.flips == 2 && r.master.Between?
            && r.workers[0] == AtBarrier(Barrier.Waiting(r.cycle), 0)
  {
    InitInv(s);
    hide Inv;
    var first := OneRegion(s, 0);
    var s1 := Run(s, first);
    var leaves := AllLeave(s1, 1, s.n - 2);
    var s2 := Run(s1, leaves);
    var second := OneRegion(s2, 1);
    RunRuns(s1, leaves, second);
    RunRuns(s, first, leaves + second);
    moves := first + (leaves + second);
  }
}
