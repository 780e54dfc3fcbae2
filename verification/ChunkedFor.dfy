/** kmp.c: the chunked static schedule.  Every thread goes through its chunks by adding the stride
    to its bounds, until its loop finds a round empty. */
module ChunkedFor {
  import opened StaticFor

  // ---------- the rounds of a thread ----------

  /** Bounds of a thread's j-th round: the compiled loop adds the stride to both. */
  function RoundLower(ty: IntType, r: Share, j: nat): int
    requires ty.Valid()
  {
    ty.Wrap(r.lower + j * r.stride)
  }

  function RoundUpper(ty: IntType, r: Share, j: nat): int
    requires ty.Valid()
  {
    ty.Wrap(r.upper + j * r.stride)
  }

  /** x is not behind y for a loop by s. */
  predicate Before(s: int, x: int, y: int) {
    if s > 0 then x <= y else y <= x
  }

  /** A loop from first to last by s, clamped to the bound of the whole loop, runs. */
  predicate Some(first: int, last: int, upper: int, s: int) {
    Before(s, first, last) && Before(s, first, upper)
  }

  /** Such a loop meets x. */
  ghost predicate Runs(first: int, last: int, upper: int, s: int, x: int) {
    Before(s, x, last) && Before(s, x, upper) && exists i: nat :: x == Iter(first, s, i)
  }

  lemma RunsSome(first: int, last: int, upper: int, s: int, x: int)
    requires s != 0
    ensures Runs(first, last, upper, s, x) ==> Some(first, last, upper, s)
    ensures Some(first, last, upper, s) ==> Runs(first, last, upper, s, first)
  {
    assert Iter(first, s, 0) == first;
    if Runs(first, last, upper, s, x) {
      var i: nat :| x == Iter(first, s, i);
      IterOrder(first, s, 0, i);
    }
  }

  /** A loop dealt out in chunks to a team of n threads. */
  datatype Team = Team(ty: IntType, n: nat, lower: int, upper: int, incr: int, chunk: int)
  {
    ghost predicate Ok() {
      LoopOk(ty, lower, upper, incr) && n > 0
    }

    /** A chunk does not go round the whole type. */
    predicate Short() {
      Rest() < 2 * ty.half
    }

    /** How far it is from one chunk to the next, and from a chunk's start to its last iteration. */
    function Width(): int {
      Abs(Step()) * Size()
    }

    function Rest(): int {
      Abs(Step()) * (Size() - 1)
    }

    function Step(): int {
      ty.Step(incr)
    }

    function Size(): (c: nat)
      ensures c > 0
    {
      ChunkSize(chunk)
    }

    function Total(): (N: nat)
      requires NonEmpty(lower, upper, Step())
      ensures N > 0
    {
      Iterations(lower, upper, Step())
    }

    /** Iteration k, for k beyond the loop too. */
    function At(k: int): int {
      Iter(lower, Step(), k)
    }

    /** The chunk that the loop ends in. */
    function LastChunk(): (b: nat)
      requires NonEmpty(lower, upper, Step())
    {
      DivLess(Total() - 1, Size());
      (Total() - 1) / Size()
    }

    function Bounds(t: nat): Share
      requires ty.Valid() && ty.Has(incr) && incr != 0 && n > 0
    {
      ChunkedShare(ty, t, n, lower, upper, incr, chunk)
    }

    /** Thread t's loop finds something to do in its round j. */
    predicate Busy(t: nat, j: nat)
      requires ty.Valid() && ty.Has(incr) && incr != 0 && n > 0
    {
      Some(RoundLower(ty, Bounds(t), j), RoundUpper(ty, Bounds(t), j), upper, Step())
    }

    /** Round j of thread t runs x, if the thread gets there. */
    ghost predicate Meets(t: nat, j: nat, x: int)
      requires ty.Valid() && ty.Has(incr) && incr != 0 && n > 0
    {
      Runs(RoundLower(ty, Bounds(t), j), RoundUpper(ty, Bounds(t), j), upper, Step(), x)
    }

    /** Thread t runs x in its round j: it has found all rounds before busy. */
    ghost predicate Does(t: nat, j: nat, x: int)
      requires ty.Valid() && ty.Has(incr) && incr != 0 && n > 0
    {
      Meets(t, j, x) && forall i: nat | i < j :: Busy(t, i)
    }

    /** The team runs nothing but iterations of the loop. */
    ghost predicate OnlyLoop()
      requires Ok()
    {
      forall t: nat, j: nat, x: int | t < n && Does(t, j, x) :: exists k: nat :: k < Total() && x == At(k)
    }

    ghost predicate AllDone()
      requires Ok()
    {
      forall k: nat | k < Total() :: Done(k)
    }

    ghost predicate Done(k: nat)
      requires Ok()
    {
      exists t: nat, j: nat :: t < n && Does(t, j, At(k))
    }

    ghost predicate NoneTwice()
      requires Ok()
    {
      forall k: nat, t: nat, j: nat, u: nat, i: nat
        | k < Total() && t < n && u < n && Does(t, j, At(k)) && Does(u, i, At(k)) :: t == u && j == i
    }

    /** The team runs every iteration exactly once, and nothing else. */
    ghost predicate Right()
      requires Ok()
    {
      OnlyLoop() && AllDone() && NoneTwice()
    }

    // ---------- the same, by chunk ----------

    /** The type can hold the end of chunk b. */
    predicate Fits(b: nat) {
      ty.Has(At((b + 1) * Size() - 1))
    }

    /** The bounds that the machine computes for chunk b. */
    function First(b: nat): int
      requires ty.Valid()
    {
      ty.Wrap(At(b * Size()))
    }

    function Last(b: nat): int
      requires ty.Valid()
    {
      ty.Wrap(At(b * Size() + Size() - 1))
    }

    /** The loop over chunk b finds something to do. */
    predicate Occupied(b: nat)
      requires ty.Valid()
    {
      Some(First(b), Last(b), upper, Step())
    }

    /** The chunk of thread t's round j. */
    function Chunk(t: nat, j: nat): nat {
      t + j * n
    }

    predicate OccupiedRound(t: nat, j: nat)
      requires ty.Valid()
    {
      Occupied(Chunk(t, j))
    }

    /** The first n chunks after the loop's last: the first of every thread. */
    predicate Next(b: nat)
      requires NonEmpty(lower, upper, Step())
    {
      LastChunk() < b <= LastChunk() + n
    }

    ghost predicate Covers(b: nat, x: int)
      requires ty.Valid()
    {
      Runs(First(b), Last(b), upper, Step(), x)
    }
  }

  lemma ShareCong(ty: IntType, gtid: nat, n: nat, lower: int, upper: int, incr: int, chunk: int)
    requires ty.Valid() && ty.Has(incr) && incr != 0 && gtid < n
    ensures var s, c, r := ty.Step(incr), ChunkSize(chunk), ChunkedShare(ty, gtid, n, lower, upper, incr, chunk);
            && Cong(ty, r.lower, Iter(lower, s, gtid * c))
            && Cong(ty, r.upper, Iter(lower, s, gtid * c + c - 1))
            && Cong(ty, r.stride, (c * s) * n)
  {
    hide IntType.Wrap, Cong, Trips, Quot, Rem;
    var s, c := ty.Step(incr), ChunkSize(chunk);
    CongStep(ty, incr);
    CongSelf(ty, c);
    CongSelf(ty, gtid);
    CongSelf(ty, n);
    WrapMul(ty, c, c, incr, s);
    var span := ty.Wrap(c * incr);
    WrapMul(ty, span, c * s, gtid, gtid);
    WrapMul(ty, span, c * s, n, n);
    WrapAdd(ty, lower, ty.Wrap(span * gtid), (c * s) * gtid);
    ChunkIter(lower, s, c, gtid);
    ShareUpper(ty, ty.Wrap(lower + ty.Wrap(span * gtid)), span, incr, lower, c, gtid);
  }

  lemma ShareUpper(ty: IntType, lo: int, span: int, incr: int, lower: int, c: nat, gtid: nat)
    requires ty.Valid()
    requires Cong(ty, span, c * ty.Step(incr)) && Cong(ty, lo, Iter(lower, ty.Step(incr), gtid * c))
    ensures Cong(ty, ty.Wrap(ty.Wrap(lo + span) - incr), Iter(lower, ty.Step(incr), gtid * c + c - 1))
  {
    hide IntType.Wrap, Cong;
    var s := ty.Step(incr);
    CongStep(ty, incr);
    CongAdd(ty, lo, Iter(lower, s, gtid * c), span, c * s);
    CongWrap(ty, lo + span);
    CongTrans(ty, ty.Wrap(lo + span), lo + span, Iter(lower, s, gtid * c) + c * s);
    CongAdd(ty, ty.Wrap(lo + span), Iter(lower, s, gtid * c) + c * s, incr, s);
    CongWrap(ty, ty.Wrap(lo + span) - incr);
    StepOn(lower, s, gtid * c, c);
    StepOn(lower, s, gtid * c + c, 0);
    CongTrans(ty, ty.Wrap(ty.Wrap(lo + span) - incr), ty.Wrap(lo + span) - incr, Iter(lower, s, gtid * c + c - 1));
  }

  lemma ChunkIter(lower: int, s: int, c: nat, b: nat)
    ensures lower + (c * s) * b == Iter(lower, s, b * c)
  {
    assert (c * s) * b == s * (b * c);
  }

  lemma RoundCong(ty: IntType, x: int, a: int, stride: int, span: int, j: nat)
    requires ty.Valid() && Cong(ty, x, a) && Cong(ty, stride, span)
    ensures Cong(ty, ty.Wrap(x + j * stride), a + j * span)
  {
    CongMul(ty, stride, span, j);
    CongAdd(ty, x, a, j * stride, j * span);
    CongWrap(ty, x + j * stride);
    CongTrans(ty, ty.Wrap(x + j * stride), x + j * stride, a + j * span);
  }

  lemma RoundIter(lower: int, s: int, c: nat, n: nat, gtid: nat, j: nat, d: int)
    ensures Iter(lower, s, gtid * c + d) + j * ((c * s) * n) == Iter(lower, s, (gtid + j * n) * c + d)
  {
    assert j * ((c * s) * n) == s * ((j * n) * c);
    assert (gtid + j * n) * c == gtid * c + (j * n) * c;
    assert s * (gtid * c + d) + s * ((j * n) * c) == s * (gtid * c + d + (j * n) * c);
  }

  /** Round j of thread t runs chunk number t + j * n, with its bounds wrapped. */
  lemma RoundIs(l: Team, t: nat, j: nat)
    requires l.Ok() && t < l.n
    ensures RoundLower(l.ty, l.Bounds(t), j) == l.First(t + j * l.n)
    ensures RoundUpper(l.ty, l.Bounds(t), j) == l.Last(t + j * l.n)
  {
    hide ChunkedShare, IntType.Wrap, Cong;
    var s, c, r, n := l.Step(), l.Size(), l.Bounds(t), l.n;
    ShareCong(l.ty, t, n, l.lower, l.upper, l.incr, l.chunk);
    RoundCong(l.ty, r.lower, Iter(l.lower, s, t * c), r.stride, (c * s) * n, j);
    RoundCong(l.ty, r.upper, Iter(l.lower, s, t * c + c - 1), r.stride, (c * s) * n, j);
    RoundIter(l.lower, s, c, n, t, j, 0);
    RoundIter(l.lower, s, c, n, t, j, c - 1);
    WrapCong(l.ty, r.lower + j * r.stride, l.At((t + j * n) * c));
    WrapCong(l.ty, r.upper + j * r.stride, l.At((t + j * n) * c + c - 1));
  }

  lemma WrapCong(ty: IntType, x: int, a: int)
    requires ty.Valid() && Cong(ty, ty.Wrap(x), a)
    ensures ty.Wrap(x) == ty.Wrap(a)
  {
    hide IntType.Wrap, Cong;
    CongWrap(ty, a);
    CongSwap(ty, ty.Wrap(a), a);
    CongTrans(ty, ty.Wrap(x), a, ty.Wrap(a));
    CongEqual(ty, ty.Wrap(x), ty.Wrap(a));
  }

  lemma CongSwap(ty: IntType, a: int, b: int)
    requires ty.Valid() && Cong(ty, a, b)
    ensures Cong(ty, b, a)
  {
    var k := CongMultiple(ty, a, b);
    assert b - a == (-k) * (2 * ty.half);
    Multiple(ty, -k);
  }

  lemma InChunk(c: nat, b: nat, k: nat)
    requires c > 0
    ensures b * c <= k <= b * c + c - 1 <==> b == k / c
  {
    DivBounds(k, c);
    SameQuotient(c, k, b, k / c);
  }

  lemma SameQuotient(c: nat, k: int, q: int, p: int)
    requires c > 0 && p * c <= k < (p + 1) * c
    ensures q * c <= k < q * c + c <==> q == p
  {
    if q < p {
      MulOrder(q + 1, p, c);
    } else if q > p {
      MulOrder(p + 1, q, c);
    }
    MulNext(q, c);
    MulNext(p, c);
  }

  lemma InRound(n: nat, t: nat, j: nat, b: nat)
    requires t < n
    ensures t + j * n == b <==> t == b % n && j == b / n
  {
    DivBounds(b, n);
    SameQuotient(n, b, j, b / n);
    assert b == (b / n) * n + b % n;
  }

  lemma IterOrder(lower: int, s: int, a: int, b: int)
    requires s != 0
    ensures s > 0 ==> (Iter(lower, s, a) <= Iter(lower, s, b) <==> a <= b)
    ensures s < 0 ==> (Iter(lower, s, b) <= Iter(lower, s, a) <==> a <= b)
  {
    assert Iter(lower, s, b) - Iter(lower, s, a) == s * (b - a);
  }

  /** The flag marks the thread that runs the final iteration. */
  lemma ChunkedLastRight(ty: IntType, gtid: nat, n: nat, lower: int, upper: int, incr: int, chunk: int)
    requires LoopOk(ty, lower, upper, incr) && Countable(ty, lower, upper, incr) && gtid < n
    ensures ChunkedShare(ty, gtid, n, lower, upper, incr, chunk).last
            <==> gtid == ((Iterations(lower, upper, ty.Step(incr)) - 1) / ChunkSize(chunk)) % n
  {
    hide IntType.Wrap, Trips, Quot, Rem;
    var N, c := Iterations(lower, upper, ty.Step(incr)), ChunkSize(chunk);
    TripsRight(ty, lower, upper, incr);
    DivLess(Span(lower, upper), Abs(ty.Step(incr)));
    SmallWrap(ty, N - 1);
    DivLess(N - 1, c);
    QuotNat(N - 1, c);
    RemNat((N - 1) / c, n);
  }

  lemma QuotNat(a: nat, b: nat)
    requires b > 0
    ensures Quot(a, b) == a / b
  {
  }

  lemma RemNat(a: nat, b: nat)
    requires b > 0
    ensures Rem(a, b) == a % b
  {
    assert a == b * (a / b) + a % b;
  }

  // ---------- chunk by chunk ----------

  lemma BusyIs(l: Team, t: nat, j: nat)
    requires l.Ok() && t < l.n
    ensures l.Busy(t, j) == l.OccupiedRound(t, j)
  {
    hide Team.First, Team.Last, Team.Bounds, Some;
    RoundIs(l, t, j);
  }

  lemma DoesIs(l: Team, t: nat, j: nat, x: int)
    requires l.Ok() && t < l.n
    ensures l.Does(t, j, x) <==> l.Covers(l.Chunk(t, j), x) && forall i: nat | i < j :: l.OccupiedRound(t, i)
  {
    hide Team.First, Team.Last, Team.Bounds, Team.Busy, Team.OccupiedRound, Runs;
    RoundIs(l, t, j);
    forall i: nat | i < j
      ensures l.Busy(t, i) == l.OccupiedRound(t, i)
    {
      BusyIs(l, t, i);
    }
  }

  lemma Inside(l: Team, k: nat)
    requires l.Ok() && k < l.Total()
    ensures l.ty.Has(l.At(k)) && Before(l.Step(), l.At(k), l.upper)
  {
    IterInside(l.lower, l.upper, l.Step(), k);
  }

  lemma Past(l: Team, k: nat)
    requires l.Ok() && k >= l.Total()
    ensures !Before(l.Step(), l.At(k), l.upper)
  {
    var m, span := Abs(l.Step()), Span(l.lower, l.upper);
    DivBounds(span, m);
    MulOrder(span / m + 1, k, m);
    assert l.Step() < 0 ==> l.Step() * k == -(m * k);
  }

  /** What the type has at both ends it has in between. */
  lemma HasBetween(l: Team, i: int, j: int, k: int)
    requires l.Ok() && i <= j <= k && l.ty.Has(l.At(i)) && l.ty.Has(l.At(k))
    ensures l.ty.Has(l.At(j))
  {
    IterOrder(l.lower, l.Step(), i, j);
    IterOrder(l.lower, l.Step(), j, k);
  }

  /** Where chunk b starts and ends among the iterations. */
  lemma ChunkPlace(l: Team, b: nat)
    requires l.Ok()
    ensures b <= l.LastChunk() <==> b * l.Size() < l.Total()
    ensures b < l.LastChunk() ==> b * l.Size() + l.Size() - 1 < l.Total() - 1
    ensures b > l.LastChunk() ==> b * l.Size() >= l.Total()
    ensures b * l.Size() >= 0
  {
    var N, c, B := l.Total(), l.Size(), l.LastChunk();
    DivBounds(N - 1, c);
    MulNonNegative(b, c);
    if b <= B {
      MulOrder(b, B, c);
    }
    if b < B {
      MulOrder(b + 1, B, c);
      MulNext(b, c);
    }
    if b > B {
      MulOrder(B + 1, b, c);
    }
  }

  /** The chunks of the loop start where they should, and all but the last end there too. */
  lemma FirstIs(l: Team, b: nat)
    requires l.Ok() && b <= l.LastChunk()
    ensures 0 <= b * l.Size() < l.Total()
    ensures l.First(b) == l.At(b * l.Size())
    ensures b < l.LastChunk() ==> l.ty.Has(l.At(b * l.Size() + l.Size() - 1))
    ensures l.ty.Has(l.At(b * l.Size() + l.Size() - 1)) ==> l.Last(b) == l.At(b * l.Size() + l.Size() - 1)
  {
    hide Team.At, IntType.Wrap, IntType.Has;
    ChunkPlace(l, b);
    Inside(l, b * l.Size());
    SmallWrap(l.ty, l.At(b * l.Size()));
    var k := b * l.Size() + l.Size() - 1;
    if b < l.LastChunk() {
      Inside(l, k);
    }
    if l.ty.Has(l.At(k)) {
      SmallWrap(l.ty, l.At(k));
    }
  }

  /** A chunk whose bounds fit covers exactly its own iterations. */
  lemma CoversOwn(l: Team, b: nat, k: nat)
    requires l.Ok() && b <= l.LastChunk() && l.ty.Has(l.At(b * l.Size() + l.Size() - 1)) && k < l.Total()
    ensures l.Covers(b, l.At(k)) <==> b == k / l.Size()
  {
    hide IntType.Wrap, Iter, IntType.Has, Team.First, Team.Last;
    var s, c := l.Step(), l.Size();
    FirstIs(l, b);
    Inside(l, k);
    InChunk(c, b, k);
    IterOrder(l.lower, s, b * c, k);
    IterOrder(l.lower, s, k, b * c + c - 1);
    IterFrom(l.lower, s, b * c, k);
    if l.Covers(b, l.At(k)) {
      var i: nat :| l.At(k) == Iter(l.First(b), s, i);
      IterFrom(l.lower, s, b * c, b * c + i);
      IterInjective(l.lower, s, k, b * c + i);
    }
  }

  lemma IterFrom(lower: int, s: int, a: int, b: int)
    ensures Iter(Iter(lower, s, a), s, b - a) == Iter(lower, s, b)
  {
    assert s * a + s * (b - a) == s * b;
  }

  lemma CoversInside(l: Team, b: nat, x: int) returns (k: nat)
    requires l.Ok() && b <= l.LastChunk() && l.Covers(b, x)
    ensures k < l.Total() && x == l.At(k)
  {
    hide IntType.Wrap, IntType.Has, Team.First, Team.Last, Iter;
    FirstIs(l, b);
    var i: nat :| x == Iter(l.First(b), l.Step(), i);
    k := b * l.Size() + i;
    IterFrom(l.lower, l.Step(), b * l.Size(), k);
    if k >= l.Total() {
      Past(l, k);
    }
  }

  /** The end of a chunk that does not fit comes out before the chunk's start. */
  lemma Cut(l: Team, b: nat)
    requires l.Ok() && l.Short() && b <= l.LastChunk() && !l.ty.Has(l.At(b * l.Size() + l.Size() - 1))
    ensures !l.Occupied(b)
  {
    hide IntType.Wrap, Team.First, Team.Last, Iter;
    var s, c, ty := l.Step(), l.Size(), l.ty;
    FirstIs(l, b);
    Inside(l, b * c);
    var f, a := l.At(b * c), l.At(b * c + c - 1);
    IterOrder(l.lower, s, b * c, b * c + c - 1);
    Distance(l, b * c, c - 1);
    WrapTurn(ty, a, s > 0);
    LastDef(l, b);
  }

  lemma LastDef(l: Team, b: nat)
    requires l.Ok()
    ensures l.Last(b) == l.ty.Wrap(l.At(b * l.Size() + l.Size() - 1)) && l.First(b) == l.ty.Wrap(l.At(b * l.Size()))
  {
  }

  /** Two iterations are as far apart as their numbers say. */
  lemma Distance(l: Team, a: int, d: nat)
    requires l.Step() != 0
    ensures l.At(a + d) - l.At(a) == if l.Step() > 0 then Abs(l.Step()) * d else -(Abs(l.Step()) * d)
  {
    assert l.Step() * (a + d) - l.Step() * a == l.Step() * d;
  }

  // ---------- the whole team ----------

  /** Round (k / c) / n of thread (k / c) % n runs iteration k exactly if the end of its chunk fits. */
  lemma OwnerRuns(l: Team, k: nat)
    requires l.Ok() && l.Short() && k < l.Total()
    ensures l.Meets((k / l.Size()) % l.n, (k / l.Size()) / l.n, l.At(k)) <==> l.Fits(k / l.Size())
  {
    hide Team.First, Team.Last, Team.Bounds, Runs, IntType.Has, Iter, RoundLower, RoundUpper, Team.LastChunk;
    var t, j := Owner(l, k);
    RoundIs(l, t, j);
    OwnerCovers(l, k);
  }

  lemma OwnerCovers(l: Team, k: nat)
    requires l.Ok() && l.Short() && k < l.Total()
    ensures l.Covers(k / l.Size(), l.At(k)) <==> l.Fits(k / l.Size())
  {
    hide Team.First, Team.Last, Runs, IntType.Has, Iter, Team.LastChunk;
    var b := k / l.Size();
    OwnChunk(l, k);
    MulNext(b, l.Size());
    if l.ty.Has(l.At(b * l.Size() + l.Size() - 1)) {
      CoversOwn(l, b, k);
    } else {
      Cut(l, b);
      RunsSome(l.First(b), l.Last(b), l.upper, l.Step(), l.At(k));
    }
  }

  lemma Owner(l: Team, k: nat) returns (t: nat, j: nat)
    requires l.Ok() && k < l.Total()
    ensures t == (k / l.Size()) % l.n && j == (k / l.Size()) / l.n && t < l.n
    ensures l.Chunk(t, j) == k / l.Size() <= l.LastChunk()
  {
    t, j := (k / l.Size()) % l.n, (k / l.Size()) / l.n;
    InRound(l.n, t, j, k / l.Size());
    OwnChunk(l, k);
  }

  lemma OwnChunk(l: Team, k: nat)
    requires l.Ok() && k < l.Total()
    ensures k / l.Size() <= l.LastChunk()
  {
    InChunk(l.Size(), k / l.Size(), k);
    ChunkPlace(l, k / l.Size());
  }

  /** The chunks of the loop before the last, and the last if its end fits, find something to do. */
  lemma Busy(l: Team, b: nat)
    requires l.Ok() && b <= l.LastChunk() && l.ty.Has(l.At(b * l.Size() + l.Size() - 1))
    ensures l.Occupied(b)
  {
    hide Team.First, Team.Last, Runs, IntType.Has, Iter;
    ChunkPlace(l, b);
    InChunk(l.Size(), b, b * l.Size());
    CoversOwn(l, b, b * l.Size());
    RunsSome(l.First(b), l.Last(b), l.upper, l.Step(), l.At(b * l.Size()));
  }

  lemma ChunkFits(l: Team, b: nat)
    requires l.Ok() && (b < l.LastChunk() || (b == l.LastChunk() && l.Fits(l.LastChunk())))
    ensures l.Fits(b) && l.ty.Has(l.At(b * l.Size() + l.Size() - 1))
  {
    hide IntType.Has, Iter, Team.LastChunk;
    FirstIs(l, b);
    MulNext(b, l.Size());
  }

  /** A thread that comes to a chunk of the loop, or to its first one after, has found its earlier
      chunks occupied. */
  lemma Arrives(l: Team, t: nat, j: nat)
    requires l.Ok() && t < l.n
    requires l.Chunk(t, j) <= l.LastChunk() || (l.Fits(l.LastChunk()) && l.Next(l.Chunk(t, j)))
    ensures forall i: nat | i < j :: l.OccupiedRound(t, i)
  {
    hide Team.Occupied, IntType.Has, Iter, Team.LastChunk, Team.Fits;
    forall i: nat | i < j
      ensures l.OccupiedRound(t, i)
    {
      MulOrder(i + 1, j, l.n);
      MulNext(i, l.n);
      ChunkFits(l, l.Chunk(t, i));
      Busy(l, l.Chunk(t, i));
    }
  }

  /** A thread that is past the loop's last chunk has come through the first such chunk. */
  lemma {:induction false} CameThrough(l: Team, t: nat, j: nat) returns (i: nat)
    requires l.Ok() && t < l.n && l.Chunk(t, j) > l.LastChunk()
    ensures i <= j && l.Next(l.Chunk(t, i))
  {
    hide Team.LastChunk;
    if l.Chunk(t, j) <= l.LastChunk() + l.n {
      i := j;
    } else {
      assert j > 0;
      MulNext(j - 1, l.n);
      i := CameThrough(l, t, j - 1);
    }
  }

  /** The first chunk after the loop's last of every thread comes out empty. */
  ghost predicate Stops(l: Team)
    requires l.Ok()
  {
    forall b: nat | l.Next(b) :: !l.Occupied(b)
  }

  lemma StaysInLoop(l: Team, t: nat, j: nat, x: int)
    requires l.Ok() && Stops(l) && t < l.n && l.Does(t, j, x)
    ensures l.Chunk(t, j) <= l.LastChunk()
  {
    hide Team.First, Team.Last, Team.Does, Team.LastChunk, Runs, Some;
    DoesIs(l, t, j, x);
    if l.Chunk(t, j) > l.LastChunk() {
      var i := CameThrough(l, t, j);
      assert !l.OccupiedRound(t, i);
      RunsSome(l.First(l.Chunk(t, j)), l.Last(l.Chunk(t, j)), l.upper, l.Step(), x);
    }
  }

  /** Whatever of the loop is run is run by its owner, and the owner runs it. */
  lemma OwnersOnly(l: Team, t: nat, j: nat, k: nat)
    requires l.Ok() && l.Fits(l.LastChunk()) && t < l.n && k < l.Total() && l.Chunk(t, j) <= l.LastChunk()
    ensures l.Does(t, j, l.At(k)) <==> t == (k / l.Size()) % l.n && j == (k / l.Size()) / l.n
  {
    hide Team.First, Team.Last, Team.Does, Team.LastChunk, Team.Covers, Iter, Team.Fits, IntType.Has;
    ChunkFits(l, l.Chunk(t, j));
    CoversOwn(l, l.Chunk(t, j), k);
    Arrives(l, t, j);
    DoesIs(l, t, j, l.At(k));
    InRound(l.n, t, j, k / l.Size());
  }

  lemma RightIf(l: Team)
    requires l.Ok() && l.Fits(l.LastChunk()) && Stops(l)
    ensures l.Right()
  {
    hide Team.Does, Team.LastChunk, Team.Chunk, Team.Total, Team.Covers, Iter, Team.Fits, IntType.Has, Stops;
    forall t: nat, j: nat, x: int | t < l.n && l.Does(t, j, x)
      ensures exists k: nat :: k < l.Total() && x == l.At(k)
    {
      StaysInLoop(l, t, j, x);
      DoesIs(l, t, j, x);
      var k := CoversInside(l, l.Chunk(t, j), x);
    }
    assert l.OnlyLoop();
    forall k: nat | k < l.Total()
      ensures l.Done(k)
    {
      var t, j := Owner(l, k);
      OwnersOnly(l, t, j, k);
    }
    assert l.AllDone();
    forall k: nat, t: nat, j: nat, u: nat, i: nat
      | k < l.Total() && t < l.n && u < l.n && l.Does(t, j, l.At(k)) && l.Does(u, i, l.At(k))
      ensures t == u && j == i
    {
      StaysInLoop(l, t, j, l.At(k));
      StaysInLoop(l, u, i, l.At(k));
      OwnersOnly(l, t, j, k);
      OwnersOnly(l, u, i, k);
    }
  }

  lemma DoneTwice(l: Team, k: nat, t: nat, j: nat, u: nat, i: nat)
    requires l.Ok() && k < l.Total() && t < l.n && u < l.n && l.Does(t, j, l.At(k)) && l.Does(u, i, l.At(k))
    requires t != u || j != i
    ensures !l.Right()
  {
    hide Team.Does, Team.Total, Team.At;
  }

  /** The other way round: a chunk after the loop's last that is found occupied runs something of
      the loop again, or something that is not of the loop. */
  lemma MustStop(l: Team)
    requires l.Ok() && l.Fits(l.LastChunk()) && l.Right()
    ensures Stops(l)
  {
    hide Team.Does, Team.LastChunk, Team.Covers, Iter, Team.Fits, IntType.Has, Team.Total;
    forall b: nat | l.Next(b)
      ensures !l.Occupied(b)
    {
      if l.Occupied(b) {
        var t, j, x := b % l.n, b / l.n, l.First(b);
        InRound(l.n, t, j, b);
        MeetsFirst(l, b);
        Arrives(l, t, j);
        DoesIs(l, t, j, x);
        var k: nat :| k < l.Total() && x == l.At(k);
        var u, i := Owner(l, k);
        OwnersOnly(l, u, i, k);
        DoneTwice(l, k, t, j, u, i);
      }
    }
  }

  lemma MeetsFirst(l: Team, b: nat)
    requires l.Ok() && l.Occupied(b)
    ensures l.Covers(b, l.First(b))
  {
    RunsSome(l.First(b), l.Last(b), l.upper, l.Step(), l.First(b));
  }

  /** The final iteration is run only if the end of its chunk fits: if another chunk wraps around
      onto it, that chunk also runs the iteration before the last chunk, or one before the loop. */
  lemma MustFit(l: Team)
    requires l.Ok() && l.Short() && l.Right()
    ensures l.Fits(l.LastChunk())
  {
    hide Team.Does, Team.LastChunk, Team.Covers, Iter, Team.Fits, IntType.Has, Team.Total;
    var N := l.Total();
    assert l.Done(N - 1);
    var t: nat, j: nat :| t < l.n && l.Does(t, j, l.At(N - 1));
    DoesIs(l, t, j, l.At(N - 1));
    var b := l.Chunk(t, j);
    if !l.Fits(l.LastChunk()) {
      if b <= l.LastChunk() {
        NotByLoop(l, b);
      } else {
        RunsBefore(l, t, j);
      }
    }
  }

  lemma NotByLoop(l: Team, b: nat)
    requires l.Ok() && l.Short() && !l.Fits(l.LastChunk()) && b <= l.LastChunk()
    ensures !l.Covers(b, l.At(l.Total() - 1))
  {
    hide Team.First, Team.Last, Runs, Iter, IntType.Has;
    var N, B := l.Total(), l.LastChunk();
    MulNext(B, l.Size());
    if b < B {
      ChunkFits(l, b);
      CoversOwn(l, b, N - 1);
    } else {
      Cut(l, b);
      RunsSome(l.First(b), l.Last(b), l.upper, l.Step(), l.At(N - 1));
    }
  }

  lemma RunsBefore(l: Team, t: nat, j: nat)
    requires l.Ok() && l.Short() && !l.Fits(l.LastChunk()) && t < l.n && l.Chunk(t, j) > l.LastChunk()
    requires l.Does(t, j, l.At(l.Total() - 1))
    ensures !l.Right()
  {
    hide Team.Does, Team.Covers, Iter, Team.Fits, IntType.Has, Team.LastChunk, Team.Total;
    var p: int := l.LastChunk() * l.Size() - 1;
    DoesIs(l, t, j, l.At(l.Total() - 1));
    LapsBack(l, l.Chunk(t, j));
    var y := l.At(p);
    DoesIs(l, t, j, y);
    if l.Right() {
      var k: nat :| k < l.Total() && y == l.At(k);
      IterInjective(l.lower, l.Step(), k, p);
      var u, i := Owner(l, k);
      BeforeLast(l, k);
      ChunkFits(l, l.Chunk(u, i));
      CoversOwn(l, l.Chunk(u, i), k);
      Arrives(l, u, i);
      DoesIs(l, u, i, y);
      DoneTwice(l, k, t, j, u, i);
    }
  }

  lemma BeforeLast(l: Team, k: nat)
    requires l.Ok() && k == l.LastChunk() * l.Size() - 1
    ensures k / l.Size() < l.LastChunk()
  {
    var c := l.Size();
    InChunk(c, k / c, k);
    if k / c >= l.LastChunk() {
      MulOrder(l.LastChunk(), k / c, c);
    }
  }

  /** A chunk beyond the loop that wraps around onto the final iteration, while the last chunk's
      end does not fit, covers the iteration before the last chunk. */
  lemma LapsBack(l: Team, b: nat)
    requires l.Ok() && l.Short() && !l.Fits(l.LastChunk()) && l.Covers(b, l.At(l.Total() - 1))
    ensures l.Covers(b, l.At(l.LastChunk() * l.Size() - 1))
  {
    hide Team.First, Team.Last, Iter, IntType.Has, IntType.Wrap, Team.LastChunk;
    var s, c, B, N := l.Step(), l.Size(), l.LastChunk(), l.Total();
    var i: nat :| l.At(N - 1) == Iter(l.First(b), s, i);
    var m := N - 1 - i;
    Back(l.lower, l.First(b), s, N - 1, i);
    ChunkPlace(l, B);
    MulNext(B, c);
    EndOf(l, b, m, N - 1);
    if m >= B * c {
      Inside(l, N - 1);
      Inside(l, B * c);
      HasBetween(l, B * c, B * c + c - 1, m + c - 1);
      assert false;
    }
    var k := B * c - 1;
    IterFrom(l.lower, s, m, k);
    IterOrder(l.lower, s, k, N - 1);
    assert l.At(k) == Iter(l.First(b), s, k - m);
    Inside(l, N - 1);
  }

  lemma Back(lower: int, f: int, s: int, k: int, i: int)
    requires Iter(lower, s, k) == Iter(f, s, i)
    ensures f == Iter(lower, s, k - i)
  {
    assert s * (k - i) == s * k - s * i;
  }

  /** A chunk that starts at iteration m and gets as far as iteration k ends c - 1 further on. */
  lemma EndOf(l: Team, b: nat, m: int, k: int)
    requires l.Ok() && l.Short() && l.First(b) == l.At(m) && m <= k && Before(l.Step(), l.At(k), l.Last(b))
    ensures l.Last(b) == l.At(m + l.Size() - 1) && l.ty.Has(l.Last(b))
  {
    hide IntType.Wrap, Cong, Iter;
    var s, c, ty := l.Step(), l.Size(), l.ty;
    LastDef(l, b);
    CongWrap(ty, l.At(b * c + c - 1));
    CongWrap(ty, l.At(b * c));
    Distance(l, b * c, c - 1);
    Distance(l, m, c - 1);
    IterOrder(l.lower, s, m, k);
    SameDistance(ty, l.First(b), l.Last(b), l.At(b * c), l.At(b * c + c - 1));
    CloseEnough(ty, l.Last(b) - l.First(b), l.At(m + c - 1) - l.At(m));
  }

  lemma SameDistance(ty: IntType, f: int, e: int, a: int, d: int)
    requires ty.Valid() && Cong(ty, f, a) && Cong(ty, e, d)
    ensures Cong(ty, e - f, d - a)
  {
    CongAdd(ty, e, d, f, a);
  }

  /** Congruent numbers less than a turn from 0 on the same side are equal. */
  lemma CloseEnough(ty: IntType, a: int, b: int)
    requires ty.Valid() && Cong(ty, a, b) && Abs(a) < 2 * ty.half && Abs(b) < 2 * ty.half
    requires (a >= 0 && b >= 0) || (a <= 0 && b <= 0)
    ensures a == b
  {
    var k := CongMultiple(ty, a, b);
    assert ty.half == 0x8000_0000 ==> a == b + k * 0x1_0000_0000;
    assert ty.half != 0x8000_0000 ==> a == b + k * 0x1_0000_0000_0000_0000;
  }

  /** Every iteration is run exactly once, and nothing else is run, exactly if the end of the last
      chunk fits and the first chunk that each thread comes to after it comes out empty. */
  lemma VisitsOnce(l: Team)
    requires l.Ok() && l.Short()
    ensures l.Right() <==> l.Fits(l.LastChunk()) && Stops(l)
  {
    hide Team.Fits, Stops, Team.Right;
    if l.Fits(l.LastChunk()) && Stops(l) {
      RightIf(l);
    }
    if l.Right() {
      MustFit(l);
      MustStop(l);
    }
  }

  /** The bounds leave room to wrap around: a chunk takes at most half of the type, and ends no
      further than upper when it starts at the far end. */
  predicate Room(l: Team)
    requires l.ty.Valid()
  {
    && l.Width() <= l.ty.half
    && l.Width() <= if l.Step() > 0 then l.upper - l.ty.Min() + 1 else l.ty.Max() - l.upper + 1
  }

  /** Each thread's first chunk after the loop starts at a number that fits. */
  predicate NextFit(l: Team)
    requires NonEmpty(l.lower, l.upper, l.Step())
  {
    l.ty.Has(l.At((l.LastChunk() + l.n) * l.Size()))
  }

  lemma NextStop(l: Team)
    requires l.Ok() && NextFit(l)
    ensures l.Fits(l.LastChunk()) && Stops(l)
  {
    hide IntType.Has, Iter, IntType.Wrap, Team.LastChunk, Some;
    var B, c := l.LastChunk(), l.Size();
    ChunkPlace(l, B);
    Inside(l, B * c);
    MulOrder(B + 1, B + l.n, c);
    MulNext(B, c);
    HasBetween(l, B * c, (B + 1) * c - 1, (B + l.n) * c);
    forall b: nat | l.Next(b)
      ensures !l.Occupied(b)
    {
      MulOrder(b, B + l.n, c);
      MulOrder(B, b, c);
      HasBetween(l, B * c, b * c, (B + l.n) * c);
      ChunkPlace(l, b);
      SmallWrap(l.ty, l.At(b * c));
      Past(l, b * c);
      LastDef(l, b);
      NotSome(l.First(b), l.Last(b), l.upper, l.Step());
    }
  }

  lemma NotSome(first: int, last: int, upper: int, s: int)
    requires !Before(s, first, upper)
    ensures !Some(first, last, upper, s)
  {
  }

  /** The first start that does not fit. */
  lemma {:induction false} FirstMisfit(l: Team, d: nat) returns (b: nat)
    requires l.Ok() && !l.ty.Has(l.At((l.LastChunk() + d) * l.Size()))
    ensures l.LastChunk() < b <= l.LastChunk() + d
    ensures !l.ty.Has(l.At(b * l.Size())) && l.ty.Has(l.At((b - 1) * l.Size()))
  {
    hide IntType.Has, Iter, Team.LastChunk;
    var B, c := l.LastChunk(), l.Size();
    ChunkPlace(l, B);
    Inside(l, B * c);
    assert d > 0;
    if l.ty.Has(l.At((B + d - 1) * c)) {
      b := B + d;
    } else {
      b := FirstMisfit(l, d - 1);
    }
  }

  /** With room, the first chunk whose start does not fit comes out occupied. */
  lemma Misfit(l: Team, b: nat)
    requires l.Ok() && Room(l) && b > l.LastChunk()
    requires !l.ty.Has(l.At(b * l.Size())) && l.ty.Has(l.At((b - 1) * l.Size()))
    ensures l.Occupied(b)
  {
    hide IntType.Wrap, IntType.Has, Iter, Team.LastChunk, Some, Team.Width, Team.Rest, Team.At, Abs;
    var c := l.Size();
    NextChunk(l, b);
    LastDef(l, b);
    WrapsIn(l.ty, l.Step(), l.At((b - 1) * c), l.Width(), l.Rest(), l.upper);
  }

  lemma NextChunk(l: Team, b: nat)
    requires l.Step() != 0 && b > 0
    ensures var c := l.Size();
            && l.At(b * c) == (if l.Step() > 0 then l.At((b - 1) * c) + l.Width() else l.At((b - 1) * c) - l.Width())
            && l.At(b * c + c - 1) == (if l.Step() > 0 then l.At(b * c) + l.Rest() else l.At(b * c) - l.Rest())
    ensures 0 <= l.Rest() < l.Width()
  {
    var s, c := Abs(l.Step()), l.Size();
    MulNext(b - 1, c);
    Distance(l, (b - 1) * c, c);
    Distance(l, b * c, c - 1);
    WidthIs(s, c);
  }

  lemma WidthIs(s: nat, c: nat)
    requires c > 0
    ensures s * c == s * (c - 1) + s && s * (c - 1) >= 0
  {
    MulNonNegative(s, c - 1);
  }

  /** A chunk that starts a span after x, and no longer fits, wraps around to where it is run. */
  lemma WrapsIn(ty: IntType, s: int, x: int, span: nat, rest: nat, upper: int)
    requires ty.Valid() && s != 0 && ty.Has(x) && ty.Has(upper) && rest < span <= ty.half
    requires span <= if s > 0 then upper - ty.Min() + 1 else ty.Max() - upper + 1
    requires !ty.Has(if s > 0 then x + span else x - span)
    ensures var first := if s > 0 then x + span else x - span;
            Some(ty.Wrap(first), ty.Wrap(if s > 0 then first + rest else first - rest), upper, s)
  {
    hide IntType.Wrap;
    var first := if s > 0 then x + span else x - span;
    WrapTurn(ty, first, s > 0);
    WrapTurn(ty, if s > 0 then first + rest else first - rest, s > 0);
  }

  /** With room, the whole condition is that one number fits: where the last thread to stop would
      have started its next chunk. */
  lemma VisitsOnceFits(l: Team)
    requires l.Ok() && Room(l)
    ensures l.Right() <==> NextFit(l)
  {
    RoomShort(l);
    hide Team.Fits, Stops, Team.Right, IntType.Has, Iter, Room, Team.LastChunk, Team.Occupied, Team.Short;
    VisitsOnce(l);
    if NextFit(l) {
      NextStop(l);
    } else {
      var b := FirstMisfit(l, l.n);
      Misfit(l, b);
      Stopping(l, b);
    }
  }

  lemma Stopping(l: Team, b: nat)
    requires l.Ok() && l.Next(b) && l.Occupied(b)
    ensures !Stops(l)
  {
  }

  lemma RoomShort(l: Team)
    requires l.Ok() && Room(l)
    ensures l.Short()
  {
    WidthIs(Abs(l.Step()), l.Size());
  }

  // ---------- loops that go wrong ----------

  /** The end of the last chunk wraps around: one thread counts from 0 to 2^31 - 2 in chunks of 3,
      and its last round, which owns iteration 2^31 - 2, does not run it. */
  lemma EndLost()
    ensures var l := Team(INT32, 1, 0, 0x7fff_fffe, 1, 3);
            && l.Ok() && Countable(l.ty, l.lower, l.upper, l.incr) && l.Total() == 0x7fff_ffff
            && l.At(0x7fff_fffe) == 0x7fff_fffe && RoundUpper(l.ty, l.Bounds(0), 715827882) == -0x8000_0000
            && !l.Meets(0, 715827882, 0x7fff_fffe) && !l.Right()
  {
    hide RoundUpper, RoundLower, Team.Bounds, Team.Right, Runs;
    var l := Team(INT32, 1, 0, 0x7fff_fffe, 1, 3);
    assert 0x7fff_fffe / 1 == 0x7fff_fffe;
    assert l.Ok() && l.Short() && l.Total() == 0x7fff_ffff;
    assert 0x7fff_fffe / 3 == 715827882;
    RoundIs(l, 0, 715827882);
    OwnerRuns(l, 0x7fff_fffe);
    EndWraps();
    VisitsOnce(l);
  }

  lemma EndWraps()
    ensures var l := Team(INT32, 1, 0, 0x7fff_fffe, 1, 3);
            l.Last(715827882) == -0x8000_0000 && !l.Fits(715827882)
  {
  }

  /** The next chunk wraps around: four threads and chunks of 2^30 iterations of a ten-iteration
      loop start the third thread at -2^31, before the loop. */
  lemma ChunkedWrapsAround()
    ensures var l := Team(INT32, 4, 0, 9, 1, 0x4000_0000);
            l.Ok() && Room(l) && l.First(2) == -0x8000_0000 && l.Occupied(2) && !l.Right()
  {
    hide Team.Right, Stops;
    var l := Team(INT32, 4, 0, 9, 1, 0x4000_0000);
    assert 9 / 1 == 9;
    assert l.Ok() && l.LastChunk() == 0;
    VisitsOnceFits(l);
  }

  /** A start that does not fit does no harm if it wraps around to beyond the loop: so without room
      for wrapping around, NextFit is not necessary. */
  lemma HarmlessWrap()
    ensures var l := Team(UINT32, 3, 0, 9, 1, 0xc000_0000);
            l.Ok() && l.Short() && !Room(l) && !NextFit(l) && l.Right()
  {
    var l := Team(UINT32, 3, 0, 9, 1, 0xc000_0000);
    assert 9 / 1 == 9;
    assert l.Ok() && l.LastChunk() == 0;
    assert l.First(1) == 0xc000_0000 && l.First(2) == 0x8000_0000 && l.First(3) == 0x4000_0000;
    assert forall b: nat | l.Next(b) :: b == 1 || b == 2 || b == 3;
    VisitsOnce(l);
  }
}
