/** kmp.c: static partition of a loop among the threads of a team (OpenMP API 4.5, section
    2.7.1), for the four integer types it is instantiated with. */
module StaticFor {

  // ---------- machine integers ----------

  datatype IntType = IntType(signed: bool, half: int)
  {
    /** `half` is half the number of values of the type. */
    predicate Valid() {
      half == 0x8000_0000 || half == 0x8000_0000_0000_0000
    }

    function Min(): int {
      if signed then -half else 0
    }

    function Max(): int {
      if signed then half - 1 else 2 * half - 1
    }

    predicate Has(x: int) {
      Min() <= x <= Max()
    }

    /** Two's complement wrap-around. */
    function Wrap(x: int): (r: int)
      requires Valid()
      ensures Has(r)
    {
      if signed then (x + half) % (2 * half) - half else x % (2 * half)
    }

    /** The increment as the programmer wrote it: an unsigned type carries a negative one as its
        two's complement. */
    function Step(incr: int): int {
      if !signed && incr >= half then incr - 2 * half else incr
    }
  }

  const INT32 := IntType(true, 0x8000_0000)
  const UINT32 := IntType(false, 0x8000_0000)

  /** C's division, which truncates towards zero. */
  function Quot(a: int, b: int): int
    requires b != 0
  {
    if (a >= 0) == (b > 0) then Abs(a) / Abs(b) else -(Abs(a) / Abs(b))
  }

  /** C's remainder, whose sign is that of the dividend. */
  function Rem(a: int, b: int): int
    requires b != 0
  {
    a - b * Quot(a, b)
  }

  function Abs(a: int): nat {
    if a < 0 then -a else a
  }

  /** a and b agree modulo the number of values of the type. */
  predicate Cong(ty: IntType, a: int, b: int)
    requires ty.Valid()
  {
    (a - b) % (2 * ty.half) == 0
  }

  lemma CongWrap(ty: IntType, x: int)
    requires ty.Valid()
    ensures Cong(ty, ty.Wrap(x), x)
  {
    var y := if ty.signed then x + ty.half else x;
    assert y % (2 * ty.half) - y == -(y / (2 * ty.half)) * (2 * ty.half);
    Multiple(ty, -(y / (2 * ty.half)));
  }

  lemma Multiple(ty: IntType, k: int)
    requires ty.Valid()
    ensures (k * (2 * ty.half)) % (2 * ty.half) == 0
  {
    if ty.half == 0x8000_0000 {
      assert (k * 0x1_0000_0000) % 0x1_0000_0000 == 0;
    } else {
      assert (k * 0x1_0000_0000_0000_0000) % 0x1_0000_0000_0000_0000 == 0;
    }
  }

  lemma CongMultiple(ty: IntType, a: int, b: int) returns (k: int)
    requires ty.Valid() && Cong(ty, a, b)
    ensures a == b + k * (2 * ty.half)
  {
    k := (a - b) / (2 * ty.half);
  }

  lemma CongAdd(ty: IntType, a: int, b: int, c: int, d: int)
    requires ty.Valid() && Cong(ty, a, b) && Cong(ty, c, d)
    ensures Cong(ty, a + c, b + d) && Cong(ty, a - c, b - d)
  {
    var m := 2 * ty.half;
    var k := CongMultiple(ty, a, b);
    var l := CongMultiple(ty, c, d);
    assert a + c - (b + d) == (k + l) * m;
    assert a - c - (b - d) == (k - l) * m;
    Multiple(ty, k + l);
    Multiple(ty, k - l);
  }

  lemma CongMul(ty: IntType, a: int, b: int, c: int)
    requires ty.Valid() && Cong(ty, a, b)
    ensures Cong(ty, c * a, c * b)
  {
    var m := 2 * ty.half;
    var k := CongMultiple(ty, a, b);
    assert c * a - c * b == (c * k) * m;
    Multiple(ty, c * k);
  }

  /** Congruent values of the type are equal. */
  lemma CongEqual(ty: IntType, a: int, b: int)
    requires ty.Valid() && Cong(ty, a, b) && ty.Has(a) && ty.Has(b)
    ensures a == b
  {
    var k := CongMultiple(ty, a, b);
    assert ty.half == 0x8000_0000 ==> a == b + k * 0x1_0000_0000;
    assert ty.half != 0x8000_0000 ==> a == b + k * 0x1_0000_0000_0000_0000;
  }

  lemma CongStep(ty: IntType, incr: int)
    requires ty.Valid()
    ensures Cong(ty, incr, ty.Step(incr))
  {
  }

  lemma NegationNotZero(ty: IntType, incr: int)
    requires ty.Valid() && ty.Has(incr) && incr != 0
    ensures ty.Wrap(-incr) != 0
  {
    CongWrap(ty, -incr);
    ZeroOnly(ty, incr, ty.Wrap(-incr));
  }

  lemma ZeroOnly(ty: IntType, incr: int, w: int)
    requires ty.Valid() && ty.Has(incr) && Cong(ty, w, -incr)
    ensures w == 0 ==> incr == 0
  {
    var k := CongMultiple(ty, w, -incr);
    assert ty.half == 0x8000_0000 ==> w == -incr + k * 0x1_0000_0000;
    assert ty.half != 0x8000_0000 ==> w == -incr + k * 0x1_0000_0000_0000_0000;
  }

  // ---------- what kmp.c computes ----------

  datatype Schedule = StaticChunked | Static

  /** total_trips, in the loop variable's type. */
  function Trips(ty: IntType, lower: int, upper: int, incr: int): int
    requires ty.Valid() && ty.Has(incr) && incr != 0
  {
    if incr == 1 then ty.Wrap(ty.Wrap(upper - lower) + 1)
    else if incr == ty.Wrap(-1) then ty.Wrap(ty.Wrap(lower - upper) + 1)
    else if incr > 1 then ty.Wrap(Quot(ty.Wrap(upper - lower), incr) + 1)
    else ty.Wrap((NegationNotZero(ty, incr); Quot(ty.Wrap(lower - upper), ty.Wrap(-incr))) + 1)
  }

  /** Bounds and last-iteration flag of one thread. */
  datatype Share = Share(lower: int, upper: int, stride: int, last: bool)

  function StaticShare(ty: IntType, gtid: nat, nthreads: nat, lower: int, upper: int, stride: int, incr: int): Share
    requires ty.Valid() && ty.Has(incr) && incr != 0 && nthreads > 0
  {
    var trips := Trips(ty, lower, upper, incr);
    if trips < nthreads then FewShare(ty, gtid, lower, upper, stride, incr, trips)
    else ManyShare(ty, gtid, nthreads, lower, stride, incr, trips)
  }

  /** Fewer iterations than threads. */
  function FewShare(ty: IntType, gtid: nat, lower: int, upper: int, stride: int, incr: int, trips: int): Share
    requires ty.Valid()
  {
    var last := gtid == ty.Wrap(trips - 1);
    if gtid < trips then
      var only := ty.Wrap(lower + ty.Wrap(gtid * incr));
      Share(only, only, stride, last)
    else Share(ty.Wrap(upper + incr), upper, stride, last)
  }

  /** How far thread gtid's first iteration is from the start of the loop. */
  function Offset(ty: IntType, gtid: nat, incr: int, chunk: int, extras: int): int
    requires ty.Valid()
  {
    ty.Wrap(incr * ty.Wrap(ty.Wrap(gtid * chunk) + (if gtid < extras then gtid else extras)))
  }

  function ManyShare(ty: IntType, gtid: nat, nthreads: nat, lower: int, stride: int, incr: int, trips: int): Share
    requires ty.Valid() && nthreads > 0
  {
    var chunk, extras := trips / nthreads, trips % nthreads;
    var lo := ty.Wrap(lower + Offset(ty, gtid, incr, chunk, extras));
    var up := ty.Wrap(ty.Wrap(lo + ty.Wrap(chunk * incr)) - (if gtid < extras then 0 else incr));
    Share(lo, up, stride, gtid == nthreads - 1)
  }

  function ChunkedShare(ty: IntType, gtid: nat, nthreads: nat, lower: int, upper: int, incr: int, chunk: int): Share
    requires ty.Valid() && ty.Has(incr) && incr != 0 && nthreads > 0
  {
    var c := ChunkSize(chunk);
    var span := ty.Wrap(c * incr);
    var lo := ty.Wrap(lower + ty.Wrap(span * gtid));
    var last := ty.Wrap(Trips(ty, lower, upper, incr) - 1);
    Share(lo, ty.Wrap(ty.Wrap(lo + span) - incr), ty.Wrap(span * nthreads), gtid == Rem(Quot(last, c), nthreads))
  }

  function ChunkSize(chunk: int): nat {
    if chunk < 1 then 1 else chunk
  }

  /** __kmpc_for_static_init_*: the bounds, the stride and the flag are updated through
      pointers, one thread at a time. */
  method ForStaticInit(ty: IntType, schedule: Schedule, gtid: nat, nthreads: nat, lower: int, upper: int, stride: int,
                       incr: int, chunk: int)
    returns (plower: int, pupper: int, pstride: int, plastiter: bool)
    requires ty.Valid() && ty.Has(lower) && ty.Has(upper) && ty.Has(incr) && ty.Has(chunk)
    requires incr != 0 && gtid < nthreads < 0x8000_0000
    ensures schedule.Static? ==>
              Share(plower, pupper, pstride, plastiter) == StaticShare(ty, gtid, nthreads, lower, upper, stride, incr)
    ensures schedule.StaticChunked? ==>
              Share(plower, pupper, pstride, plastiter) == ChunkedShare(ty, gtid, nthreads, lower, upper, incr, chunk)
    ensures schedule.Static? && LoopOk(ty, lower, upper, incr) && Countable(ty, lower, upper, incr)
              && gtid < Iterations(lower, upper, ty.Step(incr)) ==>
              var s, N := ty.Step(incr), Iterations(lower, upper, ty.Step(incr));
              && plower == Iter(lower, s, Start(N, nthreads, gtid))
              && pupper == Iter(lower, s, Start(N, nthreads, gtid) + Count(N, nthreads, gtid) - 1)
              && (plastiter <==> pupper == Iter(lower, s, N - 1))
  {
    var trips := TotalTrips(ty, lower, upper, incr);
    match schedule {
      case Static =>
        plower, pupper, plastiter := InitStatic(ty, gtid, nthreads, lower, upper, stride, incr, trips);
        pstride := stride;
        StaticOwner(ty, gtid, nthreads, lower, upper, stride, incr);
      case StaticChunked =>
        plower, pupper, pstride, plastiter := InitChunked(ty, gtid, nthreads, lower, upper, incr, chunk, trips);
    }
  }

  method TotalTrips(ty: IntType, lower: int, upper: int, incr: int) returns (trips: int)
    requires ty.Valid() && ty.Has(lower) && ty.Has(upper) && ty.Has(incr) && incr != 0
    ensures trips == Trips(ty, lower, upper, incr)
    ensures LoopOk(ty, lower, upper, incr) && Countable(ty, lower, upper, incr) ==>
              trips == Iterations(lower, upper, ty.Step(incr))
  {
    hide IntType.Wrap;
    if incr == 1 {
      trips := ty.Wrap(ty.Wrap(upper - lower) + 1);
    } else if incr == ty.Wrap(-1) {
      trips := ty.Wrap(ty.Wrap(lower - upper) + 1);
    } else if incr > 1 {
      trips := ty.Wrap(Quot(ty.Wrap(upper - lower), incr) + 1);
    } else {
      NegationNotZero(ty, incr);
      trips := ty.Wrap(Quot(ty.Wrap(lower - upper), ty.Wrap(-incr)) + 1);
    }
    if LoopOk(ty, lower, upper, incr) {
      TripsRight(ty, lower, upper, incr);
    }
  }

  /** The kmp_sch_static case. */
  method InitStatic(ty: IntType, gtid: nat, nthreads: nat, lower: int, upper: int, ghost stride: int, incr: int, trips: int)
    returns (plower: int, pupper: int, plastiter: bool)
    requires ty.Valid() && ty.Has(incr) && incr != 0 && gtid < nthreads
    requires trips == Trips(ty, lower, upper, incr)
    ensures Share(plower, pupper, stride, plastiter) == StaticShare(ty, gtid, nthreads, lower, upper, stride, incr)
  {
    hide IntType.Wrap, Trips, Offset;
    plower, pupper := lower, upper;
    if trips < nthreads {
      if gtid < trips {
        plower := ty.Wrap(plower + ty.Wrap(gtid * incr));
        pupper := plower;
      } else {
        plower := ty.Wrap(pupper + incr);
      }
      plastiter := gtid == ty.Wrap(trips - 1);
      assert Share(plower, pupper, stride, plastiter) == FewShare(ty, gtid, lower, upper, stride, incr, trips);
    } else {
      var chunk, extras := trips / nthreads, trips % nthreads;
      plower := ty.Wrap(plower + Offset(ty, gtid, incr, chunk, extras));
      pupper := ty.Wrap(ty.Wrap(plower + ty.Wrap(chunk * incr)) - (if gtid < extras then 0 else incr));
      plastiter := gtid == nthreads - 1;
      assert Share(plower, pupper, stride, plastiter) == ManyShare(ty, gtid, nthreads, lower, stride, incr, trips);
    }
    hide FewShare, ManyShare;
  }

  /** The kmp_sch_static_chunked case. */
  method InitChunked(ty: IntType, gtid: nat, nthreads: nat, lower: int, upper: int, incr: int, chunk: int, trips: int)
    returns (plower: int, pupper: int, pstride: int, plastiter: bool)
    requires ty.Valid() && ty.Has(incr) && incr != 0 && gtid < nthreads
    requires trips == Trips(ty, lower, upper, incr)
    ensures Share(plower, pupper, pstride, plastiter) == ChunkedShare(ty, gtid, nthreads, lower, upper, incr, chunk)
  {
    hide IntType.Wrap, Trips, Quot, Rem;
    var c := if chunk < 1 then 1 else chunk;
    var span := ty.Wrap(c * incr);
    pstride := ty.Wrap(span * nthreads);
    plower := ty.Wrap(lower + ty.Wrap(span * gtid));
    pupper := ty.Wrap(ty.Wrap(plower + span) - incr);
    plastiter := gtid == Rem(Quot(ty.Wrap(trips - 1), c), nthreads);
  }

  // ---------- what a partition should be ----------

  /** A loop from lower to upper by s that runs at least once. */
  predicate NonEmpty(lower: int, upper: int, s: int) {
    (s > 0 && lower <= upper) || (s < 0 && lower >= upper)
  }

  function Span(lower: int, upper: int): nat {
    Abs(upper - lower)
  }

  /** Number of iterations. */
  function Iterations(lower: int, upper: int, s: int): (n: int)
    requires NonEmpty(lower, upper, s)
    ensures n >= 1
  {
    Span(lower, upper) / Abs(s) + 1
  }

  /** Iterations of thread t when N iterations are dealt out to n threads as evenly as possible. */
  function Count(N: nat, n: nat, t: nat): nat
    requires n > 0
  {
    N / n + if t < N % n then 1 else 0
  }

  function Start(N: nat, n: nat, t: nat): nat
    requires n > 0
  {
    t * (N / n) + if t < N % n then t else N % n
  }

  /** The shares follow each other without gap or overlap, from the first iteration to the
      last, and differ in size by at most one. */
  lemma SharesTile(N: nat, n: nat, t: nat, u: nat)
    requires t < n && u < n
    ensures Start(N, n, 0) == 0 && Start(N, n, n) == N
    ensures Start(N, n, t + 1) == Start(N, n, t) + Count(N, n, t)
    ensures Count(N, n, t) <= Count(N, n, u) + 1
  {
    assert (t + 1) * (N / n) == t * (N / n) + N / n;
    assert n * (N / n) + N % n == N;
  }

  lemma {:induction false} StartMonotonic(N: nat, n: nat, t: nat, u: nat)
    requires t <= u <= n && n > 0
    ensures Start(N, n, t) <= Start(N, n, u)
  {
    if t < u {
      StartMonotonic(N, n, t, u - 1);
      SharesTile(N, n, u - 1, 0);
    }
  }

  predicate Owns(N: nat, n: nat, t: nat, k: nat)
    requires n > 0
  {
    Start(N, n, t) <= k < Start(N, n, t) + Count(N, n, t)
  }

  lemma {:induction false} FindOwner(N: nat, n: nat, k: nat, u: nat) returns (t: nat)
    requires 0 < u <= n && k < Start(N, n, u)
    ensures t < u && Owns(N, n, t, k)
  {
    SharesTile(N, n, u - 1, 0);
    if Start(N, n, u - 1) <= k {
      t := u - 1;
    } else {
      t := FindOwner(N, n, k, u - 1);
    }
  }

  /** Every iteration belongs to exactly one thread. */
  lemma OwnerExistsUniquely(N: nat, n: nat, k: nat)
    requires n > 0 && k < N
    ensures exists t | 0 <= t < n :: Owns(N, n, t, k) && forall u | 0 <= u < n && Owns(N, n, u, k) :: u == t
  {
    SharesTile(N, n, 0, 0);
    var t := FindOwner(N, n, k, n);
    forall u | 0 <= u < n && Owns(N, n, u, k)
      ensures u == t
    {
      SharesTile(N, n, t, t);
      SharesTile(N, n, u, u);
      if u < t {
        StartMonotonic(N, n, u + 1, t);
      } else if t < u {
        StartMonotonic(N, n, t + 1, u);
      }
    }
  }

  // ---------- the trip count ----------

  lemma DivBounds(a: nat, b: nat)
    requires b > 0
    ensures (a / b) * b <= a < (a / b + 1) * b
  {
  }

  lemma SmallWrap(ty: IntType, x: int)
    requires ty.Valid() && ty.Has(x)
    ensures ty.Wrap(x) == x
  {
    CongWrap(ty, x);
    CongEqual(ty, ty.Wrap(x), x);
  }

  /** One turn of the type back or on. */
  lemma WrapTurn(ty: IntType, x: int, up: bool)
    requires ty.Valid() && ty.Has(if up then x - 2 * ty.half else x + 2 * ty.half)
    ensures ty.Wrap(x) == if up then x - 2 * ty.half else x + 2 * ty.half
  {
    var y := if up then x - 2 * ty.half else x + 2 * ty.half;
    CongWrap(ty, x);
    Multiple(ty, if up then 1 else -1);
    CongTrans(ty, ty.Wrap(x), x, y);
    CongEqual(ty, ty.Wrap(x), y);
  }

  /** For a loop whose span fits its type, the trip count is right exactly when the type is
      signed, or the loop goes up or down by one, or it runs once, or takes a single step. */
  lemma TripsRight(ty: IntType, lower: int, upper: int, incr: int)
    requires ty.Valid() && ty.Has(lower) && ty.Has(upper) && ty.Has(incr) && incr != 0
    requires NonEmpty(lower, upper, ty.Step(incr)) && Span(lower, upper) + 1 <= ty.Max()
    ensures Trips(ty, lower, upper, incr) == Iterations(lower, upper, ty.Step(incr))
            <==> ty.signed || ty.Step(incr) >= -1 || lower == upper || lower - upper == -ty.Step(incr)
  {
    var s, span := ty.Step(incr), Span(lower, upper);
    if s > 0 {
      TripsUp(ty, lower, upper, incr);
    } else if s == -1 {
      SmallWrap(ty, span);
      SmallWrap(ty, span + 1);
      MinusOne(ty);
      assert span / 1 == span;
    } else if ty.signed {
      SignedDown(ty, lower, upper, incr);
    } else {
      UnsignedDown(ty, lower, upper, incr);
    }
  }

  lemma MinusOne(ty: IntType)
    requires ty.Valid()
    ensures ty.Wrap(-1) == (if ty.signed then -1 else ty.Max())
  {
  }

  lemma TripsUp(ty: IntType, lower: int, upper: int, incr: int)
    requires ty.Valid() && ty.Has(lower) && ty.Has(upper) && ty.Has(incr) && 0 < incr == ty.Step(incr)
    requires lower <= upper && Span(lower, upper) + 1 <= ty.Max()
    ensures Trips(ty, lower, upper, incr) == Iterations(lower, upper, incr)
  {
    var span := upper - lower;
    SmallWrap(ty, span);
    SmallWrap(ty, span + 1);
    MinusOne(ty);
    if incr == 1 {
      assert span / 1 == span;
    } else {
      QuotFits(ty, span, incr);
    }
  }

  lemma DivLess(a: nat, b: nat)
    requires b > 0
    ensures 0 <= a / b <= a
  {
    DivBounds(a, b);
    QuotientLess(a, b, a / b);
  }

  lemma QuotientLess(a: nat, b: nat, q: int)
    requires b > 0 && q * b <= a < (q + 1) * b
    ensures 0 <= q <= a
  {
    if q > a {
      MulGrows(q, b);
    }
    if q + 1 <= 0 {
      MulGrows(-(q + 1), b);
    }
  }

  lemma MulGrows(q: nat, b: nat)
    requires b > 0
    ensures q * b >= q
  {
  }

  lemma QuotFits(ty: IntType, a: nat, b: nat)
    requires ty.Valid() && b > 0 && a + 1 <= ty.Max()
    ensures Quot(a, b) == a / b && ty.Wrap(a / b + 1) == a / b + 1
  {
    DivLess(a, b);
    var q := a / b;
    SmallWrap(ty, q + 1);
  }

  lemma SignedDown(ty: IntType, lower: int, upper: int, incr: int)
    requires ty.Valid() && ty.signed && ty.Has(lower) && ty.Has(upper) && ty.Has(incr) && incr < -1
    requires lower >= upper && Span(lower, upper) + 1 <= ty.Max()
    ensures Trips(ty, lower, upper, incr) == Iterations(lower, upper, incr)
  {
    var span := lower - upper;
    SmallWrap(ty, span);
    SmallWrap(ty, -1);
    if incr == ty.Min() {
      // the negated increment overflows back to itself, and the quotient is 0 either way
      WrapBack(ty);
      SmallWrap(ty, 1);
      assert span / ty.half == 0;
    } else {
      SmallWrap(ty, -incr);
      QuotFits(ty, span, -incr);
    }
  }

  lemma WrapBack(ty: IntType)
    requires ty.Valid() && ty.signed
    ensures ty.Wrap(-ty.Min()) == ty.Min()
  {
  }

  lemma UnsignedDown(ty: IntType, lower: int, upper: int, incr: int)
    requires ty.Valid() && !ty.signed && ty.Has(lower) && ty.Has(upper) && ty.Has(incr) && ty.Step(incr) < -1
    requires lower >= upper && Span(lower, upper) + 1 <= ty.Max()
    ensures Trips(ty, lower, upper, incr) == Iterations(lower, upper, ty.Step(incr))
            <==> lower == upper || lower - upper == -ty.Step(incr)
  {
    var s, span := ty.Step(incr), lower - upper;
    MinusOne(ty);
    if span == 0 {
      SmallWrap(ty, 0);
      SmallWrap(ty, 1);
      assert 0 / incr == 0 && 0 / Abs(s) == 0;
    } else {
      WrapTurn(ty, upper - lower, false);
      var w := 2 * ty.half - span;
      OneOrNone(w, incr);
      OneOrNone(span, -s);
      SmallWrap(ty, 1);
      SmallWrap(ty, 2);
      if span > -s {
        DivBounds(span, -s);
      }
    }
  }

  lemma OneOrNone(a: nat, b: nat)
    requires b > 0
    ensures a < b ==> a / b == 0
    ensures b <= a < 2 * b ==> a / b == 1
    ensures b <= a ==> a / b >= 1
  {
    DivBounds(a, b);
    var q := a / b;
    if q >= 2 {
      assert q * b >= 2 * b;
    }
    if q < 1 {
      assert (q + 1) * b <= b;
    }
  }

  // ---------- the shares are right ----------

  lemma CongTrans(ty: IntType, a: int, b: int, c: int)
    requires ty.Valid() && Cong(ty, a, b) && Cong(ty, b, c)
    ensures Cong(ty, a, c)
  {
    var k := CongMultiple(ty, a, b);
    var l := CongMultiple(ty, b, c);
    assert a - c == (k + l) * (2 * ty.half);
    Multiple(ty, k + l);
  }

  /** Wrapping a sum, difference or product of congruent values keeps them congruent. */
  lemma WrapAdd(ty: IntType, x: int, a: int, b: int)
    requires ty.Valid() && Cong(ty, a, b)
    ensures Cong(ty, ty.Wrap(x + a), x + b)
  {
    CongSelf(ty, x);
    CongAdd(ty, x, x, a, b);
    CongWrap(ty, x + a);
    CongTrans(ty, ty.Wrap(x + a), x + a, x + b);
  }

  lemma CongSelf(ty: IntType, x: int)
    requires ty.Valid()
    ensures Cong(ty, x, x)
  {
    Multiple(ty, 0);
  }

  lemma WrapMul(ty: IntType, c: int, d: int, a: int, b: int)
    requires ty.Valid() && Cong(ty, a, b) && Cong(ty, c, d)
    ensures Cong(ty, ty.Wrap(c * a), d * b)
  {
    CongMul(ty, a, b, c);
    CongMul(ty, c, d, b);
    assert c * b == b * c && d * b == b * d;
    CongTrans(ty, c * a, c * b, d * b);
    CongWrap(ty, c * a);
    CongTrans(ty, ty.Wrap(c * a), c * a, d * b);
  }

  /** Iteration k of the loop. */
  function Iter(lower: int, s: int, k: int): int {
    lower + s * k
  }

  /** Iterations stay between the bounds of the loop, and the one after the last is at most one
      step beyond the upper bound. */
  lemma IterInside(lower: int, upper: int, s: int, k: nat)
    requires NonEmpty(lower, upper, s) && k < Iterations(lower, upper, s)
    ensures s > 0 ==> lower <= Iter(lower, s, k) <= upper
    ensures s < 0 ==> upper <= Iter(lower, s, k) <= lower
  {
    var span, m := Span(lower, upper), Abs(s);
    DivBounds(span, m);
    var q := span / m;
    assert 0 <= m * k <= q * m by {
      assert q * m - m * k == (q - k) * m;
      MulGrows(m, k + 1);
      MulGrows(q - k, m);
    }
    if s < 0 {
      assert s * k == -(m * k);
    }
  }

  ghost predicate LoopOk(ty: IntType, lower: int, upper: int, incr: int) {
    && ty.Valid() && ty.Has(lower) && ty.Has(upper) && ty.Has(incr) && incr != 0
    && NonEmpty(lower, upper, ty.Step(incr)) && Span(lower, upper) + 1 <= ty.Max()
  }

  /** Where the trip count is right: see TripsRight. */
  predicate Countable(ty: IntType, lower: int, upper: int, incr: int) {
    ty.signed || ty.Step(incr) >= -1 || lower == upper || lower - upper == -ty.Step(incr)
  }

  /** The static schedule hands thread gtid exactly the iterations it owns.  A thread that owns
      none gets a loop that does not run exactly if one step beyond the upper bound fits.  The
      thread that owns the final iteration, and no other, is told so. */
  lemma StaticShareRight(ty: IntType, gtid: nat, n: nat, lower: int, upper: int, stride: int, incr: int)
    requires LoopOk(ty, lower, upper, incr) && Countable(ty, lower, upper, incr) && gtid < n < 0x8000_0000
    ensures var s, N, r := ty.Step(incr), Iterations(lower, upper, ty.Step(incr)),
                           StaticShare(ty, gtid, n, lower, upper, stride, incr);
            var a, c := Start(N, n, gtid), Count(N, n, gtid);
            && (c > 0 ==> r.lower == Iter(lower, s, a) && r.upper == Iter(lower, s, a + c - 1))
            && (c == 0 ==> r.upper == upper && (r.lower == upper + s <==> ty.Has(upper + s))
                           && (NonEmpty(r.lower, r.upper, s) <==> !ty.Has(upper + s)))
            && (r.last <==> c > 0 && a + c == N)
  {
    var N := Iterations(lower, upper, ty.Step(incr));
    TripsRight(ty, lower, upper, incr);
    DivLess(Span(lower, upper), Abs(ty.Step(incr)));
    SmallWrap(ty, N - 1);
    SharesTile(N, n, gtid, 0);
    if N < n {
      FewIterations(ty, gtid, n, lower, upper, stride, incr);
    } else {
      ManyIterations(ty, gtid, n, lower, upper, stride, incr, N);
    }
  }

  lemma FewIterations(ty: IntType, gtid: nat, n: nat, lower: int, upper: int, stride: int, incr: int)
    requires LoopOk(ty, lower, upper, incr) && gtid < n && Iterations(lower, upper, ty.Step(incr)) < n
    requires Trips(ty, lower, upper, incr) == Iterations(lower, upper, ty.Step(incr))
    requires ty.Wrap(Iterations(lower, upper, ty.Step(incr)) - 1) == Iterations(lower, upper, ty.Step(incr)) - 1
    ensures var s, N, r := ty.Step(incr), Iterations(lower, upper, ty.Step(incr)),
                           StaticShare(ty, gtid, n, lower, upper, stride, incr);
            && Count(N, n, gtid) == (if gtid < N then 1 else 0) && (gtid < N ==> Start(N, n, gtid) == gtid)
            && (gtid < N ==> r.lower == r.upper == Iter(lower, s, gtid))
            && (gtid >= N ==> r.upper == upper && (r.lower == upper + s <==> ty.Has(upper + s))
                              && (NonEmpty(r.lower, r.upper, s) <==> !ty.Has(upper + s)))
            && (r.last <==> gtid == N - 1)
  {
    var s, N := ty.Step(incr), Iterations(lower, upper, ty.Step(incr));
    OneOrNone(N, n);
    CongStep(ty, incr);
    if gtid < N {
      CongSelf(ty, gtid);
      WrapMul(ty, gtid, gtid, incr, s);
      WrapAdd(ty, lower, ty.Wrap(gtid * incr), gtid * s);
      IterInside(lower, upper, s, gtid);
      assert gtid * s == s * gtid;
      CongEqual(ty, ty.Wrap(lower + ty.Wrap(gtid * incr)), Iter(lower, s, gtid));
    } else {
      IdleBounds(ty, upper, incr);
    }
  }

  /** The bounds of a thread without iterations: one step beyond the upper bound, and the upper
      bound. */
  lemma IdleBounds(ty: IntType, upper: int, incr: int)
    requires ty.Valid() && ty.Has(upper) && ty.Has(incr) && incr != 0
    ensures ty.Wrap(upper + incr) == upper + ty.Step(incr) <==> ty.Has(upper + ty.Step(incr))
    ensures NonEmpty(ty.Wrap(upper + incr), upper, ty.Step(incr)) <==> !ty.Has(upper + ty.Step(incr))
  {
    hide IntType.Wrap, Cong;
    var s := ty.Step(incr);
    CongStep(ty, incr);
    WrapAdd(ty, upper, incr, s);
    if ty.Has(upper + s) {
      CongEqual(ty, ty.Wrap(upper + incr), upper + s);
    } else {
      var y := if s > 0 then upper + s - 2 * ty.half else upper + s + 2 * ty.half;
      CongTurn(ty, upper + s, y);
      CongTrans(ty, ty.Wrap(upper + incr), upper + s, y);
      CongEqual(ty, ty.Wrap(upper + incr), y);
    }
  }

  lemma CongTurn(ty: IntType, x: int, y: int)
    requires ty.Valid() && (x - y == 2 * ty.half || y - x == 2 * ty.half)
    ensures Cong(ty, x, y)
  {
    Multiple(ty, 1);
    Multiple(ty, -1);
  }

  lemma ManyIterations(ty: IntType, gtid: nat, n: nat, lower: int, upper: int, stride: int, incr: int, N: nat)
    requires LoopOk(ty, lower, upper, incr) && N == Iterations(lower, upper, ty.Step(incr)) && gtid < n <= N
    ensures var s, r := ty.Step(incr), ManyShare(ty, gtid, n, lower, stride, incr, N);
            var a, c := Start(N, n, gtid), Count(N, n, gtid);
            && c > 0 && a + c <= N && (a + c == N <==> gtid == n - 1) && (r.last <==> gtid == n - 1)
            && r.lower == Iter(lower, s, a) && r.upper == Iter(lower, s, a + c - 1)
  {
    ShareInside(N, n, gtid);
    LowerRight(ty, gtid, n, lower, upper, incr, N);
    LastRight(ty, gtid, n, lower, upper, incr, N);
  }

  lemma LastRight(ty: IntType, gtid: nat, n: nat, lower: int, upper: int, incr: int, N: nat)
    requires LoopOk(ty, lower, upper, incr) && N == Iterations(lower, upper, ty.Step(incr)) && gtid < n <= N
    ensures Count(N, n, gtid) > 0
    ensures ty.Wrap(ty.Wrap(Iter(lower, ty.Step(incr), Start(N, n, gtid)) + ty.Wrap((N / n) * incr))
                    - (if gtid < N % n then 0 else incr))
            == Iter(lower, ty.Step(incr), Start(N, n, gtid) + Count(N, n, gtid) - 1)
  {
    var s := ty.Step(incr);
    var a, c, chunk := Start(N, n, gtid), Count(N, n, gtid), N / n;
    ShareInside(N, n, gtid);
    OneOrNone(N, n);
    IterInside(lower, upper, s, a + c - 1);
    UpperRight(ty, lower, incr, a, chunk);
    var up := ty.Wrap(Iter(lower, s, a) + ty.Wrap(chunk * incr));
    if gtid < N % n {
      SmallWrap(ty, up);
      CongEqual(ty, up, Iter(lower, s, a + c - 1));
    } else {
      CongEqual(ty, ty.Wrap(up - incr), Iter(lower, s, a + c - 1));
    }
  }

  lemma StepOn(lower: int, s: int, a: int, j: int)
    ensures Iter(lower, s, a) + j * s == Iter(lower, s, a + j)
    ensures Iter(lower, s, a) - s == Iter(lower, s, a - 1)
  {
  }

  /** The upper bound computed from the lower bound of iteration a: chunk steps on, and one
      step back. */
  lemma UpperRight(ty: IntType, lower: int, incr: int, a: int, chunk: nat)
    requires ty.Valid()
    ensures var up := ty.Wrap(Iter(lower, ty.Step(incr), a) + ty.Wrap(chunk * incr));
            && Cong(ty, up, Iter(lower, ty.Step(incr), a + chunk))
            && Cong(ty, ty.Wrap(up - incr), Iter(lower, ty.Step(incr), a + chunk - 1))
  {
    var s := ty.Step(incr);
    var lo := Iter(lower, s, a);
    CongStep(ty, incr);
    CongSelf(ty, chunk);
    WrapMul(ty, chunk, chunk, incr, s);
    WrapAdd(ty, lo, ty.Wrap(chunk * incr), chunk * s);
    var up := ty.Wrap(lo + ty.Wrap(chunk * incr));
    StepOn(lower, s, a, chunk);
    StepOn(lower, s, a + chunk, 0);
    var next := Iter(lower, s, a + chunk);
    CongAdd(ty, up, next, incr, s);
    CongWrap(ty, up - incr);
    CongTrans(ty, ty.Wrap(up - incr), up - incr, next - s);
  }

  lemma ShareInside(N: nat, n: nat, t: nat)
    requires t < n <= N
    ensures Count(N, n, t) > 0 && Start(N, n, t) + Count(N, n, t) <= N
    ensures Start(N, n, t) + Count(N, n, t) == N <==> t == n - 1
  {
    OneOrNone(N, n);
    SharesTile(N, n, t, 0);
    StartMonotonic(N, n, t + 1, n);
    if t < n - 1 {
      SharesTile(N, n, n - 1, 0);
      StartMonotonic(N, n, t + 1, n - 1);
    }
  }

  lemma LowerRight(ty: IntType, gtid: nat, n: nat, lower: int, upper: int, incr: int, N: nat)
    requires LoopOk(ty, lower, upper, incr) && N == Iterations(lower, upper, ty.Step(incr)) && gtid < n <= N
    ensures ty.Wrap(lower + Offset(ty, gtid, incr, N / n, N % n))
            == Iter(lower, ty.Step(incr), Start(N, n, gtid))
  {
    hide IntType.Wrap, Cong;
    var s, a := ty.Step(incr), Start(N, n, gtid);
    var m := if gtid < N % n then gtid else N % n;
    var e1 := ty.Wrap(gtid * (N / n));
    CongWrap(ty, gtid * (N / n));
    WrapAdd(ty, m, e1, gtid * (N / n));
    var e2 := ty.Wrap(e1 + m);
    CongStep(ty, incr);
    WrapMul(ty, incr, s, e2, a);
    WrapAdd(ty, lower, ty.Wrap(incr * e2), s * a);
    ShareInside(N, n, gtid);
    IterInside(lower, upper, s, a);
    CongEqual(ty, ty.Wrap(lower + ty.Wrap(incr * e2)), Iter(lower, s, a));
  }

  lemma StaticOwner(ty: IntType, gtid: nat, n: nat, lower: int, upper: int, stride: int, incr: int)
    requires ty.Valid() && ty.Has(incr) && incr != 0 && gtid < n < 0x8000_0000
    ensures LoopOk(ty, lower, upper, incr) && Countable(ty, lower, upper, incr)
              && gtid < Iterations(lower, upper, ty.Step(incr)) ==>
              var s, N, r := ty.Step(incr), Iterations(lower, upper, ty.Step(incr)),
                             StaticShare(ty, gtid, n, lower, upper, stride, incr);
              && r.lower == Iter(lower, s, Start(N, n, gtid))
              && r.upper == Iter(lower, s, Start(N, n, gtid) + Count(N, n, gtid) - 1)
              && (r.last <==> r.upper == Iter(lower, s, N - 1))
  {
    if LoopOk(ty, lower, upper, incr) && Countable(ty, lower, upper, incr)
       && gtid < Iterations(lower, upper, ty.Step(incr)) {
      var s, N := ty.Step(incr), Iterations(lower, upper, ty.Step(incr));
      StaticShareRight(ty, gtid, n, lower, upper, stride, incr);
      OwnsSome(N, n, gtid);
      IterInjective(lower, s, Start(N, n, gtid) + Count(N, n, gtid) - 1, N - 1);
    }
  }

  lemma OwnsSome(N: nat, n: nat, t: nat)
    requires t < n && t < N
    ensures Count(N, n, t) > 0
  {
    OneOrNone(N, n);
  }

  lemma IterInjective(lower: int, s: int, j: int, k: int)
    requires s != 0
    ensures Iter(lower, s, j) == Iter(lower, s, k) <==> j == k
  {
    assert s * j - s * k == s * (j - k);
  }

  /** Where the trip count is wrong, a thread runs too little: an unsigned loop counting down by
      two from 10 to 0 on one thread runs only its first iteration. */
  lemma UnsignedDownLosesIterations()
    ensures LoopOk(UINT32, 10, 0, 0xffff_fffe) && Iterations(10, 0, UINT32.Step(0xffff_fffe)) == 6
    ensures StaticShare(UINT32, 0, 1, 10, 0, 0, 0xffff_fffe) == Share(10, 10, 0, true)
  {
    assert Trips(UINT32, 10, 0, 0xffff_fffe) == 1;
  }

  /** Without room for a step beyond the upper bound, a thread without iterations runs some: of
      three threads that count from 1 down to 0 the last starts at the largest number. */
  lemma IdleThreadRuns()
    ensures var r := StaticShare(UINT32, 2, 3, 1, 0, 0, 0xffff_ffff);
            && LoopOk(UINT32, 1, 0, 0xffff_ffff) && Countable(UINT32, 1, 0, 0xffff_ffff)
            && Iterations(1, 0, UINT32.Step(0xffff_ffff)) == 2
            && r.lower == 0xffff_ffff && r.upper == 0 && NonEmpty(r.lower, r.upper, -1)
  {
    assert 1 / 1 == 1;
    assert Trips(UINT32, 1, 0, 0xffff_ffff) == 2;
  }

  // ---------- overflow ----------

  /** Nothing thread gtid computes for a signed static loop leaves the type. */
  ghost predicate StaticFits(ty: IntType, gtid: nat, n: nat, lower: int, upper: int, incr: int)
    requires NonEmpty(lower, upper, incr) && n > 0
  {
    var N := Iterations(lower, upper, incr);
    && ty.Has(Span(lower, upper)) && ty.Has(N) && (incr < -1 ==> ty.Has(-incr))
    && if N < n then
         if gtid < N then ty.Has(gtid * incr) && ty.Has(lower + gtid * incr) else ty.Has(upper + incr)
       else
         var share, extras := N / n, N % n;
         var skipped := gtid * share + (if gtid < extras then gtid else extras);
         var lo := lower + incr * skipped;
         && ty.Has(gtid * share) && ty.Has(skipped) && ty.Has(incr * skipped) && ty.Has(lo)
         && ty.Has(share * incr) && ty.Has(lo + share * incr)
         && ty.Has(lo + share * incr - (if gtid < extras then 0 else incr))
  }

  /** What a caller can check: the loop's span and trip count fit, the step can be negated, the
      iteration after the last fits (or, with idle threads, the bound plus a step), and one
      thread alone can hold the length of the whole loop. */
  ghost predicate StaticGuard(ty: IntType, n: nat, lower: int, upper: int, incr: int)
    requires NonEmpty(lower, upper, incr)
  {
    var N := Iterations(lower, upper, incr);
    && ty.Has(Span(lower, upper)) && ty.Has(N) && (incr < -1 ==> ty.Has(-incr))
    && (if N < n then ty.Has(upper + incr) else ty.Has(lower + incr * N))
    && (n == 1 ==> ty.Has(N * incr))
  }

  ghost predicate SignedLoop(ty: IntType, lower: int, upper: int, incr: int) {
    && ty.Valid() && ty.signed && ty.Has(lower) && ty.Has(upper) && ty.Has(incr)
    && NonEmpty(lower, upper, incr)
  }

  /** The threads of a team compute their shares of a signed loop without overflow exactly when
      the guard holds. */
  lemma StaticNoOverflow(ty: IntType, n: nat, lower: int, upper: int, incr: int)
    requires SignedLoop(ty, lower, upper, incr) && n > 0
    ensures (forall gtid | 0 <= gtid < n :: StaticFits(ty, gtid, n, lower, upper, incr))
            <==> StaticGuard(ty, n, lower, upper, incr)
  {
    var N := Iterations(lower, upper, incr);
    if StaticGuard(ty, n, lower, upper, incr) {
      forall gtid | 0 <= gtid < n
        ensures StaticFits(ty, gtid, n, lower, upper, incr)
      {
        if N < n {
          FewFit(ty, gtid, n, lower, upper, incr);
        } else {
          ManyFit(ty, gtid, n, lower, upper, incr);
        }
      }
    }
    if forall gtid | 0 <= gtid < n :: StaticFits(ty, gtid, n, lower, upper, incr) {
      LastNeeds(ty, n, lower, upper, incr);
    }
  }

  /** Distances within the loop fit. */
  lemma DistanceFits(ty: IntType, lower: int, upper: int, incr: int, k: nat)
    requires SignedLoop(ty, lower, upper, incr) && ty.Has(Span(lower, upper))
    requires k < Iterations(lower, upper, incr)
    ensures ty.Has(incr * k) && ty.Has(k * incr) && ty.Has(Iter(lower, incr, k))
  {
    IterInside(lower, upper, incr, k);
    assert incr * k == k * incr;
  }

  lemma FewFit(ty: IntType, gtid: nat, n: nat, lower: int, upper: int, incr: int)
    requires SignedLoop(ty, lower, upper, incr) && StaticGuard(ty, n, lower, upper, incr)
    requires Iterations(lower, upper, incr) < n
    ensures StaticFits(ty, gtid, n, lower, upper, incr)
  {
    if gtid < Iterations(lower, upper, incr) {
      DistanceFits(ty, lower, upper, incr, gtid);
    }
  }

  lemma ManyFit(ty: IntType, gtid: nat, n: nat, lower: int, upper: int, incr: int)
    requires SignedLoop(ty, lower, upper, incr) && StaticGuard(ty, n, lower, upper, incr)
    requires gtid < n <= Iterations(lower, upper, incr)
    ensures StaticFits(ty, gtid, n, lower, upper, incr)
  {
    hide Iterations, Iter;
    var N := Iterations(lower, upper, incr);
    var a, c, share := Start(N, n, gtid), Count(N, n, gtid), N / n;
    ShareInside(N, n, gtid);
    MulNonNegative(gtid, share);
    DistanceFits(ty, lower, upper, incr, a);
    ChunkFits(ty, n, lower, upper, incr);
    DistanceFits(ty, lower, upper, incr, a + c - 1);
    StepOn(lower, incr, a, share);
    StepOn(lower, incr, a + share, 0);
    if a + share < N {
      DistanceFits(ty, lower, upper, incr, a + share);
    }
    IterIs(lower, incr, a);
    IterIs(lower, incr, N);
  }

  lemma MulOrder(a: int, b: int, c: nat)
    requires a <= b
    ensures a * c <= b * c
  {
    MulNonNegative(b - a, c);
    assert (b - a) * c == b * c - a * c;
  }

  lemma MulNonNegative(a: nat, b: nat)
    ensures a * b >= 0
  {
  }

  lemma MulNext(a: int, c: int)
    ensures (a + 1) * c == a * c + c
  {
  }

  lemma IterIs(lower: int, s: int, k: int)
    ensures Iter(lower, s, k) == lower + s * k
  {
  }

  lemma ChunkFits(ty: IntType, n: nat, lower: int, upper: int, incr: int)
    requires SignedLoop(ty, lower, upper, incr) && StaticGuard(ty, n, lower, upper, incr)
    requires 0 < n <= Iterations(lower, upper, incr)
    ensures ty.Has((Iterations(lower, upper, incr) / n) * incr)
  {
    var N := Iterations(lower, upper, incr);
    if n == 1 {
      assert N / 1 == N;
    } else {
      Half(N, n);
      DistanceFits(ty, lower, upper, incr, N / n);
    }
  }

  lemma Half(N: nat, n: nat)
    requires 2 <= n <= N
    ensures 0 <= N / n < N
  {
    var q := N / n;
    DivBounds(N, n);
    if q >= N {
      MulOrder(N, q, n);
      MulOrder(2, n, N);
    }
    if q < 0 {
      MulOrder(q + 1, 0, n);
    }
  }

  lemma LastNeeds(ty: IntType, n: nat, lower: int, upper: int, incr: int)
    requires SignedLoop(ty, lower, upper, incr) && n > 0
    requires StaticFits(ty, n - 1, n, lower, upper, incr)
    ensures StaticGuard(ty, n, lower, upper, incr)
  {
    hide Iterations;
    var N := Iterations(lower, upper, incr);
    if N >= n {
      SharesTile(N, n, n - 1, 0);
      var a, share := Start(N, n, n - 1), N / n;
      assert N % n <= n - 1;
      StepOn(lower, incr, a, share);
      IterIs(lower, incr, a);
      IterIs(lower, incr, N);
      assert n == 1 ==> N / n == N;
    }
  }

  /** It is not enough that upper - lower + 1 and upper + incr fit: one thread multiplies its
      trip count by the step before it subtracts. */
  lemma GuardNotImplied()
    ensures var lower, upper := -5, INT32.Max() - 6;
            && SignedLoop(INT32, lower, upper, 2) && INT32.Has(upper - lower + 1) && INT32.Has(upper + 2)
            && !StaticFits(INT32, 0, 1, lower, upper, 2)
  {
    var N := Iterations(-5, INT32.Max() - 6, 2);
    assert N == 0x4000_0000;
    assert N / 1 == N;
  }
}
