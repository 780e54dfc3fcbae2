/** verdef.h and verneed.h: the translators of version records, which follow the walk of Versions. */
module VersionXlt {
  import opened Sequences
  import opened Bytes
  import opened Records
  import opened Versions
  import opened VersionChains

  // ---------- the translators ----------

  /** What the walk has done so far, and what is left of it. */
  ghost predicate Sofar(k: Kind, s: seq<byte>, n: nat, from: Encoding, done: seq<Rec>, rest: Trace)
    requires n <= |s|
  {
    Walk(k, s, n, from, 0) == Join(Trace(done, [], true), rest)
  }

  /** The translation of a buffer s into one that held d. */
  ghost predicate Done(k: Kind, now: seq<byte>, d: seq<byte>, s: seq<byte>, done: seq<Rec>, from: Encoding, to: Encoding) {
    |d| == |s| && AllInside(k, done, |s|) && now == Applied(k, d, s, done, from, to)
  }

  /** The walk meets no record that a record written before overlaps. */
  ghost predicate NoOverlap(k: Kind, s: seq<byte>, n: nat, from: Encoding)
    requires n <= |s|
  {
    AllApart(k, Walk(k, s, n, from, 0).written + Walk(k, s, n, from, 0).rejected)
  }

  /** Also in place, the walk reads the bytes that were there at the start. */
  lemma ReadsOriginal(k: Kind, s: seq<byte>, now: seq<byte>, n: nat, done: seq<Rec>, rest: Trace, r: Rec, from: Encoding, to: Encoding)
    requires n <= |s| && Sofar(k, s, n, from, done, rest) && NoOverlap(k, s, n, from)
    requires Done(k, now, s, s, done, from, to) && Inside(k, r, n)
    requires (rest.written != [] && rest.written[0] == r) || (rest.written == [] && rest.rejected == [r])
    ensures Load(k, now, r, from) == Load(k, s, r, from)
  {
    var w := Walk(k, s, n, from, 0);
    var all := w.written + w.rejected;
    assert all[|done|] == r;
    forall i | 0 <= i < |done|
      ensures Apart(k, done[i], r)
    {
      assert all[i] == done[i];
      assert Apart(k, all[i], all[|done|]);
    }
    AppliedElsewhere(k, s, s, done, from, to, r);
  }

  lemma DoneOne(k: Kind, now: seq<byte>, d: seq<byte>, s: seq<byte>, done: seq<Rec>, r: Rec, from: Encoding, to: Encoding)
    requires Done(k, now, d, s, done, from, to) && Inside(k, r, |s|) && |now| == |s|
    ensures Done(k, Overwritten(now, r.off, Translated(k, s, r, from, to)), d, s, done + [r], from, to)
  {
    AppliedOne(k, d, s, done, r, from, to);
  }

  /** The walk has written one more record. */
  lemma SofarOn(k: Kind, s: seq<byte>, n: nat, from: Encoding, done: seq<Rec>, r: Rec, rest: Trace)
    requires n <= |s| && Sofar(k, s, n, from, done, Then(r, rest))
    ensures Sofar(k, s, n, from, done + [r], rest)
  {
    assert done + ([r] + rest.written) == (done + [r]) + rest.written;
  }

  lemma JoinEmpty(t: Trace)
    ensures Join(Trace([], [], true), t) == t
  {
  }

  lemma JoinThen(r: Rec, t: Trace, u: Trace)
    ensures Join(Then(r, t), u) == Then(r, Join(t, u))
  {
    assert ([r] + t.written) + u.written == [r] + (t.written + u.written);
  }

  /** What the proof of a translation is about: the buffers at its start, and whether it goes to
      another buffer, or in place without overlaps. */
  datatype Job = Job(k: Kind, s: seq<byte>, d: seq<byte>, n: nat, from: Encoding, to: Encoding, plain: bool)

  ghost predicate State(j: Job, dst: array<byte>, src: array<byte>, done: seq<Rec>, rest: Trace)
    reads dst, src
  {
    && j.n <= src.Length == dst.Length == |j.s| == |j.d| && (src != dst ==> src[..] == j.s)
    && dst[j.n..] == j.d[j.n..]
    && (j.plain ==> Done(j.k, dst[..], j.d, j.s, done, j.from, j.to) && Sofar(j.k, j.s, j.n, j.from, done, rest))
    && (j.plain && src == dst ==> NoOverlap(j.k, j.s, j.n, j.from) && j.d == j.s)
  }

  /** Reads the next record of the walk. */
  method ReadRec(r: Rec, dst: array<byte>, src: array<byte>, k: Kind, from: Encoding, ghost j: Job, ghost done: seq<Rec>, ghost rest: Trace)
    returns (v: seq<nat>)
    requires State(j, dst, src, done, rest) && Inside(k, r, j.n) && k == j.k && from == j.from
    requires (rest.written != [] && rest.written[0] == r) || (rest.written == [] && rest.rejected == [r]) || !j.plain
    ensures Fit(Fmt(k, r.aux), v) && (j.plain ==> v == Load(k, j.s, r, from))
  {
    v := Load(k, src[..], r, from);
    if j.plain && src == dst {
      ReadsOriginal(k, j.s, src[..], j.n, done, rest, r, from, j.to);
    }
  }

  method WriteRec(r: Rec, v: seq<nat>, dst: array<byte>, src: array<byte>, k: Kind, to: Encoding, ghost j: Job, ghost done: seq<Rec>, ghost rest: Trace)
    requires State(j, dst, src, done, if j.plain then Then(r, rest) else rest) && Inside(k, r, j.n) && k == j.k && to == j.to
    requires Fit(Fmt(k, r.aux), v) && (j.plain ==> v == Load(k, j.s, r, j.from))
    modifies dst
    ensures State(j, dst, src, done + [r], rest)
  {
    ghost var now := dst[..];
    var b := StoredRec(k, r.aux, v, to);
    CopyInto(dst, r.off, b);
    if j.plain {
      assert b == Translated(k, j.s, r, j.from, to);
      DoneOne(k, now, j.d, j.s, done, r, j.from, to);
      SofarOn(k, j.s, j.n, j.from, done, r, rest);
    }
    TailKept(now, r.off, b, j.n);
  }

  lemma TailKept(d: seq<byte>, off: nat, b: seq<byte>, n: nat)
    requires off + |b| <= n <= |d|
    ensures Overwritten(d, off, b)[n..] == d[n..]
  {
  }

  /** xlt_verdef and xlt_verneed: n if the buffer holds a chain of records, else -1.  The walk ends
      for every buffer and writes only in its first n bytes.  Into another buffer, or in place if no visited record overlaps
      another, exactly the records of the chain are translated. */
  method Xlt(k: Kind, dst: array?<byte>, src: array?<byte>, n: nat, from: Encoding, to: Encoding) returns (r: int)
    requires dst != null && src != null ==> n <= src.Length == dst.Length
    modifies dst
    ensures dst == null ==> r == n
    ensures dst != null && src == null ==> r == -1 && dst[..] == old(dst[..])
    ensures dst != null && src != null ==> dst[n..] == old(dst[n..])
    ensures dst != null && src != null && (src != dst || NoOverlap(k, old(src[..]), n, from)) ==>
              var w := Walk(k, old(src[..]), n, from, 0);
              r == (if w.ok then n else -1) && Done(k, dst[..], old(dst[..]), old(src[..]), w.written, from, to)
    ensures dst != null && src != null && (src != dst || NoOverlap(k, old(src[..]), n, from)) ==>
              && (r == n || r == -1) && (r == n <==> exists gs :: IsChain(k, old(src[..]), n, from, 0, gs))
              && forall gs | IsChain(k, old(src[..]), n, from, 0, gs) ::
                   Done(k, dst[..], old(dst[..]), old(src[..]), Visited(gs), from, to)
  {
    if dst == null {
      return n;
    }
    if src == null {
      return -1;
    }
    ghost var j := Job(k, src[..], dst[..], n, from, to, src != dst || NoOverlap(k, src[..], n, from));
    ghost var done: seq<Rec> := [];
    JoinEmpty(Walk(k, j.s, n, from, 0));
    ghost var rest;
    r, done, rest := XltChain(k, dst, src, n, from, to, j);
    ChainExactly(k, j.s, n, from);
  }

  /** The walk succeeds exactly if there is a chain, and visits it. */
  lemma ChainExactly(k: Kind, s: seq<byte>, n: nat, from: Encoding)
    requires n <= |s|
    ensures Walk(k, s, n, from, 0).ok <==> exists gs :: IsChain(k, s, n, from, 0, gs)
    ensures forall gs | IsChain(k, s, n, from, 0, gs) :: Walk(k, s, n, from, 0).written == Visited(gs)
  {
    hide IsChain, Walk;
    forall gs | IsChain(k, s, n, from, 0, gs)
      ensures Walk(k, s, n, from, 0) == Trace(Visited(gs), [], true)
    {
      WalkFollows(k, s, n, from, 0, gs);
    }
    if Walk(k, s, n, from, 0).ok {
      var gs := ChainOf(k, s, n, from, 0);
    }
  }

  /** The chain of records. */
  method XltChain(k: Kind, dst: array<byte>, src: array<byte>, n: nat, from: Encoding, to: Encoding, ghost j: Job)
    returns (r: int, ghost done: seq<Rec>, ghost rest: Trace)
    requires j.k == k && j.n == n <= |j.s| && j.from == from && j.to == to
    requires State(j, dst, src, [], Walk(k, j.s, n, from, 0))
    modifies dst
    ensures State(j, dst, src, done, rest)
    ensures j.plain ==> r == (if Walk(k, j.s, n, from, 0).ok then n else -1) && done == Walk(k, j.s, n, from, 0).written
  {
    hide Walk, Done, Sofar, NoOverlap;
    done, rest := [], Walk(k, j.s, n, from, 0);
    var off: nat := 0;
    while off + RecSize(k, false) <= n
      invariant State(j, dst, src, done, Walk(k, j.s, n, from, off))
      decreases n - off
    {
      var ok, next;
      ok, next, done, rest := XltOne(k, dst, src, n, from, to, off, j, done);
      if !ok {
        Ends(j, dst, src, done, rest);
        return -1, done, rest;
      }
      if next == 0 {
        Ends(j, dst, src, done, rest);
        return n, done, rest;
      }
      off := off + next;
    }
    WalkEnds(k, j.s, n, from, off);
    rest := Trace([], [], true);
    Ends(j, dst, src, done, rest);
    r := n;
  }

  /** When nothing is left to write, the walk is what was done. */
  lemma Ends(j: Job, dst: array<byte>, src: array<byte>, done: seq<Rec>, rest: Trace)
    requires State(j, dst, src, done, rest) && rest.written == []
    ensures j.plain ==> Walk(j.k, j.s, j.n, j.from, 0) == Trace(done, rest.rejected, rest.ok)
  {
  }

  /** One record with its auxiliary records. */
  method XltOne(k: Kind, dst: array<byte>, src: array<byte>, n: nat, from: Encoding, to: Encoding, off: nat,
                ghost j: Job, ghost before: seq<Rec>)
    returns (ok: bool, next: nat, ghost done: seq<Rec>, ghost rest: Trace)
    requires j.k == k && j.n == n <= |j.s| && j.from == from && j.to == to && Inside(k, Rec(off, false), n)
    requires State(j, dst, src, before, Walk(k, j.s, n, from, off))
    modifies dst
    ensures State(j, dst, src, done, rest)
    ensures ok ==> rest == WalkOn(k, j.s, n, from, off, next)
    ensures !ok ==> rest.written == [] && !rest.ok && (rest.rejected == [] || rest.rejected == [Rec(off, false)])
  {
    hide Walk, Done, Sofar, NoOverlap;
    WalkStep(k, j.s, n, from, off);
    var rec := Rec(off, false);
    done, next := before, 0;
    rest := Walk(k, j.s, n, from, off);
    if off % ALIGNMENT != 0 {
      return false, 0, done, rest;
    }
    var v := ReadRec(rec, dst, src, k, from, j, done, rest);
    if !Accepted(k, v) {
      return false, 0, done, if j.plain then rest else Trace([], [], false);
    }
    next := Next(k, v);
    rest := WalkOn(k, j.s, n, from, off, next);
    WriteRec(rec, v, dst, src, k, to, j, done, Join(AuxTrace(k, j.s, n, from, off + AuxOff(k, v), Cnt(k, v)), rest));
    done := done + [rec];
    ok, done := XltAux(k, dst, src, n, from, to, off + AuxOff(k, v), Cnt(k, v), j, done, rest);
    if !ok {
      rest := Trace([], [], false);
    }
  }

  /** The auxiliary records of one record. */
  method XltAux(k: Kind, dst: array<byte>, src: array<byte>, n: nat, from: Encoding, to: Encoding, start: nat, cnt: nat,
                ghost j: Job, ghost before: seq<Rec>, ghost rest: Trace)
    returns (ok: bool, ghost done: seq<Rec>)
    requires j.k == k && j.n == n <= |j.s| && j.from == from && j.to == to
    requires State(j, dst, src, before, Join(AuxTrace(k, j.s, n, from, start, cnt), rest))
    modifies dst
    ensures State(j, dst, src, done, if ok then rest else Trace([], [], false))
  {
    hide AuxTrace, Done, Sofar, NoOverlap;
    done := before;
    var aoff: nat, acount: nat := start, 0;
    while acount < cnt
      invariant acount <= cnt && State(j, dst, src, done, Join(AuxTrace(k, j.s, n, from, aoff, cnt - acount), rest))
    {
      AuxStep(k, j.s, n, from, aoff, cnt - acount);
      JoinEmpty(rest);
      var rec := Rec(aoff, true);
      if aoff + RecSize(k, true) > n {
        break;
      }
      if aoff % ALIGNMENT != 0 {
        return false, done;
      }
      ghost var next := AuxOn(k, j.s, n, from, aoff, cnt - acount - 1, AuxNext(k, Load(k, j.s, rec, from)));
      JoinThen(rec, next, rest);
      var v := ReadRec(rec, dst, src, k, from, j, done, Then(rec, Join(next, rest)));
      WriteRec(rec, v, dst, src, k, to, j, done, if j.plain then Join(next, rest) else rest);
      done := done + [rec];
      if AuxNext(k, v) == 0 {
        break;
      }
      aoff := aoff + AuxNext(k, v);
      acount := acount + 1;
    }
    if acount == cnt {
      AuxStep(k, j.s, n, from, aoff, 0);
      JoinEmpty(rest);
    }
    ok := true;
  }
}
