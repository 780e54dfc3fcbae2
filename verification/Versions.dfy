/** verdef.h and verneed.h: translation of version definitions and version needs, chains of records
    each of which heads a chain of auxiliary records.  The two differ only in their record
    formats; memory and file have the same format and differ in byte order. */
module Versions {
  import opened Sequences
  import opened Bytes
  import opened Records

  datatype Kind = Verdef | Verneed

  /** A record at an offset of the buffer. */
  datatype Rec = Rec(off: nat, aux: bool)

  function Fmt(k: Kind, aux: bool): Format {
    match k
    case Verdef => if aux then [B4, B4] else [B2, B2, B2, B2, B4, B4, B4]
    case Verneed => if aux then [B4, B2, B2, B4, B4] else [B2, B2, B4, B4, B4]
  }

  function RecSize(k: Kind, aux: bool): nat {
    match k
    case Verdef => if aux then 8 else 20
    case Verneed => 16
  }

  lemma FmtSize(k: Kind, aux: bool)
    ensures FormatSize(Fmt(k, aux)) == RecSize(k, aux)
  {
    match k {
      case Verdef =>
        if aux {
          SizeTwo(B4, B4);
        } else {
          SizeFour(B2, B2, B2, B2);
          SizeTwo(B4, B4);
          SizeAppend([B4, B4], [B4]);
          assert Fmt(k, aux) == [B2, B2, B2, B2] + ([B4, B4] + [B4]);
          SizeAppend([B2, B2, B2, B2], [B4, B4] + [B4]);
        }
      case Verneed =>
        if aux {
          SizeFour(B4, B2, B2, B4);
          assert Fmt(k, aux) == [B4, B2, B2, B4] + [B4];
          SizeAppend([B4, B2, B2, B4], [B4]);
        } else {
          SizeFour(B2, B2, B4, B4);
          assert Fmt(k, aux) == [B2, B2, B4, B4] + [B4];
          SizeAppend([B2, B2, B4, B4], [B4]);
        }
    }
  }

  function Version(k: Kind, v: seq<nat>): nat
    requires |v| == |Fmt(k, false)|
  {
    v[0]
  }

  /** Number of auxiliary records, and the distances to the first of them and to the next record. */
  function Cnt(k: Kind, v: seq<nat>): nat
    requires |v| == |Fmt(k, false)|
  {
    if k.Verdef? then v[3] else v[1]
  }

  function AuxOff(k: Kind, v: seq<nat>): nat
    requires |v| == |Fmt(k, false)|
  {
    if k.Verdef? then v[5] else v[3]
  }

  function Next(k: Kind, v: seq<nat>): nat
    requires |v| == |Fmt(k, false)|
  {
    if k.Verdef? then v[6] else v[4]
  }

  function AuxNext(k: Kind, v: seq<nat>): nat
    requires |v| == |Fmt(k, true)|
  {
    if k.Verdef? then v[1] else v[4]
  }

  const ALIGNMENT := 4
  const VER_CURRENT := 1

  // ---------- records in a buffer ----------

  predicate Inside(k: Kind, r: Rec, n: nat) {
    r.off + RecSize(k, r.aux) <= n
  }

  function RecBytes(k: Kind, s: seq<byte>, r: Rec): (b: seq<byte>)
    requires Inside(k, r, |s|)
    ensures |b| == RecSize(k, r.aux)
  {
    s[r.off..r.off + RecSize(k, r.aux)]
  }

  function Load(k: Kind, s: seq<byte>, r: Rec, e: Encoding): (v: seq<nat>)
    requires Inside(k, r, |s|)
    ensures Fit(Fmt(k, r.aux), v)
  {
    FmtSize(k, r.aux);
    LoadRecord(Fmt(k, r.aux), RecBytes(k, s, r), e)
  }

  /** The record's bytes in the other byte order. */
  function Translated(k: Kind, s: seq<byte>, r: Rec, from: Encoding, to: Encoding): (b: seq<byte>)
    requires Inside(k, r, |s|)
    ensures |b| == RecSize(k, r.aux)
  {
    StoredRec(k, r.aux, Load(k, s, r, from), to)
  }

  function StoredRec(k: Kind, aux: bool, v: seq<nat>, to: Encoding): (b: seq<byte>)
    requires Fit(Fmt(k, aux), v)
    ensures |b| == RecSize(k, aux)
  {
    FmtSize(k, aux);
    StoreRecord(Fmt(k, aux), v, to)
  }

  // ---------- the walk ----------

  /** The records the translation writes, in order; the one it rejects, if it fails on one; and
      whether it succeeds. */
  datatype Trace = Trace(written: seq<Rec>, rejected: seq<Rec>, ok: bool)

  function Then(r: Rec, t: Trace): Trace {
    t.(written := [r] + t.written)
  }

  function Join(t: Trace, u: Trace): Trace {
    if t.ok then Trace(t.written + u.written, u.rejected, u.ok) else t
  }

  function AuxTrace(k: Kind, s: seq<byte>, n: nat, e: Encoding, aoff: nat, count: nat): Trace
    requires n <= |s|
    decreases count
  {
    var r := Rec(aoff, true);
    if count == 0 || !Inside(k, r, n) then Trace([], [], true)
    else if aoff % ALIGNMENT != 0 then Trace([], [], false)
    else
      var next := AuxNext(k, Load(k, s, r, e));
      Then(r, if next == 0 then Trace([], [], true) else AuxTrace(k, s, n, e, aoff + next, count - 1))
  }

  lemma AuxStep(k: Kind, s: seq<byte>, n: nat, e: Encoding, aoff: nat, count: nat)
    requires n <= |s|
    ensures AuxTrace(k, s, n, e, aoff, count)
            == if count == 0 || !Inside(k, Rec(aoff, true), n) then Trace([], [], true)
               else if aoff % ALIGNMENT != 0 then Trace([], [], false)
               else Then(Rec(aoff, true), AuxOn(k, s, n, e, aoff, count - 1, AuxNext(k, Load(k, s, Rec(aoff, true), e))))
  {
  }

  function AuxOn(k: Kind, s: seq<byte>, n: nat, e: Encoding, aoff: nat, count: nat, next: nat): Trace
    requires n <= |s|
  {
    if next == 0 then Trace([], [], true) else AuxTrace(k, s, n, e, aoff + next, count)
  }

  function Walk(k: Kind, s: seq<byte>, n: nat, e: Encoding, off: nat): Trace
    requires n <= |s|
    decreases n - off
  {
    var r := Rec(off, false);
    if !Inside(k, r, n) then Trace([], [], true)
    else if off % ALIGNMENT != 0 then Trace([], [], false)
    else
      var v := Load(k, s, r, e);
      if !Accepted(k, v) then Trace([], [r], false)
      else
        var auxs := AuxTrace(k, s, n, e, off + AuxOff(k, v), Cnt(k, v));
        Then(r, Join(auxs, if Next(k, v) == 0 then Trace([], [], true) else Walk(k, s, n, e, off + Next(k, v))))
  }

  /** Version, count and auxiliary offset must make sense. */
  predicate Accepted(k: Kind, v: seq<nat>)
    requires |v| == |Fmt(k, false)|
  {
    1 <= Version(k, v) <= VER_CURRENT && Cnt(k, v) >= 1 && AuxOff(k, v) != 0
  }

  predicate AllInside(k: Kind, rs: seq<Rec>, n: nat) {
    forall i | 0 <= i < |rs| :: Inside(k, rs[i], n)
  }

  lemma {:induction false} AuxTraceInside(k: Kind, s: seq<byte>, n: nat, e: Encoding, aoff: nat, count: nat)
    requires n <= |s|
    ensures AllInside(k, AuxTrace(k, s, n, e, aoff, count).written, n)
    ensures AuxTrace(k, s, n, e, aoff, count).rejected == []
    decreases count
  {
    hide Load;
    var r := Rec(aoff, true);
    if count > 0 && Inside(k, r, n) && aoff % ALIGNMENT == 0 && AuxNext(k, Load(k, s, r, e)) != 0 {
      AuxTraceInside(k, s, n, e, aoff + AuxNext(k, Load(k, s, r, e)), count - 1);
    }
  }

  /** The walk after the record at off and its auxiliary records. */
  function WalkOn(k: Kind, s: seq<byte>, n: nat, e: Encoding, off: nat, next: nat): Trace
    requires n <= |s|
  {
    if next == 0 then Trace([], [], true) else Walk(k, s, n, e, off + next)
  }

  lemma WalkEnds(k: Kind, s: seq<byte>, n: nat, e: Encoding, off: nat)
    requires n <= |s| && !Inside(k, Rec(off, false), n)
    ensures Walk(k, s, n, e, off) == Trace([], [], true)
  {
  }

  lemma WalkStep(k: Kind, s: seq<byte>, n: nat, e: Encoding, off: nat)
    requires n <= |s| && Inside(k, Rec(off, false), n)
    ensures var v := Load(k, s, Rec(off, false), e);
            Walk(k, s, n, e, off)
            == if off % ALIGNMENT != 0 then Trace([], [], false)
               else if !Accepted(k, v) then Trace([], [Rec(off, false)], false)
               else Then(Rec(off, false), Join(AuxTrace(k, s, n, e, off + AuxOff(k, v), Cnt(k, v)), WalkOn(k, s, n, e, off, Next(k, v))))
  {
    hide Load, AuxTrace, Accepted;
  }

  lemma InsideJoin(k: Kind, t: Trace, u: Trace, n: nat)
    requires AllInside(k, t.written, n) && AllInside(k, t.rejected, n)
    requires t.ok ==> AllInside(k, u.written, n) && AllInside(k, u.rejected, n)
    ensures AllInside(k, Join(t, u).written, n) && AllInside(k, Join(t, u).rejected, n)
  {
  }

  /** Whatever the buffer holds, only records inside the first n bytes are read or written. */
  lemma {:induction false} WalkInside(k: Kind, s: seq<byte>, n: nat, e: Encoding, off: nat)
    requires n <= |s|
    ensures AllInside(k, Walk(k, s, n, e, off).written, n) && AllInside(k, Walk(k, s, n, e, off).rejected, n)
    decreases n - off
  {
    hide Load, Accepted, Walk, AuxTrace, Join, Then, AllInside;
    var r := Rec(off, false);
    NothingInside(k, n);
    if !Inside(k, r, n) {
      WalkEnds(k, s, n, e, off);
    } else {
      WalkStep(k, s, n, e, off);
      InsideThen(k, r, Trace([], [], false), n);
      var v := Load(k, s, r, e);
      if off % ALIGNMENT == 0 && Accepted(k, v) {
        AuxTraceInside(k, s, n, e, off + AuxOff(k, v), Cnt(k, v));
        if Next(k, v) != 0 {
          WalkInside(k, s, n, e, off + Next(k, v));
        }
        var auxs, rest := AuxTrace(k, s, n, e, off + AuxOff(k, v), Cnt(k, v)), WalkOn(k, s, n, e, off, Next(k, v));
        InsideJoin(k, auxs, rest, n);
        InsideThen(k, r, Join(auxs, rest), n);
      }
    }
  }

  lemma NothingInside(k: Kind, n: nat)
    ensures AllInside(k, [], n)
  {
  }

  lemma InsideThen(k: Kind, r: Rec, t: Trace, n: nat)
    requires Inside(k, r, n) && AllInside(k, t.written, n)
    ensures AllInside(k, Then(r, t).written, n) && AllInside(k, [r], n) && Then(r, t).rejected == t.rejected
  {
  }

  /** The destination after the records rs of s have been translated into it, one by one. */
  function Applied(k: Kind, d: seq<byte>, s: seq<byte>, rs: seq<Rec>, from: Encoding, to: Encoding): (r: seq<byte>)
    requires |d| == |s| && AllInside(k, rs, |s|)
    ensures |r| == |d|
  {
    if rs == [] then d
    else
      Overwritten(Applied(k, d, s, rs[..|rs| - 1], from, to), rs[|rs| - 1].off,
                  Translated(k, s, rs[|rs| - 1], from, to))
  }

  lemma AppliedOne(k: Kind, d: seq<byte>, s: seq<byte>, rs: seq<Rec>, r: Rec, from: Encoding, to: Encoding)
    requires |d| == |s| && AllInside(k, rs, |s|) && Inside(k, r, |s|)
    ensures AllInside(k, rs + [r], |s|)
    ensures Applied(k, d, s, rs + [r], from, to)
            == Overwritten(Applied(k, d, s, rs, from, to), r.off, Translated(k, s, r, from, to))
  {
    assert (rs + [r])[..|rs|] == rs;
  }

  // ---------- records that do not overlap ----------

  predicate Apart(k: Kind, q: Rec, r: Rec) {
    q.off + RecSize(k, q.aux) <= r.off || r.off + RecSize(k, r.aux) <= q.off
  }

  predicate AllApart(k: Kind, rs: seq<Rec>) {
    forall i, j | 0 <= i < j < |rs| :: Apart(k, rs[i], rs[j])
  }

  /** A record apart from all that were written keeps its bytes. */
  lemma {:induction false} AppliedElsewhere(k: Kind, d: seq<byte>, s: seq<byte>, rs: seq<Rec>, from: Encoding, to: Encoding, r: Rec)
    requires |d| == |s| && AllInside(k, rs, |s|) && Inside(k, r, |s|)
    requires forall i | 0 <= i < |rs| :: Apart(k, rs[i], r)
    ensures RecBytes(k, Applied(k, d, s, rs, from, to), r) == RecBytes(k, d, r)
  {
    if rs != [] {
      var last := rs[|rs| - 1];
      AppliedElsewhere(k, d, s, rs[..|rs| - 1], from, to, r);
      OverwrittenApart(Applied(k, d, s, rs[..|rs| - 1], from, to), last.off, Translated(k, s, last, from, to),
                       r.off, r.off + RecSize(k, r.aux));
    }
  }

  /** Every record of a list without overlaps ends up translated. */
  lemma {:induction false} AppliedEach(k: Kind, d: seq<byte>, s: seq<byte>, rs: seq<Rec>, from: Encoding, to: Encoding, i: nat)
    requires |d| == |s| && AllInside(k, rs, |s|) && AllApart(k, rs) && i < |rs|
    ensures RecBytes(k, Applied(k, d, s, rs, from, to), rs[i]) == Translated(k, s, rs[i], from, to)
  {
    hide Translated, Overwritten;
    var last, prefix := rs[|rs| - 1], rs[..|rs| - 1];
    assert AllApart(k, prefix) && AllInside(k, prefix, |s|);
    var before := Applied(k, d, s, prefix, from, to);
    if i == |rs| - 1 {
      OverwrittenAt(before, last.off, Translated(k, s, last, from, to));
    } else {
      AppliedEach(k, d, s, prefix, from, to, i);
      assert Apart(k, rs[i], last) && prefix[i] == rs[i];
      OverwrittenApart(before, last.off, Translated(k, s, last, from, to), rs[i].off, rs[i].off + RecSize(k, rs[i].aux));
    }
  }

  // ---------- round trip ----------

  /** The two buffers hold the same values in the records of a list. */
  predicate SameValues(k: Kind, s: seq<byte>, e: Encoding, t: seq<byte>, f: Encoding, rs: seq<Rec>)
    requires |s| == |t| && AllInside(k, rs, |s|)
  {
    forall i | 0 <= i < |rs| :: Load(k, s, rs[i], e) == Load(k, t, rs[i], f)
  }

  lemma {:induction false} SameAuxTrace(k: Kind, s: seq<byte>, e: Encoding, t: seq<byte>, f: Encoding, n: nat, aoff: nat, count: nat)
    requires n <= |s| == |t| && AllInside(k, AuxTrace(k, s, n, e, aoff, count).written, |s|)
    requires SameValues(k, s, e, t, f, AuxTrace(k, s, n, e, aoff, count).written)
    ensures AuxTrace(k, t, n, f, aoff, count) == AuxTrace(k, s, n, e, aoff, count)
    decreases count
  {
    hide Load;
    var r := Rec(aoff, true);
    if count > 0 && Inside(k, r, n) && aoff % ALIGNMENT == 0 {
      var rs := AuxTrace(k, s, n, e, aoff, count).written;
      assert rs[0] == r;
      var next := AuxNext(k, Load(k, s, r, e));
      if next != 0 {
        var rest := AuxTrace(k, s, n, e, aoff + next, count - 1).written;
        assert rs == [r] + rest;
        Tail(k, s, e, t, f, [r], rest);
        SameAuxTrace(k, s, e, t, f, n, aoff + next, count - 1);
      }
    }
  }

  lemma Tail(k: Kind, s: seq<byte>, e: Encoding, t: seq<byte>, f: Encoding, rs: seq<Rec>, rest: seq<Rec>)
    requires |s| == |t| && AllInside(k, rs + rest, |s|) && SameValues(k, s, e, t, f, rs + rest)
    ensures AllInside(k, rs, |s|) && SameValues(k, s, e, t, f, rs)
    ensures AllInside(k, rest, |s|) && SameValues(k, s, e, t, f, rest)
  {
    hide Load;
    forall i | 0 <= i < |rs|
      ensures Inside(k, rs[i], |s|) && Load(k, s, rs[i], e) == Load(k, t, rs[i], f)
    {
      assert (rs + rest)[i] == rs[i];
    }
    forall i | 0 <= i < |rest|
      ensures Inside(k, rest[i], |s|) && Load(k, s, rest[i], e) == Load(k, t, rest[i], f)
    {
      assert (rs + rest)[|rs| + i] == rest[i];
    }
  }

  lemma Single(k: Kind, s: seq<byte>, e: Encoding, t: seq<byte>, f: Encoding, r: Rec)
    requires |s| == |t| && AllInside(k, [r], |s|) && SameValues(k, s, e, t, f, [r])
    ensures Inside(k, r, |s|) && Load(k, s, r, e) == Load(k, t, r, f)
  {
    assert [r][0] == r;
  }

  /** A successful walk is determined by the values in the records it visits. */
  lemma {:induction false} SameWalk(k: Kind, s: seq<byte>, e: Encoding, t: seq<byte>, f: Encoding, n: nat, off: nat)
    requires n <= |s| == |t| && Walk(k, s, n, e, off).ok
    requires AllInside(k, Walk(k, s, n, e, off).written, |s|)
    requires SameValues(k, s, e, t, f, Walk(k, s, n, e, off).written)
    ensures Walk(k, t, n, f, off) == Walk(k, s, n, e, off)
    decreases n - off
  {
    hide Load, Accepted, SameValues, AllInside, AuxTrace;
    var r := Rec(off, false);
    if Inside(k, r, n) {
      var v := Load(k, s, r, e);
      WalkStep(k, s, n, e, off);
      hide Walk;
      var auxs := AuxTrace(k, s, n, e, off + AuxOff(k, v), Cnt(k, v));
      var rest := WalkOn(k, s, n, e, off, Next(k, v));
      Tail(k, s, e, t, f, [r], auxs.written + rest.written);
      Single(k, s, e, t, f, r);
      Tail(k, s, e, t, f, auxs.written, rest.written);
      SameAuxTrace(k, s, e, t, f, n, off + AuxOff(k, v), Cnt(k, v));
      if Next(k, v) != 0 {
        SameWalk(k, s, e, t, f, n, off + Next(k, v));
      }
      WalkStep(k, t, n, f, off);
    }
  }

  /** The records a walk has translated, when they do not overlap. */
  lemma TranslatedValues(k: Kind, d: seq<byte>, s: seq<byte>, rs: seq<Rec>, from: Encoding, to: Encoding)
    requires |d| == |s| && AllInside(k, rs, |s|) && AllApart(k, rs)
    ensures SameValues(k, s, from, Applied(k, d, s, rs, from, to), to, rs)
  {
    var t := Applied(k, d, s, rs, from, to);
    forall i | 0 <= i < |rs|
      ensures Load(k, s, rs[i], from) == Load(k, t, rs[i], to)
    {
      AppliedEach(k, d, s, rs, from, to, i);
      LoadTranslated(k, s, t, rs[i], from, to);
    }
  }

  lemma LoadTranslated(k: Kind, s: seq<byte>, t: seq<byte>, r: Rec, from: Encoding, to: Encoding)
    requires |t| == |s| && Inside(k, r, |s|) && RecBytes(k, t, r) == Translated(k, s, r, from, to)
    ensures Load(k, t, r, to) == Load(k, s, r, from)
  {
    FmtSize(k, r.aux);
    RecordRoundTrip(Fmt(k, r.aux), Load(k, s, r, from), to);
  }

  /** Translating there and back, in either byte order, restores every record that was visited,
      whatever the buffers held in between; as long as the visited records do not overlap. */
  lemma RoundTrip(k: Kind, s: seq<byte>, n: nat, from: Encoding, to: Encoding, d: seq<byte>, d2: seq<byte>, i: nat)
    requires n <= |s| == |d| == |d2| && Walk(k, s, n, from, 0).ok && i < |Walk(k, s, n, from, 0).written|
    requires AllInside(k, Walk(k, s, n, from, 0).written, |s|) && AllApart(k, Walk(k, s, n, from, 0).written)
    ensures var rs := Walk(k, s, n, from, 0).written;
            var file := Applied(k, d, s, rs, from, to);
            && Walk(k, file, n, to, 0) == Walk(k, s, n, from, 0)
            && RecBytes(k, Applied(k, d2, file, rs, to, from), rs[i]) == RecBytes(k, s, rs[i])
  {
    var rs := Walk(k, s, n, from, 0).written;
    var file := Applied(k, d, s, rs, from, to);
    TranslatedValues(k, d, s, rs, from, to);
    SameWalk(k, s, from, file, to, n, 0);
    AppliedEach(k, d2, file, rs, to, from, i);
    FmtSize(k, rs[i].aux);
    BytesRoundTrip(Fmt(k, rs[i].aux), RecBytes(k, s, rs[i]), from);
  }

  /** Translating in place gives every visited record the bytes it gets in another buffer. */
  lemma InPlaceSame(k: Kind, s: seq<byte>, d: seq<byte>, rs: seq<Rec>, from: Encoding, to: Encoding, i: nat)
    requires |d| == |s| && AllInside(k, rs, |s|) && AllApart(k, rs) && i < |rs|
    ensures RecBytes(k, Applied(k, s, s, rs, from, to), rs[i]) == RecBytes(k, Applied(k, d, s, rs, from, to), rs[i])
  {
    AppliedEach(k, s, s, rs, from, to, i);
    AppliedEach(k, d, s, rs, from, to, i);
  }
}
