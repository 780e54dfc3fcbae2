/** The chains of version records as their bytes make them, with the offsets of the version records'
    fields as numbers; and that they are what the translators walk. */
module VersionChains {
  import opened Bytes
  import opened ElfFormat
  import opened Records
  import opened Sequences
  import opened Versions

  /** The number in w bytes at off. */
  function Num(s: seq<byte>, e: Encoding, off: nat, w: nat): nat
    requires off + w <= |s|
  {
    Value(s[off..off + w], e.LSB?)
  }

  // ---------- chains ----------

  /** A record and the auxiliary records of its chain. */
  datatype Group = Group(off: nat, auxs: seq<nat>)

  /** Sizes of the records. */
  function MainSize(k: Kind): nat {
    if k.Verdef? then 20 else 16
  }

  function AuxSize(k: Kind): nat {
    if k.Verdef? then 8 else 16
  }

  /** vd_version or vn_version; vd_cnt or vn_cnt; vd_aux or vn_aux; vd_next or vn_next. */
  function VersionAt(k: Kind, s: seq<byte>, e: Encoding, off: nat): nat
    requires off + MainSize(k) <= |s|
  {
    Num(s, e, off, 2)
  }

  function CountAt(k: Kind, s: seq<byte>, e: Encoding, off: nat): nat
    requires off + MainSize(k) <= |s|
  {
    Num(s, e, off + if k.Verdef? then 6 else 2, 2)
  }

  function AuxAt(k: Kind, s: seq<byte>, e: Encoding, off: nat): nat
    requires off + MainSize(k) <= |s|
  {
    Num(s, e, off + if k.Verdef? then 12 else 8, 4)
  }

  function NextAt(k: Kind, s: seq<byte>, e: Encoding, off: nat): nat
    requires off + MainSize(k) <= |s|
  {
    Num(s, e, off + if k.Verdef? then 16 else 12, 4)
  }

  /** vda_next or vna_next. */
  function AuxNextAt(k: Kind, s: seq<byte>, e: Encoding, off: nat): nat
    requires off + AuxSize(k) <= |s|
  {
    Num(s, e, off + if k.Verdef? then 4 else 12, 4)
  }

  /** The chain of auxiliary records from `at` on: it stops at its count, where the next record would
      reach beyond the n bytes, or at one that leads nowhere; and every record is at a multiple of 4. */
  predicate IsAuxChain(k: Kind, s: seq<byte>, n: nat, e: Encoding, at: nat, count: nat, auxs: seq<nat>)
    requires n <= |s|
    decreases count
  {
    if count == 0 || at + AuxSize(k) > n then auxs == []
    else
      && at % 4 == 0 && auxs != [] && auxs[0] == at
      && var next := AuxNextAt(k, s, e, at);
         if next == 0 then |auxs| == 1 else IsAuxChain(k, s, n, e, at + next, count - 1, auxs[1..])
  }

  /** A record that is not refused, with its auxiliary records. */
  predicate IsGroup(k: Kind, s: seq<byte>, n: nat, e: Encoding, g: Group)
    requires n <= |s|
  {
    && g.off + MainSize(k) <= n && g.off % 4 == 0
    && VersionAt(k, s, e, g.off) == 1 && CountAt(k, s, e, g.off) >= 1 && AuxAt(k, s, e, g.off) != 0
    && IsAuxChain(k, s, n, e, g.off + AuxAt(k, s, e, g.off), CountAt(k, s, e, g.off), g.auxs)
  }

  /** The chain of records from off on. */
  predicate IsChain(k: Kind, s: seq<byte>, n: nat, e: Encoding, off: nat, gs: seq<Group>)
    requires n <= |s|
    decreases |gs|
  {
    if off + MainSize(k) > n then gs == []
    else
      && gs != [] && gs[0].off == off && IsGroup(k, s, n, e, gs[0])
      && var next := NextAt(k, s, e, off);
         if next == 0 then |gs| == 1 else IsChain(k, s, n, e, off + next, gs[1..])
  }

  function AuxRecs(auxs: seq<nat>): (r: seq<Rec>)
    ensures |r| == |auxs|
  {
    seq(|auxs|, j requires 0 <= j < |auxs| => Rec(auxs[j], true))
  }

  /** All records of a chain, in the order in which they are translated. */
  function Visited(gs: seq<Group>): seq<Rec> {
    if gs == [] then [] else [Rec(gs[0].off, false)] + AuxRecs(gs[0].auxs) + Visited(gs[1..])
  }

  // ---------- fields ----------

  lemma SizesAre(k: Kind)
    ensures RecSize(k, false) == MainSize(k) && RecSize(k, true) == AuxSize(k)
  {
  }

  /** Field i of a record is a number in the buffer. */
  lemma FieldAtIs(k: Kind, s: seq<byte>, r: Rec, e: Encoding, i: nat)
    requires Inside(k, r, |s|) && i < |Fmt(k, r.aux)|
    ensures Offset(Fmt(k, r.aux), i) + Size(Fmt(k, r.aux)[i]) <= RecSize(k, r.aux)
    ensures Load(k, s, r, e)[i] == Num(s, e, r.off + Offset(Fmt(k, r.aux), i), Size(Fmt(k, r.aux)[i]))
  {
    hide Value, LoadRecord, Offset, FormatSize, Fmt, Size;
    FmtSize(k, r.aux);
    FieldIs(Fmt(k, r.aux), RecBytes(k, s, r), e, i);
    Slice(s, r.off, RecSize(k, r.aux), Offset(Fmt(k, r.aux), i), Size(Fmt(k, r.aux)[i]));
  }

  lemma MainOffsets(k: Kind)
    ensures var f := Fmt(k, false);
            && Offset(f, 0) == 0 && Offset(f, 1) == 2 && Offset(f, 2) == 4 && Offset(f, 3) == (if k.Verdef? then 6 else 8)
            && Offset(f, 4) == (if k.Verdef? then 8 else 12)
            && (k.Verdef? ==> Offset(f, 5) == 12 && Offset(f, 6) == 16)
  {
    hide Offset;
    var f := Fmt(k, false);
    Start(f);
    NextOffset(f, 0);
    NextOffset(f, 1);
    NextOffset(f, 2);
    NextOffset(f, 3);
    if k.Verdef? {
      NextOffset(f, 4);
      NextOffset(f, 5);
    }
  }

  lemma AuxOffsets(k: Kind)
    ensures var f := Fmt(k, true);
            && Offset(f, 0) == 0 && Offset(f, 1) == 4
            && (k.Verneed? ==> Offset(f, 2) == 6 && Offset(f, 3) == 8 && Offset(f, 4) == 12)
  {
    hide Offset;
    var f := Fmt(k, true);
    Start(f);
    NextOffset(f, 0);
    if k.Verneed? {
      NextOffset(f, 1);
      NextOffset(f, 2);
      NextOffset(f, 3);
    }
  }

  lemma MainFields(k: Kind, s: seq<byte>, e: Encoding, off: nat)
    requires off + MainSize(k) <= |s|
    ensures Inside(k, Rec(off, false), |s|)
    ensures var v := Load(k, s, Rec(off, false), e);
            && Version(k, v) == VersionAt(k, s, e, off) && Cnt(k, v) == CountAt(k, s, e, off)
            && AuxOff(k, v) == AuxAt(k, s, e, off) && Next(k, v) == NextAt(k, s, e, off)
  {
    hide Value, Load, Offset, Num;
    var r := Rec(off, false);
    MainOffsets(k);
    FieldAtIs(k, s, r, e, 0);
    FieldAtIs(k, s, r, e, if k.Verdef? then 3 else 1);
    FieldAtIs(k, s, r, e, if k.Verdef? then 5 else 3);
    FieldAtIs(k, s, r, e, if k.Verdef? then 6 else 4);
  }

  lemma AuxFields(k: Kind, s: seq<byte>, e: Encoding, off: nat)
    requires off + AuxSize(k) <= |s|
    ensures Inside(k, Rec(off, true), |s|)
    ensures AuxNext(k, Load(k, s, Rec(off, true), e)) == AuxNextAt(k, s, e, off)
  {
    hide Value, Load, Offset, Num;
    AuxOffsets(k);
    FieldAtIs(k, s, Rec(off, true), e, if k.Verdef? then 1 else 4);
  }

  // ---------- the walk follows the chains ----------

  lemma AuxRecsTail(auxs: seq<nat>)
    requires auxs != []
    ensures AuxRecs(auxs) == [Rec(auxs[0], true)] + AuxRecs(auxs[1..])
  {
  }

  /** The auxiliary records that are visited are those of the chain. */
  lemma {:induction false} AuxWalk(k: Kind, s: seq<byte>, n: nat, e: Encoding, start: nat, count: nat, auxs: seq<nat>)
    requires n <= |s|
    ensures IsAuxChain(k, s, n, e, start, count, auxs) <==> AuxTrace(k, s, n, e, start, count) == Trace(AuxRecs(auxs), [], true)
    decreases count
  {
    hide Load, AuxNextAt;
    SizesAre(k);
    AuxStep(k, s, n, e, start, count);
    var r := Rec(start, true);
    if count > 0 && Inside(k, r, n) && start % 4 == 0 {
      AuxFields(k, s, e, start);
      var next := AuxNextAt(k, s, e, start);
      var on := AuxOn(k, s, n, e, start, count - 1, next);
      if auxs != [] {
        AuxRecsTail(auxs);
        ThenIs(r, on, Rec(auxs[0], true), AuxRecs(auxs[1..]));
        if next != 0 {
          AuxWalk(k, s, n, e, start + next, count - 1, auxs[1..]);
        }
      }
    }
  }

  lemma ThenIs(r: Rec, t: Trace, q: Rec, rest: seq<Rec>)
    ensures Then(r, t) == Trace([q] + rest, [], true) <==> r == q && t == Trace(rest, [], true)
  {
    assert ([r] + t.written)[0] == r && ([r] + t.written)[1..] == t.written;
    assert ([q] + rest)[0] == q && ([q] + rest)[1..] == rest;
  }

  /** A walk that succeeds has a chain. */
  lemma {:induction false} AuxChainOf(k: Kind, s: seq<byte>, n: nat, e: Encoding, at: nat, count: nat) returns (auxs: seq<nat>)
    requires n <= |s| && AuxTrace(k, s, n, e, at, count).ok
    ensures IsAuxChain(k, s, n, e, at, count, auxs)
    decreases count
  {
    hide Load, AuxNextAt;
    SizesAre(k);
    AuxStep(k, s, n, e, at, count);
    auxs := [];
    if count > 0 && at + AuxSize(k) <= n {
      AuxFields(k, s, e, at);
      auxs := [at];
      if AuxNextAt(k, s, e, at) != 0 {
        var rest := AuxChainOf(k, s, n, e, at + AuxNextAt(k, s, e, at), count - 1);
        auxs := [at] + rest;
      }
    }
  }

  /** The records that a walk visits are exactly those of the buffer's chains; without such chains it
      fails. */
  lemma {:induction false} WalkFollows(k: Kind, s: seq<byte>, n: nat, e: Encoding, off: nat, gs: seq<Group>)
    requires n <= |s| && IsChain(k, s, n, e, off, gs)
    ensures Walk(k, s, n, e, off) == Trace(Visited(gs), [], true)
    decreases |gs|
  {
    hide Load, AuxNextAt, CountAt, AuxAt, NextAt, VersionAt, AuxTrace, IsAuxChain, Walk, Visited, Then, Join, AuxRecs;
    SizesAre(k);
    VisitedFirst(gs);
    if off + MainSize(k) > n {
      WalkEnds(k, s, n, e, off);
    } else {
      WalkStep(k, s, n, e, off);
      MainFields(k, s, e, off);
      var g := gs[0];
      AuxWalk(k, s, n, e, off + AuxAt(k, s, e, off), CountAt(k, s, e, off), g.auxs);
      if NextAt(k, s, e, off) != 0 {
        WalkFollows(k, s, n, e, off + NextAt(k, s, e, off), gs[1..]);
      } else {
        assert gs[1..] == [];
        VisitedFirst([]);
      }
      JoinedTo(Rec(off, false), AuxRecs(g.auxs), Visited(gs[1..]));
    }
  }

  lemma VisitedFirst(gs: seq<Group>)
    ensures Visited(gs) == if gs == [] then [] else [Rec(gs[0].off, false)] + AuxRecs(gs[0].auxs) + Visited(gs[1..])
  {
  }

  lemma JoinedTo(r: Rec, a: seq<Rec>, b: seq<Rec>)
    ensures Then(r, Join(Trace(a, [], true), Trace(b, [], true))) == Trace([r] + a + b, [], true)
  {
    assert [r] + (a + b) == [r] + a + b;
  }

  lemma {:induction false} ChainOf(k: Kind, s: seq<byte>, n: nat, e: Encoding, off: nat) returns (gs: seq<Group>)
    requires n <= |s| && Walk(k, s, n, e, off).ok
    ensures IsChain(k, s, n, e, off, gs)
    decreases n - off
  {
    hide Load, AuxNextAt, CountAt, AuxAt, NextAt, VersionAt, AuxTrace, IsAuxChain, Walk;
    SizesAre(k);
    gs := [];
    if off + MainSize(k) <= n {
      WalkStep(k, s, n, e, off);
      MainFields(k, s, e, off);
      var auxs := AuxChainOf(k, s, n, e, off + AuxAt(k, s, e, off), CountAt(k, s, e, off));
      var g := Group(off, auxs);
      gs := [g];
      if NextAt(k, s, e, off) != 0 {
        var rest := ChainOf(k, s, n, e, off + NextAt(k, s, e, off));
        gs := [g] + rest;
        assert gs[1..] == rest;
      }
    }
  }

  /** Record by record: each auxiliary record lies where the one before it leads, and they stop exactly
      at their count, at one that leads nowhere, or at the end of the n bytes. */
  lemma {:induction false} AuxLinks(k: Kind, s: seq<byte>, n: nat, e: Encoding, at: nat, count: nat, auxs: seq<nat>, i: nat)
    requires n <= |s| && IsAuxChain(k, s, n, e, at, count, auxs) && i < |auxs|
    ensures |auxs| <= count && auxs[0] == at && auxs[i] + AuxSize(k) <= n && auxs[i] % 4 == 0
    ensures i + 1 < |auxs| ==> AuxNextAt(k, s, e, auxs[i]) != 0 && auxs[i + 1] == auxs[i] + AuxNextAt(k, s, e, auxs[i])
    ensures i + 1 == |auxs| ==>
              || |auxs| == count || AuxNextAt(k, s, e, auxs[i]) == 0
              || auxs[i] + AuxNextAt(k, s, e, auxs[i]) + AuxSize(k) > n
    decreases count
  {
    hide AuxNextAt;
    var next := AuxNextAt(k, s, e, at);
    if next != 0 && |auxs| > 1 {
      AuxLinks(k, s, n, e, at + next, count - 1, auxs[1..], if i == 0 then 0 else i - 1);
    }
  }

  /** The same for the records themselves. */
  lemma {:induction false} Links(k: Kind, s: seq<byte>, n: nat, e: Encoding, off: nat, gs: seq<Group>, i: nat)
    requires n <= |s| && IsChain(k, s, n, e, off, gs) && i < |gs|
    ensures gs[0].off == off && IsGroup(k, s, n, e, gs[i])
    ensures i + 1 < |gs| ==> NextAt(k, s, e, gs[i].off) != 0 && gs[i + 1].off == gs[i].off + NextAt(k, s, e, gs[i].off)
    ensures i + 1 == |gs| ==> NextAt(k, s, e, gs[i].off) == 0 || gs[i].off + NextAt(k, s, e, gs[i].off) + MainSize(k) > n
    decreases |gs|
  {
    hide NextAt, IsAuxChain;
    var next := NextAt(k, s, e, off);
    if next != 0 && |gs| > 1 {
      Links(k, s, n, e, off + next, gs[1..], if i == 0 then 0 else i - 1);
    }
  }

  // ---------- what is written ----------

  /** Where the fields of a record are, and how wide they are. */
  function Fields(k: Kind, aux: bool): seq<(nat, nat)> {
    match k
    case Verdef =>
      if aux then [(0, 4), (4, 4)] else [(0, 2), (2, 2), (4, 2), (6, 2), (8, 4), (12, 4), (16, 4)]
    case Verneed =>
      if aux then [(0, 4), (4, 2), (6, 2), (8, 4), (12, 4)] else [(0, 2), (2, 2), (4, 4), (8, 4), (12, 4)]
  }

  lemma FieldsAre(k: Kind, aux: bool, i: nat)
    requires i < |Fields(k, aux)|
    ensures i < |Fmt(k, aux)| && Fields(k, aux)[i] == (Offset(Fmt(k, aux), i), Size(Fmt(k, aux)[i]))
    ensures Fields(k, aux)[i].0 + Fields(k, aux)[i].1 <= RecSize(k, aux)
  {
    hide Offset;
    MainOffsets(k);
    AuxOffsets(k);
  }

  /** Where visited records do not overlap, every field of every one of them has the number that it had,
      in the other byte order. */
  lemma FieldsKept(k: Kind, d: seq<byte>, s: seq<byte>, rs: seq<Rec>, from: Encoding, to: Encoding, i: nat, f: nat)
    requires |d| == |s| && AllInside(k, rs, |s|) && AllApart(k, rs) && i < |rs| && f < |Fields(k, rs[i].aux)|
    ensures var at, w := rs[i].off + Fields(k, rs[i].aux)[f].0, Fields(k, rs[i].aux)[f].1;
            at + w <= |s| && Num(Applied(k, d, s, rs, from, to), to, at, w) == Num(s, from, at, w)
  {
    hide Load, Applied, Offset, Num, Fmt, Fields, AllApart;
    var t := Applied(k, d, s, rs, from, to);
    TranslatedValues(k, d, s, rs, from, to);
    FieldsAre(k, rs[i].aux, f);
    FieldAtIs(k, s, rs[i], from, f);
    FieldAtIs(k, t, rs[i], to, f);
  }
}
