/** The result of the transformation, as an ordinary unwinder of the new stack sees it. */
module Outcome {
  import opened Bytes
  import opened Machine
  import opened Frames
  import opened Pairing
  import opened Transform
  import opened Progress

  /** A live value as found by unwinding from the outermost registers to its activation. */
  ghost function Visible(c: Job, s: Store, f: nat, j: nat): seq<byte>
    requires c.Ok() && c.Record(f, j) && c.Findable(f, j)
  {
    RegisterFits(c, f, j);
    var regs, d := Unwound(c.p, s, f), c.Dest(f, j);
    if d.InMemory() then ReadBytes(s.mem, BasedAddr(c.p.arch, regs, d), d.ValSize())
    else RegVal(regs, d.regnum)[..d.ValSize()]
  }

  lemma VisibleIsNow(c: Job, s: Store, f: nat, j: nat)
    requires c.Ok() && c.Record(f, j) && c.Findable(f, j) && Linked(c.p, s, |c.p.frames| - 1)
    ensures Visible(c, s, f, j) == c.Now(s, f, j)
  {
    hide Linked, InRange;
    var d := c.Dest(f, j);
    UnwinderSees(c.p, s, f, d.regnum);
    RegisterFits(c, f, j);
    if d.InMemory() {
      assert FrameOk(c.p.arch, c.p.frames[f], c.p.Cfa(f));
      assert MemLiveOk(c.p.arch, c.p.frames[f].size, c.p.frames[f].saves, c.p.Cfa(f), d);
      CfaInRange(c.p, f - 1);
      FbpInRange(c.p, f);
    } else {
      var k := RegPlaceCases(c.p, d.regnum, f);
      match c.p.RegPlace(d.regnum, f)
      case InMem(a) => assert ReadBytes(s.mem, a, 8)[..d.ValSize()] == ReadBytes(s.mem, a, d.ValSize());
      case InReg(_) =>
    }
  }

  /** What an unwinder reads for a live value of an activation of the new stack, and what was to be
      read for it in the source. */
  ghost predicate ReadsNow(c: Job, s: Store, f: nat, j: nat, bs: seq<byte>)
    requires c.Ok() && c.Record(f, j)
  {
    ReadsAs(c.p.arch, s.mem, Unwound(c.p, s, f), c.Dest(f, j), bs)
  }

  ghost predicate ReadBefore(c: Job, f: nat, j: nat, bs: seq<byte>)
    requires c.Ok() && c.Record(f, j)
  {
    ReadsAs(c.v.h.arch, c.v.mem, c.v.acts[f].regs, c.Src(f, j), bs)
  }

  /** Where address a of the source is in the new stack, if it lies in the stack allocation of
      record i of frame q: as far from the allocation's address in the unwinder's registers as it
      was from its address in the source. */
  ghost function MovedAddr(c: Job, s: Store, q: nat, i: nat, a: int): int
    requires c.Ok() && c.Record(q, i)
  {
    var d, x := c.Dest(q, i), c.Src(q, i);
    c.p.arch.addrOf(RegVal(Unwound(c.p, s, q), d.regnum)) + d.offsetOrConstant
    + (a - (c.v.h.arch.addrOf(RegVal(c.v.acts[q].regs, x.regnum)) + x.offsetOrConstant))
  }

  /** Everything the transformation promises: the unwinder walks the planned frames; every live
      value that is no stack pointer reads as it did; every pointer into a stack allocation of a
      rewritten frame points to the same offset of the moved allocation. */
  ghost predicate Preserved(c: Job, s: Store)
    requires c.Ok()
  {
    && (forall f, r | 1 <= f < |c.p.frames| :: Sees(c.p, s, f, Unwound(c.p, s, f), r))
    && (forall f, j | c.Record(f, j) && c.Findable(f, j) && c.Target(f, j) == 0 ::
          ReadsNow(c, s, f, j, Visible(c, s, f, j)) && ReadBefore(c, f, j, Visible(c, s, f, j)))
    && (forall f, j, q, i | c.Record(f, j) && c.Findable(f, j) && c.Pointer(f, j) && c.InAlloca(q, i, c.Target(f, j)) ::
          ReadsNow(c, s, f, j, c.p.arch.wordOf(MovedAddr(c, s, q, i, c.Target(f, j)))))
  }

  lemma BytesBefore(c: Job, f: nat, j: nat)
    requires c.Ok() && c.Record(f, j)
    ensures ReadBefore(c, f, j, c.Bytes(f, j))
  {
    assert TypesOk(c.Src(f, j), c.Dest(f, j));
    SourceReads(c.v.h.arch, c.v.mem, c.v.acts[f].regs, c.Src(f, j), c.Bytes(f, j));
  }

  lemma VisibleReads(c: Job, s: Store, f: nat, j: nat)
    requires c.Ok() && c.Record(f, j) && c.Findable(f, j)
    ensures ReadsNow(c, s, f, j, Visible(c, s, f, j))
  {
    RegisterFits(c, f, j);
  }

  /** An unwinder finds a stack allocation where it was planned. */
  lemma AllocaAt(c: Job, s: Store, q: nat, i: nat, a: int)
    requires c.Ok() && c.Record(q, i) && c.Dest(q, i).isAlloca && Linked(c.p, s, |c.p.frames| - 1)
    ensures MovedAddr(c, s, q, i, a) == c.Moved(q, i, a)
  {
    hide Linked, InRange;
    var d := c.Dest(q, i);
    assert TypesOk(c.Src(q, i), d);
    UnwinderSees(c.p, s, q, d.regnum);
    assert FrameOk(c.p.arch, c.p.frames[q], c.p.Cfa(q));
    assert MemLiveOk(c.p.arch, c.p.frames[q].size, c.p.frames[q].saves, c.p.Cfa(q), d);
    CfaInRange(c.p, q - 1);
    FbpInRange(c.p, q);
  }

  /** The fixups left over are exactly those whose target is in no rewritten allocation. */
  ghost predicate LeftOver(c: Job, fixups: seq<Fixup>)
    requires c.Ok()
  {
    && (forall x | x in fixups :: exists f, j | c.Record(f, j) ::
          c.Pointer(f, j) && x == c.FixupOf(f, j))
    && (forall f, j | c.Record(f, j) && c.Pointer(f, j) ::
          c.FixupOf(f, j) in fixups <==> forall q, i | c.Record(q, i) :: !c.InAlloca(q, i, c.Target(f, j)))
  }

  /** A stack that has been transformed: linked, with every value and pointer in place, and with
      only those fixups left over that have no target. */
  ghost predicate Transformed(c: Job, s: Store, fixups: seq<Fixup>)
    requires c.Ok()
  {
    Linked(c.p, s, |c.p.frames| - 1) && Preserved(c, s) && LeftOver(c, fixups)
  }

  lemma Finished(c: Job, s: Store, fixups: seq<Fixup>)
    requires c.Ok() && Linked(c.p, s, |c.p.frames| - 1) && Inv(c, s, fixups, |c.p.frames| - 1, 0)
    ensures Preserved(c, s)
  {
    hide Linked, InRange, ReadsNow, ReadBefore;
    var m := |c.p.frames| - 1;
    forall f, r | 1 <= f < |c.p.frames|
      ensures Sees(c.p, s, f, Unwound(c.p, s, f), r)
    {
      UnwinderSees(c.p, s, f, r);
    }
    forall f, j | c.Record(f, j) && c.Findable(f, j)
      ensures Visible(c, s, f, j) == c.Now(s, f, j) && Done(c, m, 0, f, j)
    {
      VisibleIsNow(c, s, f, j);
    }
    forall f, j | c.Record(f, j) && c.Findable(f, j)
      ensures ReadsNow(c, s, f, j, Visible(c, s, f, j)) && ReadBefore(c, f, j, c.Bytes(f, j))
    {
      VisibleReads(c, s, f, j);
      BytesBefore(c, f, j);
    }
    forall f, j, q, i | c.Record(f, j) && c.Findable(f, j) && c.Pointer(f, j) && c.InAlloca(q, i, c.Target(f, j))
      ensures ReadsNow(c, s, f, j, c.p.arch.wordOf(MovedAddr(c, s, q, i, c.Target(f, j))))
    {
      NotWaiting(c, s, fixups, f, j, q, i);
      assert Resolved(c, s, m, 0, f, j);
      AllocaAt(c, s, q, i, c.Target(f, j));
      VisibleReads(c, s, f, j);
    }
  }

  lemma NotWaiting(c: Job, s: Store, fixups: seq<Fixup>, f: nat, j: nat, q: nat, i: nat)
    requires c.Ok() && Inv(c, s, fixups, |c.p.frames| - 1, 0)
    requires c.Record(f, j) && c.Pointer(f, j) && c.InAlloca(q, i, c.Target(f, j))
    ensures c.FixupOf(f, j) !in fixups
    ensures Done(c, |c.p.frames| - 1, 0, q, i)
  {
    assert Done(c, |c.p.frames| - 1, 0, q, i);
    var x := c.FixupOf(f, j);
    assert x.srcAddr == c.Target(f, j);
  }

  lemma FinishedList(c: Job, s: Store, fixups: seq<Fixup>)
    requires c.Ok() && Inv(c, s, fixups, |c.p.frames| - 1, 0)
    ensures LeftOver(c, fixups)
  {
    var m := |c.p.frames| - 1;
    forall x | x in fixups
      ensures exists f, j | c.Record(f, j) :: c.Pointer(f, j) && x == c.FixupOf(f, j)
    {
      assert Listed(c, m, 0, x);
    }
    forall f, j | c.Record(f, j) && c.Pointer(f, j)
      ensures c.FixupOf(f, j) in fixups <==> forall q, i | c.Record(q, i) :: !c.InAlloca(q, i, c.Target(f, j))
    {
      assert Done(c, m, 0, f, j);
      if c.FixupOf(f, j) !in fixups {
        assert Resolved(c, s, m, 0, f, j);
      } else {
        forall q, i | c.Record(q, i)
          ensures !c.InAlloca(q, i, c.Target(f, j))
        {
          if c.InAlloca(q, i, c.Target(f, j)) {
            NotWaiting(c, s, fixups, f, j, q, i);
          }
        }
      }
    }
  }
}
