/** data.c: reading and writing live values, the return address and the saved frame pointer. */
module Data {
  import opened Bytes
  import opened Machine
  import opened Frames
  import opened Pairing
  import opened Transform
  import opened Progress
  import opened Context

  datatype Loc = LocReg(act: nat, reg: Reg) | LocMem(addr: int)

  /** get_val_loc: a register of the activation, or the address it gives. */
  function GetValLoc(arch: Arch, acts: seq<Activation>, v: LiveValue, act: nat): Loc
    requires act < |acts| && !v.Constant()
  {
    if v.kind.SmRegister? then LocReg(act, v.regnum) else LocMem(BasedAddr(arch, acts[act].regs, v))
  }

  /** memcpy to a location. */
  method CopyTo(ctx: RewriteContext, loc: Loc, bs: seq<byte>)
    requires loc.LocReg? ==> loc.act < |ctx.acts| && |bs| <= 8
    modifies ctx`acts, ctx`mem
    ensures loc.LocMem? ==> ctx.acts == old(ctx.acts) && ctx.mem == WriteBytes(old(ctx.mem), loc.addr, bs)
    ensures loc.LocReg? ==> ctx.mem == old(ctx.mem) && ctx.acts == WithReg(old(ctx.acts), loc.act, loc.reg, bs)
  {
    match loc
    case LocMem(a) => ctx.mem := WriteBytes(ctx.mem, a, bs);
    case LocReg(k, r) => ctx.acts := WithReg(ctx.acts, k, r, bs);
  }

  /** The low-order bytes of one register replaced. */
  function WithReg(acts: seq<Activation>, k: nat, r: Reg, bs: seq<byte>): seq<Activation>
    requires k < |acts| && |bs| <= 8
  {
    var w: Word := bs + RegVal(acts[k].regs, r)[|bs|..];
    acts[k := acts[k].(regs := acts[k].regs[r := w])]
  }

  lemma WithRegFramed(h: Handle, acts: seq<Activation>, p: Plan, k: nat, i: nat, r: Reg, bs: seq<byte>)
    requires Framed(h, acts, p, k) && i < |acts| && |bs| <= 8 && !p.arch.Special(r)
    ensures Framed(h, WithReg(acts, i, r, bs), p, k)
  {
    var acts' := WithReg(acts, i, r, bs);
    SitesStay(h, acts, acts', p);
    forall f | 0 <= f <= k
      ensures BoundsAt(acts', p, f)
    {
      assert BoundsAt(acts, p, f);
    }
    forall f | 0 <= f < k
      ensures SaversAt(acts', p, f)
    {
      assert SaversAt(acts, p, f);
    }
  }

  /** The destination context follows the plan of job c up to activation k. */
  ghost predicate Follows(c: Job, ctx: RewriteContext, k: nat)
    reads ctx
  {
    && c.Ok() && Framed(ctx.handle, ctx.acts, c.p, k) && k < |c.p.frames| - 1
    && forall f {:trigger c.offs[f]} | 1 <= f < |c.p.frames| :: c.offs[f] == ctx.acts[f].site.liveOffset
  }

  lemma RecordAt(c: Job, ctx: RewriteContext, k: nat, f: nat, j: nat)
    requires Follows(c, ctx, k) && c.Record(f, j)
    ensures c.offs[f] + j < |ctx.handle.liveVals| && ctx.handle.liveVals[c.offs[f] + j] == c.Dest(f, j)
  {
    assert SiteIs(ctx.handle, ctx.acts[f].site, c.p.frames[f]);
  }

  lemma RecordFits(c: Job, f: nat, j: nat)
    requires c.Ok() && c.Record(f, j)
    ensures c.Dest(f, j).kind.SmRegister? ==> !c.p.arch.Special(c.Dest(f, j).regnum) && c.Dest(f, j).ValSize() <= 8
    ensures c.Dest(f, j).InMemory() ==> c.Dest(f, j).regnum == c.p.arch.fbpReg || c.Dest(f, j).regnum == c.p.arch.spReg
  {
    assert FrameOk(c.p.arch, c.p.frames[f], c.p.Cfa(f));
    assert MemLiveOk(c.p.arch, c.p.frames[f].size, c.p.frames[f].saves, c.p.Cfa(f), c.Dest(f, j));
    assert RegLiveOk(c.p.arch, c.p.frames[f].saves, c.Dest(f, j));
  }

  /** The address computed from the activation's registers is the planned one. */
  lemma PlannedAddr(c: Job, acts: seq<Activation>, h: Handle, k: nat, f: nat, j: nat)
    requires c.Ok() && Framed(h, acts, c.p, k) && c.Record(f, j) && f <= k && c.Dest(f, j).InMemory()
    ensures BasedAddr(c.p.arch, acts[f].regs, c.Dest(f, j)) == c.p.AddrOf(f, c.Dest(f, j))
  {
    RecordFits(c, f, j);
    assert BoundsAt(acts, c.p, f);
    FbpInRange(c.p, f);
    CfaInRange(c.p, f - 1);
  }

  /** The common end of put_val and put_val_data: write the value where it is live and, for a
      callee-saved register, also where an inner activation saved it.  Seen by an unwinder this
      is one write, at the value's place. */
  method PutBytes(ctx: RewriteContext, f: nat, v: LiveValue, bs: seq<byte>, ghost c: Job, ghost k: nat, ghost j: nat)
    requires Follows(c, ctx, k) && c.Record(f, j) && f <= k && v == c.Dest(f, j) && !v.Constant()
    requires |bs| == v.ValSize()
    modifies ctx`acts, ctx`mem
    ensures Follows(c, ctx, k)
    ensures ctx.Contents() == Put(c, old(ctx.Contents()), f, j, bs)
  {
    var arch := ctx.handle.arch;
    RecordFits(c, f, j);
    var destAddr := GetValLoc(arch, ctx.acts, v, f);
    var calleeAddr := NoLoc;
    if v.kind.SmRegister? && v.regnum in arch.calleeSaved {
      calleeAddr := CalleeSavedLoc(ctx, v.regnum, f, c.p, k);
    } else if v.InMemory() {
      PlannedAddr(c, ctx.acts, ctx.handle, k, f, j);
    }
    if v.kind.SmRegister? {
      WithRegFramed(ctx.handle, ctx.acts, c.p, k, f, v.regnum, bs);
    }
    CopyTo(ctx, destAddr, bs);
    match calleeAddr {
      case NoLoc =>
      case At(InMem(a)) =>
        CopyTo(ctx, LocMem(a), bs);
      case At(InReg(r)) =>
        ghost var i := RegPlaceCases(c.p, v.regnum, f);
        WithRegFramed(ctx.handle, ctx.acts, c.p, k, 0, r, bs);
        CopyTo(ctx, LocReg(0, r), bs);
    }
  }

  /** put_val: copy a source value into its destination record, unless that is a constant. */
  method PutVal(src: RewriteContext, srcVal: LiveValue, dest: RewriteContext, destVal: LiveValue, ghost c: Job, ghost j: nat)
    requires src != dest && src.act == dest.act && Follows(c, dest, dest.act) && c.Record(dest.act, j)
    requires src.act < |src.acts| && src.handle == c.v.h && src.mem == c.v.mem && src.acts == c.v.acts
    requires srcVal == c.Src(dest.act, j) && destVal == c.Dest(dest.act, j)
    modifies dest`acts, dest`mem
    ensures Follows(c, dest, dest.act)
    ensures dest.Contents() == Put(c, old(dest.Contents()), dest.act, j, c.Bytes(dest.act, j))
    ensures ReadsAs(src.handle.arch, src.mem, src.acts[src.act].regs, srcVal, c.Bytes(dest.act, j))
  {
    assert TypesOk(srcVal, destVal);
    SourceReads(src.handle.arch, src.mem, src.acts[src.act].regs, srcVal, c.Bytes(dest.act, j));
    if destVal.Constant() {
      return;
    }
    var bs := SourceBytes(src.handle.arch, src.mem, src.acts[src.act].regs, srcVal);
    PutBytes(dest, dest.act, destVal, bs, c, dest.act, j);
  }

  /** put_val_data: put a reified pointer into record j of an earlier or the current activation. */
  method PutValData(ctx: RewriteContext, v: LiveValue, f: nat, data: int, ghost c: Job, ghost k: nat, ghost j: nat)
    requires Follows(c, ctx, k) && c.Record(f, j) && f <= k && v == c.Dest(f, j) && v.ValSize() == 8
    modifies ctx`acts, ctx`mem
    ensures Follows(c, ctx, k)
    ensures ctx.Contents() == Put(c, old(ctx.Contents()), f, j, c.p.arch.wordOf(data))
  {
    if v.Constant() {
      return;
    }
    PutBytes(ctx, f, v, ctx.handle.arch.wordOf(data), c, k, j);
  }

  /** points_to_stack for the current activation. */
  method PointsToStack(ctx: RewriteContext, v: LiveValue) returns (stackAddr: int)
    requires ctx.act < |ctx.acts|
    requires v.isPtr && !v.isAlloca ==> v.kind.SmRegister? || v.kind.SmIndirect?
    ensures stackAddr == StackTarget(ctx.handle.arch, ctx.mem, ctx.acts[ctx.act].regs, ctx.stack, ctx.stackBase, v)
  {
    stackAddr := 0;
    if v.isPtr && !v.isAlloca {
      var arch, regs := ctx.handle.arch, ctx.acts[ctx.act].regs;
      if v.kind.SmRegister? {
        stackAddr := arch.addrOf(RegVal(regs, v.regnum));
      } else {
        stackAddr := arch.addrOf(RegVal(regs, v.regnum)) + v.offsetOrConstant;
        stackAddr := arch.addrOf(ReadBytes(ctx.mem, stackAddr, 8));
      }
      if stackAddr < ctx.stack || ctx.stackBase <= stackAddr {
        stackAddr := 0;
      }
    }
  }

  /** points_to_data: if a source address lies in the allocation that record j of the current
      activation describes, the address it moves to; 0 if it does not. */
  method PointsToData(src: RewriteContext, srcVal: LiveValue, dest: RewriteContext, destVal: LiveValue, srcPtr: int,
                      ghost c: Job, ghost j: nat) returns (destAddr: int)
    requires src.act == dest.act && Follows(c, dest, dest.act) && c.Record(dest.act, j) && c.Dest(dest.act, j).isAlloca
    requires src.act < |src.acts| && src.handle == c.v.h && src.acts == c.v.acts
    requires srcVal == c.Src(dest.act, j) && destVal == c.Dest(dest.act, j)
    ensures destAddr != 0 <==> c.InAlloca(dest.act, j, srcPtr)
    ensures destAddr != 0 ==> destAddr == c.Moved(dest.act, j, srcPtr)
  {
    destAddr := 0;
    var srcAddr := BasedAddr(src.handle.arch, src.acts[src.act].regs, srcVal);
    if srcAddr <= srcPtr && srcPtr < srcAddr + srcVal.ValSize() {
      destAddr := BasedAddr(dest.handle.arch, dest.acts[dest.act].regs, destVal);
      PlannedAddr(c, dest.acts, dest.handle, dest.act, dest.act, j);
      LiveInside(c.p, dest.act, j);
      CfaInRange(c.p, dest.act - 1);
      PositiveAddr(c.p, dest.act);
      destAddr := destAddr + (srcPtr - srcAddr);
    }
  }

  /** The planned frames lie above address 0. */
  lemma PositiveAddr(p: Plan, k: nat)
    requires p.Ok() && InRange(p) && 1 <= k < |p.frames|
    ensures 0 < p.Sp(k)
  {
    CfaInRange(p, k - 1);
  }

  method SetReturnAddress(ctx: RewriteContext, retaddr: u64)
    requires ctx.act < |ctx.acts|
    modifies ctx`mem
    ensures ctx.mem == WriteBytes(old(ctx.mem), ctx.acts[ctx.act].cfa + ctx.handle.arch.raOffset, ctx.handle.arch.wordOf(retaddr))
  {
    ctx.mem := WriteBytes(ctx.mem, ctx.acts[ctx.act].cfa + ctx.handle.arch.raOffset, ctx.handle.arch.wordOf(retaddr));
  }

  /** On function entry the return address is in its register, where the ABI has one. */
  method SetReturnAddressFuncEntry(ctx: RewriteContext, retaddr: u64)
    requires ctx.act == 0 && |ctx.acts| > 0
    modifies ctx`mem, ctx`acts
    ensures var arch := ctx.handle.arch;
            if arch.hasRaReg then
              && ctx.mem == old(ctx.mem)
              && ctx.acts == old(ctx.acts)[0 := old(ctx.acts)[0].(regs := old(ctx.acts)[0].regs[arch.raReg := arch.wordOf(retaddr)])]
            else
              && ctx.acts == old(ctx.acts)
              && ctx.mem == WriteBytes(old(ctx.mem), ctx.acts[0].cfa + arch.raOffset, arch.wordOf(retaddr))
  {
    var arch := ctx.handle.arch;
    if arch.hasRaReg {
      ctx.acts := ctx.acts[0 := ctx.acts[0].(regs := ctx.acts[0].regs[arch.raReg := arch.wordOf(retaddr)])];
    } else {
      ctx.mem := WriteBytes(ctx.mem, ctx.acts[0].cfa + arch.raOffset, arch.wordOf(retaddr));
    }
  }

  /** get_savedfbp_loc. */
  function SavedFbpLoc(arch: Arch, a: Activation): int {
    a.cfa + arch.savedFbpOffset
  }
}
