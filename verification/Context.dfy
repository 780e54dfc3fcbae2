/** The rewriting context of one stack, and unwind.c's operations on it. */
module Context {
  import opened Machine
  import opened Frames

  /** rewrite_context.  The source and the destination stack are modelled as two memories:
      neither context writes the other's. */
  class RewriteContext {
    const handle: Handle
    const stackBase: int
    var stack: int
    var numActs: nat
    var act: nat
    var acts: seq<Activation>
    var stackPointers: seq<Fixup>
    var mem: Memory

    constructor (handle: Handle, mem: Memory, base: int, first: Activation)
      ensures this.handle == handle && this.mem == mem && stackBase == base
      ensures numActs == 0 && act == 0 && stackPointers == []
      ensures |acts| == MAX_FRAMES && forall k | 0 <= k < MAX_FRAMES :: acts[k] == first
    {
      this.handle, this.mem, this.stackBase := handle, mem, base;
      stack, numActs, act, stackPointers := base, 0, 0, [];
      acts := seq(MAX_FRAMES, _ => first);
    }

    function Contents(): Store
      reads this
      requires |acts| > 0
    {
      Store(mem, acts[0].regs)
    }
  }

  // ---------- activations that follow a plan ----------

  ghost predicate SiteIs(h: Handle, site: CallSite, f: Frame) {
    && h.SiteInTables(site) && DistinctRegs(h.Unwinds(site))
    && f == Frame(site.addr, site.frameSize, SaveMap(h.Unwinds(site)), h.Live(site))
  }

  ghost predicate BoundsAt(acts: seq<Activation>, p: Plan, f: nat)
    requires f < |p.frames| <= |acts|
  {
    && acts[f].cfa == p.Cfa(f)
    && (f > 0 ==> RegVal(acts[f].regs, p.arch.spReg) == p.arch.wordOf(p.Sp(f)))
    && (f > 0 ==> RegVal(acts[f].regs, p.arch.fbpReg) == p.arch.wordOf(p.Fbp(f)))
  }

  ghost predicate SaversAt(acts: seq<Activation>, p: Plan, f: nat)
    requires f < |p.frames| <= |acts|
  {
    acts[f].calleeSaved == p.frames[f].saves.Keys
  }

  ghost predicate SitesAre(h: Handle, acts: seq<Activation>, p: Plan)
    requires |p.frames| <= |acts|
  {
    forall f {:trigger SiteIs(h, acts[f].site, p.frames[f])} | 1 <= f < |p.frames| :: SiteIs(h, acts[f].site, p.frames[f])
  }

  lemma SitesStay(h: Handle, acts: seq<Activation>, acts': seq<Activation>, p: Plan)
    requires |p.frames| <= |acts| == |acts'| && SitesAre(h, acts, p)
    requires forall f | 1 <= f < |acts| :: acts'[f].site == acts[f].site
    ensures SitesAre(h, acts', p)
  {
    forall f | 1 <= f < |p.frames|
      ensures SiteIs(h, acts'[f].site, p.frames[f])
    {
      assert SiteIs(h, acts[f].site, p.frames[f]);
    }
  }

  /** Activations up to k have the planned bounds; those below k know which registers they
      save; all call sites of the plan are already known. */
  ghost predicate Framed(h: Handle, acts: seq<Activation>, p: Plan, k: nat) {
    && k < |p.frames| <= |acts| && p.arch == h.arch
    && SitesAre(h, acts, p)
    && (forall f {:trigger BoundsAt(acts, p, f)} | 0 <= f <= k :: BoundsAt(acts, p, f))
    && (forall f {:trigger SaversAt(acts, p, f)} | 0 <= f < k :: SaversAt(acts, p, f))
    && acts[k].calleeSaved == {}
  }

  lemma {:induction false} SaveMapAt(us: seq<UnwindLoc>, i: nat)
    requires i < |us| && DistinctRegs(us)
    ensures us[i].reg in SaveMap(us) && SaveMap(us)[us[i].reg] == us[i].offset
  {
    var n := |us| - 1;
    if i < n {
      SaveMapAt(us[..n], i);
    }
  }

  lemma {:induction false} SaveMapKeys(us: seq<UnwindLoc>, r: Reg) returns (i: nat)
    requires r in SaveMap(us)
    ensures i < |us| && us[i].reg == r
  {
    var n := |us| - 1;
    if us[n].reg == r {
      i := n;
    } else {
      i := SaveMapKeys(us[..n], r);
    }
  }

  // ---------- unwind.c ----------

  /** setup_regset and setup_callee_saved_bits: the new activation starts from a copy of the
      registers below it and has saved nothing yet. */
  method SetupActivation(ctx: RewriteContext, act: nat)
    requires 0 < act < |ctx.acts|
    modifies ctx`acts
    ensures ctx.acts == old(ctx.acts)[act := old(ctx.acts)[act].(regs := old(ctx.acts)[act - 1].regs, calleeSaved := {})]
  {
    ctx.acts := ctx.acts[act := ctx.acts[act].(regs := ctx.acts[act - 1].regs)];
    ctx.acts := ctx.acts[act := ctx.acts[act].(calleeSaved := {})];
  }

  /** The activations after the save slots in `saves` have been restored. */
  ghost function AfterRestore(acts: seq<Activation>, act: nat, mem: Memory, fbp: int, saves: map<Reg, int>): seq<Activation>
    requires 0 < act < |acts|
  {
    acts[act - 1 := acts[act - 1].(calleeSaved := acts[act - 1].calleeSaved + saves.Keys)]
        [act := acts[act].(regs := acts[act].regs + Restored(mem, fbp, saves))]
  }

  lemma AfterNothing(acts: seq<Activation>, act: nat, mem: Memory, fbp: int)
    requires 0 < act < |acts|
    ensures AfterRestore(acts, act, mem, fbp, map[]) == acts
  {
    assert acts[act].regs + Restored(mem, fbp, map[]) == acts[act].regs;
    var none: map<Reg, int> := map[];
    assert acts[act - 1].calleeSaved + none.Keys == acts[act - 1].calleeSaved;
  }

  lemma AfterOneMore(acts: seq<Activation>, act: nat, mem: Memory, fbp: int, us: seq<UnwindLoc>, i: nat)
    requires 0 < act < |acts| && i < |us|
    ensures SaveMap(us[..i + 1]) == SaveMap(us[..i])[us[i].reg := us[i].offset]
    ensures var a := AfterRestore(acts, act, mem, fbp, SaveMap(us[..i]));
            a[act - 1 := a[act - 1].(calleeSaved := a[act - 1].calleeSaved + {us[i].reg})]
             [act := a[act].(regs := a[act].regs[us[i].reg := ReadBytes(mem, fbp + us[i].offset, 8)])]
            == AfterRestore(acts, act, mem, fbp, SaveMap(us[..i + 1]))
  {
    var u := us[i];
    assert us[..i + 1][..i] == us[..i];
    var m := SaveMap(us[..i]);
    assert Restored(mem, fbp, m[u.reg := u.offset])
        == Restored(mem, fbp, m)[u.reg := ReadBytes(mem, fbp + u.offset, 8)];
    var r := acts[act].regs;
    assert (r + Restored(mem, fbp, m))[u.reg := ReadBytes(mem, fbp + u.offset, 8)]
        == r + Restored(mem, fbp, m[u.reg := u.offset]);
    assert acts[act - 1].calleeSaved + m.Keys + {u.reg} == acts[act - 1].calleeSaved + m[u.reg := u.offset].Keys;
  }

  /** Restore the registers that activation act-1 saved, and the program counter. */
  method RestoreCalleeSavedRegs(ctx: RewriteContext, act: nat)
    requires 0 < act < |ctx.acts| && ctx.handle.SiteInTables(ctx.acts[act - 1].site)
    modifies ctx`acts
    ensures var arch, below := ctx.handle.arch, old(ctx.acts)[act - 1];
            var fbp := arch.addrOf(RegVal(below.regs, arch.fbpReg));
            var after := AfterRestore(old(ctx.acts), act, ctx.mem, fbp, SaveMap(ctx.handle.Unwinds(below.site)));
            ctx.acts == after[act := after[act].(regs := WithPc(arch, after[act].regs))]
  {
    var arch := ctx.handle.arch;
    var us := ctx.handle.Unwinds(ctx.acts[act - 1].site);
    ghost var fbp := arch.addrOf(RegVal(ctx.acts[act - 1].regs, arch.fbpReg));
    var i := 0;
    AfterNothing(ctx.acts, act, ctx.mem, fbp);
    while i < |us|
      invariant i <= |us|
      invariant ctx.acts == AfterRestore(old(ctx.acts), act, ctx.mem, fbp, SaveMap(us[..i]))
    {
      AfterOneMore(old(ctx.acts), act, ctx.mem, fbp, us, i);
      var savedLoc := arch.addrOf(RegVal(ctx.acts[act - 1].regs, arch.fbpReg)) + us[i].offset;
      ctx.acts := ctx.acts[act - 1 := ctx.acts[act - 1].(calleeSaved := ctx.acts[act - 1].calleeSaved + {us[i].reg})]
                          [act := ctx.acts[act].(regs := ctx.acts[act].regs[us[i].reg := ReadBytes(ctx.mem, savedLoc, 8)])];
      i := i + 1;
    }
    assert us[..i] == us;
    ctx.acts := ctx.acts[act := ctx.acts[act].(regs := WithPc(arch, ctx.acts[act].regs))];
  }

  /** Where the ABI keeps the return address in a register of its own, that register becomes
      the program counter. */
  function WithPc(arch: Arch, regs: RegSet): RegSet {
    if arch.hasRaReg then regs[arch.pcReg := RegVal(regs, arch.raReg)] else regs
  }

  function CalculateCfa(arch: Arch, a: Activation): int {
    arch.addrOf(RegVal(a.regs, arch.spReg)) + a.site.frameSize
  }

  /** The stack pointer of an activation is the CFA of the one below; its own CFA and frame
      pointer follow from its frame size. */
  function Bounded(arch: Arch, below: Activation, a: Activation): Activation {
    var a1 := a.(regs := a.regs[arch.spReg := arch.wordOf(below.cfa)]);
    var cfa := CalculateCfa(arch, a1);
    a1.(cfa := cfa, regs := a1.regs[arch.fbpReg := arch.wordOf(cfa + arch.fbpFromCfa)])
  }

  method SetupFrameBounds(ctx: RewriteContext, act: nat)
    requires 0 < act < |ctx.acts|
    modifies ctx`acts
    ensures ctx.acts == old(ctx.acts)[act := Bounded(ctx.handle.arch, old(ctx.acts)[act - 1], old(ctx.acts)[act])]
  {
    var arch := ctx.handle.arch;
    var newSp := ctx.acts[act - 1].cfa;
    ctx.acts := ctx.acts[act := ctx.acts[act].(regs := ctx.acts[act].regs[arch.spReg := arch.wordOf(newSp)])];
    ctx.acts := ctx.acts[act := ctx.acts[act].(cfa := CalculateCfa(arch, ctx.acts[act]))];
    ctx.acts := ctx.acts[act := ctx.acts[act].(regs :=
      ctx.acts[act].regs[arch.fbpReg := arch.wordOf(ctx.acts[act].cfa + arch.fbpFromCfa)])];
  }

  /** What pop_frame makes of the activation above `below`. */
  ghost function Above(h: Handle, mem: Memory, below: Activation, above: Activation, setupBounds: bool): (a: Activation)
    requires h.SiteInTables(below.site)
    ensures a.site == above.site
  {
    var regs := Popped(h.arch, mem, below.regs, SaveMap(h.Unwinds(below.site)), below.cfa);
    var a := above.(regs := regs, calleeSaved := {});
    if setupBounds then Bounded(h.arch, below, a) else a
  }

  method PopFrame(ctx: RewriteContext, setupBounds: bool)
    requires ctx.act + 1 < |ctx.acts| && ctx.handle.SiteInTables(ctx.acts[ctx.act].site)
    modifies ctx`acts, ctx`act
    ensures ctx.act == old(ctx.act) + 1
    ensures var k, below := old(ctx.act), old(ctx.acts)[old(ctx.act)];
            ctx.acts == old(ctx.acts)[k := below.(calleeSaved := below.calleeSaved + SaveMap(ctx.handle.Unwinds(below.site)).Keys)]
                                     [k + 1 := Above(ctx.handle, ctx.mem, below, old(ctx.acts)[k + 1], setupBounds)]
  {
    var nextFrame := ctx.act + 1;
    SetupActivation(ctx, nextFrame);
    RestoreCalleeSavedRegs(ctx, nextFrame);
    if setupBounds {
      SetupFrameBounds(ctx, nextFrame);
      OverwrittenSp(ctx.handle, ctx.mem, old(ctx.acts)[ctx.act], old(ctx.acts)[nextFrame]);
    } else {
      var arch := ctx.handle.arch;
      ctx.acts := ctx.acts[nextFrame := ctx.acts[nextFrame].(regs :=
        ctx.acts[nextFrame].regs[arch.spReg := arch.wordOf(ctx.acts[ctx.act].cfa)])];
    }
    ctx.act := ctx.act + 1;
  }

  /** Setting the stack pointer twice to the same value changes nothing more. */
  lemma OverwrittenSp(h: Handle, mem: Memory, below: Activation, above: Activation)
    requires h.SiteInTables(below.site)
    ensures var arch := h.arch;
            var r1 := below.regs + Restored(mem, arch.addrOf(RegVal(below.regs, arch.fbpReg)), SaveMap(h.Unwinds(below.site)));
            var r2 := WithPc(arch, r1);
            Bounded(arch, below, above.(regs := r2, calleeSaved := {})) == Above(h, mem, below, above, true)
  {
    var arch := h.arch;
    var r1 := below.regs + Restored(mem, arch.addrOf(RegVal(below.regs, arch.fbpReg)), SaveMap(h.Unwinds(below.site)));
    var r2 := WithPc(arch, r1);
    var w := arch.wordOf(below.cfa);
    var r3: RegSet := r2[arch.spReg := w];
    assert r3[arch.spReg := w] == r3;
  }

  method BootstrapFirstFrame(ctx: RewriteContext)
    requires ctx.act == 0 && |ctx.acts| > 0
    modifies ctx`acts
    ensures ctx.acts == old(ctx.acts)[0 := old(ctx.acts)[0].(calleeSaved := {}, cfa := CalculateCfa(ctx.handle.arch, old(ctx.acts)[0]))]
  {
    ctx.acts := ctx.acts[0 := ctx.acts[0].(calleeSaved := {})];
    ctx.acts := ctx.acts[0 := ctx.acts[0].(cfa := CalculateCfa(ctx.handle.arch, ctx.acts[0]))];
  }

  method BootstrapFirstFrameFuncEntry(ctx: RewriteContext)
    requires ctx.act == 0 && |ctx.acts| > 0
    modifies ctx`acts
    ensures var arch, a := ctx.handle.arch, old(ctx.acts)[0];
            ctx.acts == old(ctx.acts)[0 := a.(calleeSaved := {}, cfa := arch.addrOf(RegVal(a.regs, arch.spReg)) + arch.cfaOffsetFuncEntry)]
  {
    var arch := ctx.handle.arch;
    ctx.acts := ctx.acts[0 := ctx.acts[0].(calleeSaved := {})];
    ctx.acts := ctx.acts[0 := ctx.acts[0].(cfa := arch.addrOf(RegVal(ctx.acts[0].regs, arch.spReg)) + arch.cfaOffsetFuncEntry)];
  }

  /** What pop_frame_funcentry makes of the caller's activation. */
  function AboveEntry(arch: Arch, mem: Memory, a0: Activation, a1: Activation): (a: Activation)
    ensures a.site == a1.site
  {
    var pc := if arch.hasRaReg then RegVal(a0.regs, arch.raReg)
              else ReadBytes(mem, arch.addrOf(RegVal(a0.regs, arch.spReg)), 8);
    Bounded(arch, a0, a1.(regs := a0.regs[arch.pcReg := pc], calleeSaved := {}))
  }

  /** pop_frame_funcentry: only the program counter is restored; afterwards the entered
      function's frame pointer is its caller's. */
  method PopFrameFuncEntry(ctx: RewriteContext)
    requires ctx.act == 0 && 1 < |ctx.acts|
    modifies ctx`acts, ctx`act
    ensures ctx.act == 1
    ensures var arch, a0, a1 := ctx.handle.arch, old(ctx.acts)[0], old(ctx.acts)[1];
            var b := AboveEntry(arch, ctx.mem, a0, a1);
            ctx.acts == old(ctx.acts)[1 := b][0 := a0.(regs := a0.regs[arch.fbpReg := RegVal(b.regs, arch.fbpReg)])]
  {
    var arch := ctx.handle.arch;
    SetupActivation(ctx, 1);
    var pc := if arch.hasRaReg then RegVal(ctx.acts[0].regs, arch.raReg)
              else ReadBytes(ctx.mem, arch.addrOf(RegVal(ctx.acts[0].regs, arch.spReg)), 8);
    ctx.acts := ctx.acts[1 := ctx.acts[1].(regs := ctx.acts[1].regs[arch.pcReg := pc])];
    SetupFrameBounds(ctx, 1);
    ctx.acts := ctx.acts[0 := ctx.acts[0].(regs := ctx.acts[0].regs[arch.fbpReg := RegVal(ctx.acts[1].regs, arch.fbpReg)])];
    ctx.act := ctx.act + 1;
  }

  /** get_register_save_loc: the slot in which an activation saved a register. */
  method GetRegisterSaveLoc(ctx: RewriteContext, act: nat, reg: Reg, ghost f: Frame) returns (addr: int)
    requires act < |ctx.acts| && SiteIs(ctx.handle, ctx.acts[act].site, f) && reg in f.saves
    ensures addr == ctx.handle.arch.addrOf(RegVal(ctx.acts[act].regs, ctx.handle.arch.fbpReg)) + f.saves[reg]
  {
    var arch, a := ctx.handle.arch, ctx.acts[act];
    var us := ctx.handle.Unwinds(a.site);
    ghost var w := SaveMapKeys(us, reg);
    var i := 0;
    while us[i].reg != reg
      invariant i <= w
      decreases w - i
    {
      i := i + 1;
    }
    SaveMapAt(us, i);
    addr := arch.addrOf(RegVal(a.regs, arch.fbpReg)) + us[i].offset;
  }

  /** Location of a callee-saved register's value: a stack slot or a register of the outermost
      activation; none for the outermost activation itself. */
  datatype SavedLoc = NoLoc | At(place: Place)

  /** One step inwards: the value is in the inner activation's slot, or further in. */
  lemma StepInwards(h: Handle, acts: seq<Activation>, p: Plan, k: nat, i: nat, reg: Reg)
    requires p.Ok() && InRange(p) && Framed(h, acts, p, k) && i < k < |p.frames| - 1
    ensures reg !in acts[i].calleeSaved ==> p.RegPlace(reg, i + 1) == p.RegPlace(reg, i)
    ensures reg in acts[i].calleeSaved ==> SiteIs(h, acts[i].site, p.frames[i]) && reg in p.frames[i].saves
    ensures reg in acts[i].calleeSaved ==>
              p.RegPlace(reg, i + 1) == InMem(p.arch.addrOf(RegVal(acts[i].regs, p.arch.fbpReg)) + p.frames[i].saves[reg])
  {
    assert SaversAt(acts, p, i) && BoundsAt(acts, p, i);
    if i > 0 {
      assert SiteIs(h, acts[i].site, p.frames[i]);
      FbpInRange(p, i);
    }
  }

  /** callee_saved_loc walks the call chain inwards until it meets an activation that saved the
      register: that is exactly the place from which unwinding restores it. */
  method CalleeSavedLoc(ctx: RewriteContext, regnum: Reg, act: nat, ghost p: Plan, ghost k: nat) returns (loc: SavedLoc)
    requires p.Ok() && InRange(p) && Framed(ctx.handle, ctx.acts, p, k) && act <= k && k < |p.frames| - 1
    ensures loc == if act == 0 then NoLoc else At(p.RegPlace(regnum, act))
  {
    if act == 0 {
      return NoLoc;
    }
    var i: nat := act;
    while i > 0
      invariant i <= act
      invariant p.RegPlace(regnum, act) == p.RegPlace(regnum, i)
    {
      i := i - 1;
      StepInwards(ctx.handle, ctx.acts, p, k, i, regnum);
      if regnum in ctx.acts[i].calleeSaved {
        var saved := GetRegisterSaveLoc(ctx, i, regnum, p.frames[i]);
        return At(InMem(saved));
      }
    }
    return At(InReg(regnum));
  }
}
