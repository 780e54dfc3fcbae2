/** st_rewrite_stack, end to end. */
module StackRewrite {
  import opened Bytes
  import opened Machine
  import opened SiteSearch
  import opened Frames
  import opened Pairing
  import opened Transform
  import opened Progress
  import opened Links
  import opened Outcome
  import opened Context
  import opened Data
  import opened Rewriting
  import opened Whole

  // ---------- what the metadata and the source stack must satisfy ----------

  ghost function FrameOf(h: Handle, site: CallSite): Frame
    requires h.SiteInTables(site)
  {
    Frame(site.addr, site.frameSize, SaveMap(h.Unwinds(site)), h.Live(site))
  }

  ghost predicate ArchOk(arch: Arch) {
    && arch.Valid() && arch.raOffset + 8 <= 0
    && forall sp {:trigger EntrySp(arch, sp)} :: sp - 4096 <= EntrySp(arch, sp) <= sp
  }

  ghost predicate SiteOk(hd: Handle, d: CallSite) {
    && hd.SiteInTables(d) && DistinctRegs(hd.Unwinds(d))
    && (!FirstFrame(d.id) ==> forall cfa {:trigger FrameOk(hd.arch, FrameOf(hd, d), cfa)} :: FrameOk(hd.arch, FrameOf(hd, d), cfa))
  }

  ghost predicate SitesPaired(hs: Handle, hd: Handle, s: CallSite, d: CallSite) {
    hs.SiteInTables(s) && hd.SiteInTables(d) && PairOk(hs.Live(s), hd.Live(d))
  }

  ghost predicate MetadataOk(hs: Handle, hd: Handle) {
    && TablesOk(hs) && TablesOk(hd) && hs.arch.Valid() && ArchOk(hd.arch)
    && (forall d {:trigger SiteOk(hd, d)} | d in hd.sitesId :: SiteOk(hd, d))
    && forall s, d {:trigger SitesPaired(hs, hd, s, d)} |
         s in hs.sitesAddr && d in hd.sitesId && s.id == d.id && !FirstFrame(d.id) :: SitesPaired(hs, hd, s, d)
  }

  /** The allocas of a source frame lie inside it, apart from each other. */
  ghost predicate SourceFrameOk(h: Handle, below: Activation, a: Activation)
    requires h.SiteInTables(a.site)
  {
    var vs := h.Live(a.site);
    && below.cfa <= a.cfa
    && (forall i {:trigger vs[i]} | 0 <= i < |vs| && vs[i].isAlloca ::
          below.cfa <= BasedAddr(h.arch, a.regs, vs[i]) && BasedAddr(h.arch, a.regs, vs[i]) + vs[i].ValSize() <= a.cfa)
    && (forall i, j | 0 <= i < j < |vs| && vs[i].isAlloca && vs[j].isAlloca ::
          Apart(BasedAddr(h.arch, a.regs, vs[i]), vs[i].ValSize(), BasedAddr(h.arch, a.regs, vs[j]), vs[j].ValSize()))
  }

  /** However far the source stack is unwound, its frames are well formed. */
  ghost predicate SourceOk(h: Handle, mem: Memory, first: Activation) {
    forall acts: seq<Activation>, n: nat {:trigger SrcChain(h, mem, first, acts, n)} | SrcChain(h, mem, first, acts, n) && 1 <= n ::
      h.SiteInTables(acts[n].site) && (!FirstFrame(acts[n].site.id) ==> SourceFrameOk(h, acts[n - 1], acts[n]))
  }

  // ---------- the job that a run carries out ----------

  ghost function PlanOf(h: Handle, acts: seq<Activation>, n: nat, cfa0: int, fn: u64): Plan
    requires n < |acts| && forall k | 1 <= k <= n :: h.SiteInTables(acts[k].site)
  {
    Plan(h.arch, [Frame(fn, 0, map[], [])] + seq(n, k requires 0 <= k < n => FrameOf(h, acts[k + 1].site)), cfa0)
  }

  ghost function OffsOf(acts: seq<Activation>, n: nat): seq<nat>
    requires n < |acts|
  {
    [0] + seq(n, k requires 0 <= k < n => acts[k + 1].site.liveOffset)
  }

  /** A run of the transformation: the inputs, the outermost source activation, the destination's
      matched call sites, its stack pointer, the function it enters, the number of frames, and the job. */
  datatype Run = Run(hs: Handle, mem: Memory, first: Activation, hd: Handle, dest: seq<Activation>, sp: int, fn: u64, n: nat,
                     c: Job)

  /** The job of a run is the unwound source with the plan of its matched call sites. */
  ghost predicate IsRun(r: Run) {
    && r.c.v.h == r.hs && r.c.v.mem == r.mem && Matched(r.hs, r.mem, r.first, r.hd, r.c.v.acts, r.dest, r.n)
    && (forall k | 1 <= k <= r.n :: r.hd.SiteInTables(r.dest[k].site))
    && r.c.p == PlanOf(r.hd, r.dest, r.n, r.sp + r.hd.arch.cfaOffsetFuncEntry, r.fn) && r.c.offs == OffsOf(r.dest, r.n)
    && 0 < r.sp && r.sp + r.hd.arch.cfaOffsetFuncEntry + StackSize(r.dest, r.n) < TWO_64
  }

  lemma MatchedSite(hs: Handle, mem: Memory, first: Activation, hd: Handle, src: seq<Activation>, dest: seq<Activation>, n: nat, k: nat)
    requires MetadataOk(hs, hd) && Matched(hs, mem, first, hd, src, dest, n) && 1 <= k <= n
    ensures SiteOk(hd, dest[k].site) && hs.SiteInTables(src[k].site)
    ensures k < n ==> !FirstFrame(dest[k].site.id) && SitesPaired(hs, hd, src[k].site, dest[k].site)
  {
    assert UnwindsAt(hs, mem, src, k);
    assert dest[k].site in hd.sitesId && dest[k].site.id == src[k].site.id;
    assert SiteOk(hd, dest[k].site);
    if k < n {
      assert SitesPaired(hs, hd, src[k].site, dest[k].site);
    }
  }

  /** The planned CFAs are running sums of the frame sizes. */
  lemma {:induction false} CfaIsSum(r: Run, k: nat)
    requires IsRun(r) && k <= r.n
    ensures r.c.p.Cfa(k) == r.sp + r.hd.arch.cfaOffsetFuncEntry + StackSize(r.dest, k)
  {
    hide Matched;
    if k > 0 {
      CfaIsSum(r, k - 1);
    }
  }

  lemma RunFrame(r: Run, f: nat)
    requires MetadataOk(r.hs, r.hd) && SourceOk(r.hs, r.mem, r.first) && IsRun(r) && r.c.Shape() && 1 <= f < r.n
    ensures r.c.FramePaired(f) && FrameOk(r.c.p.arch, r.c.p.frames[f], r.c.p.Cfa(f))
  {
    hide FrameOk, PairOk, TablesOk, ArchOk;
    MatchedSite(r.hs, r.mem, r.first, r.hd, r.c.v.acts, r.dest, r.n, f);
    assert FrameOk(r.hd.arch, FrameOf(r.hd, r.dest[f].site), r.c.p.Cfa(f));
    assert r.dest[f].site.id == r.c.v.acts[f].site.id;
    assert SrcChain(r.hs, r.mem, r.first, r.c.v.acts, f);
    assert SourceFrameOk(r.hs, r.c.v.acts[f - 1], r.c.v.acts[f]);
  }

  /** Well-formed metadata and a well-formed source stack make a well-formed job. */
  lemma RunIsOk(r: Run)
    requires MetadataOk(r.hs, r.hd) && SourceOk(r.hs, r.mem, r.first) && IsRun(r) && 0 < r.c.v.stack
    ensures r.c.Ok()
  {
    hide Matched, SourceOk, TablesOk, FrameOk;
    RunShape(r);
    CfaIsSum(r, r.n);
    forall f | 1 <= f < r.n
      ensures r.c.FramePaired(f) && FrameOk(r.c.p.arch, r.c.p.frames[f], r.c.p.Cfa(f))
    {
      RunFrame(r, f);
    }
    assert r.c.p.Ok();
  }

  lemma RunShape(r: Run)
    requires IsRun(r)
    ensures r.c.Shape() && |r.c.p.frames| == r.n + 1
  {
    forall f | 0 <= f <= r.n
      ensures r.hs.SiteInTables(r.c.v.acts[f].site)
    {
      ChainSite(r.hs, r.mem, r.first, r.c.v.acts, r.n, f);
    }
  }

  lemma RunSite(r: Run, f: nat)
    requires MetadataOk(r.hs, r.hd) && IsRun(r) && 1 <= f <= r.n
    ensures |r.c.p.frames| == r.n + 1 && SiteIs(r.hd, r.dest[f].site, r.c.p.frames[f])
    ensures r.c.offs[f] == r.dest[f].site.liveOffset
  {
    hide Matched, MetadataOk, FrameOk;
    assert Matched(r.hs, r.mem, r.first, r.hd, r.c.v.acts, r.dest, r.n);
    MatchedSite(r.hs, r.mem, r.first, r.hd, r.c.v.acts, r.dest, r.n, f);
  }

  lemma RunPlanned(r: Run)
    requires MetadataOk(r.hs, r.hd) && IsRun(r)
    ensures |r.c.p.frames| == r.n + 1 && SitesAre(r.hd, r.dest, r.c.p)
    ensures forall f {:trigger r.c.offs[f]} | 1 <= f < |r.c.p.frames| :: r.c.offs[f] == r.dest[f].site.liveOffset
  {
    hide MetadataOk, SiteIs;
    forall f | 1 <= f <= r.n
      ensures SiteIs(r.hd, r.dest[f].site, r.c.p.frames[f]) && r.c.offs[f] == r.dest[f].site.liveOffset
    {
      RunSite(r, f);
    }
  }

  lemma RunSites(hs: Handle, mem: Memory, first: Activation, hd: Handle, src: seq<Activation>, dest: seq<Activation>, n: nat)
    requires MetadataOk(hs, hd) && Matched(hs, mem, first, hd, src, dest, n)
    ensures forall k | 1 <= k <= n :: SiteOk(hd, dest[k].site)
  {
    forall k | 1 <= k <= n
      ensures SiteOk(hd, dest[k].site)
    {
      MatchedSite(hs, mem, first, hd, src, dest, n, k);
    }
  }

  // ---------- entering the destination ----------

  /** What popping the planned frame below does to the activations of a plan. */
  lemma PopFramed(h: Handle, acts: seq<Activation>, p: Plan, k: nat, mem: Memory, acts': seq<Activation>)
    requires p.Ok() && InRange(p) && Framed(h, acts, p, k) && 1 <= k && k + 1 < |p.frames|
    requires h.SiteInTables(acts[k].site)
    requires acts' == acts[k := acts[k].(calleeSaved := acts[k].calleeSaved + SaveMap(h.Unwinds(acts[k].site)).Keys)]
                          [k + 1 := Above(h, mem, acts[k], acts[k + 1], true)]
    ensures Framed(h, acts', p, k + 1)
  {
    assert BoundsAt(acts, p, k);
    assert SiteIs(h, acts[k].site, p.frames[k]) && SiteIs(h, acts[k + 1].site, p.frames[k + 1]);
    SitesStay(h, acts, acts', p);
    BoundedBounds(p, k, acts[k], acts'[k + 1], Above(h, mem, acts[k], acts[k + 1], false));
    PopFramedBelow(acts, p, k, acts');
    assert SaversAt(acts', p, k) && BoundsAt(acts', p, k + 1);
  }

  lemma PopFramedBelow(acts: seq<Activation>, p: Plan, k: nat, acts': seq<Activation>)
    requires k + 1 < |p.frames| <= |acts| == |acts'|
    requires forall f {:trigger BoundsAt(acts, p, f)} | 0 <= f <= k :: BoundsAt(acts, p, f)
    requires forall f {:trigger SaversAt(acts, p, f)} | 0 <= f < k :: SaversAt(acts, p, f)
    requires forall f | 0 <= f < k :: acts'[f] == acts[f]
    requires SameFrame(acts'[k], acts[k])
    ensures forall f {:trigger BoundsAt(acts', p, f)} | 0 <= f <= k :: BoundsAt(acts', p, f)
    ensures forall f {:trigger SaversAt(acts', p, f)} | 0 <= f < k :: SaversAt(acts', p, f)
  {
    forall f | 0 <= f <= k
      ensures BoundsAt(acts', p, f)
    {
      assert BoundsAt(acts, p, f);
    }
    forall f | 0 <= f < k
      ensures SaversAt(acts', p, f)
    {
      assert SaversAt(acts, p, f);
    }
  }

  lemma BoundedBounds(p: Plan, k: nat, below: Activation, a: Activation, b: Activation)
    requires p.Ok() && InRange(p) && k + 1 < |p.frames| && below.cfa == p.Cfa(k)
    requires b.site.frameSize == p.frames[k + 1].size && a == Bounded(p.arch, below, b)
    ensures a.cfa == p.Cfa(k + 1)
    ensures RegVal(a.regs, p.arch.spReg) == p.arch.wordOf(p.Sp(k + 1))
    ensures RegVal(a.regs, p.arch.fbpReg) == p.arch.wordOf(p.Fbp(k + 1))
  {
    CfaInRange(p, k);
  }

  /** The entered activation and its caller, after the return address has been set and the
      entered function has been left. */
  ghost predicate HasEntered(p: Plan, mem: Memory, a0: Activation, a1: Activation, b0: Activation, b1: Activation)
    requires |p.frames| > 0
  {
    var arch := p.arch;
    && a0.calleeSaved == {} && a0.cfa == p.cfa0
    && RegVal(a0.regs, arch.pcReg) == arch.wordOf(p.frames[0].addr)
    && RegVal(a0.regs, arch.spReg) == arch.wordOf(p.cfa0 - arch.cfaOffsetFuncEntry)
    && b1 == AboveEntry(arch, mem, a0, a1)
    && b0 == a0.(regs := a0.regs[arch.fbpReg := RegVal(b1.regs, arch.fbpReg)])
  }

  lemma EntryFramed(h: Handle, p: Plan, mem: Memory, acts: seq<Activation>, a0: Activation, a1: Activation)
    requires p.Ok() && InRange(p) && p.arch == h.arch && |p.frames| <= |acts|
    requires HasEntered(p, mem, a0, a1, acts[0], acts[1]) && SitesAre(h, acts, p)
    requires p.arch.wordOf(p.frames[1].addr)
             == (if p.arch.hasRaReg then RegVal(a0.regs, p.arch.raReg) else ReadBytes(mem, p.RaSlot(0), 8))
    ensures Framed(h, acts, p, 1) && EntryLinked(p, Store(mem, acts[0].regs))
  {
    var arch := p.arch;
    assert SiteIs(h, acts[1].site, p.frames[1]);
    var pc := if arch.hasRaReg then RegVal(a0.regs, arch.raReg)
              else ReadBytes(mem, arch.addrOf(RegVal(a0.regs, arch.spReg)), 8);
    BoundedBounds(p, 0, a0, acts[1], a1.(regs := a0.regs[arch.pcReg := pc], calleeSaved := {}));
    assert BoundsAt(acts, p, 0) && BoundsAt(acts, p, 1) && SaversAt(acts, p, 0);
  }

  /** The entered activation as placed, and the return address where its function expects it. */
  ghost predicate Entered(h: Handle, acts: seq<Activation>, p: Plan) {
    && p.Ok() && InRange(p) && p.arch == h.arch && |p.frames| <= |acts| && SitesAre(h, acts, p)
    && acts[0].calleeSaved == {} && acts[0].cfa == p.cfa0
    && RegVal(acts[0].regs, p.arch.pcReg) == p.arch.wordOf(p.frames[0].addr)
    && RegVal(acts[0].regs, p.arch.spReg) == p.arch.wordOf(p.cfa0 - p.arch.cfaOffsetFuncEntry)
  }

  ghost predicate ReturnsToFirst(p: Plan, mem: Memory, a: Activation)
    requires 2 <= |p.frames|
  {
    p.arch.wordOf(p.frames[1].addr)
    == if p.arch.hasRaReg then RegVal(a.regs, p.arch.raReg) else ReadBytes(mem, p.RaSlot(0), 8)
  }

  /** set_return_address_funcentry on the freshly placed stack. */
  method SetEntryAddress(dest: RewriteContext, ghost p: Plan)
    requires dest.act == 0 && Entered(dest.handle, dest.acts, p)
    modifies dest`acts, dest`mem
    ensures Entered(dest.handle, dest.acts, p) && ReturnsToFirst(p, dest.mem, dest.acts[0])
    ensures |dest.acts| == old(|dest.acts|) && forall f | 1 <= f < |dest.acts| :: dest.acts[f].site == old(dest.acts)[f].site
  {
    hide SitesAre, FrameOk, InRange, Plan.Ok, WriteBytes, ReadBytes, Arch.Valid;
    ghost var acts0 := dest.acts;
    RaRegOther(p);
    KnownSite(dest.handle, acts0, p, 1);
    SetReturnAddressFuncEntry(dest, dest.acts[1].site.addr);
    ReadOwnWrite(old(dest.mem), p.RaSlot(0), p.arch.wordOf(p.frames[1].addr));
    SitesStay(dest.handle, acts0, dest.acts, p);
  }

  lemma RaRegOther(p: Plan)
    requires p.Ok()
    ensures p.arch.hasRaReg ==> p.arch.raReg != p.arch.spReg && p.arch.raReg != p.arch.pcReg
    ensures p.RaSlot(0) == p.cfa0 + p.arch.raOffset && 2 <= |p.frames|
  {
  }

  /** set_return_address_funcentry and pop_frame_funcentry. */
  method EnterDestination(dest: RewriteContext, ghost p: Plan)
    requires dest.act == 0 && Entered(dest.handle, dest.acts, p)
    modifies dest`acts, dest`act, dest`mem
    ensures dest.act == 1 && Framed(dest.handle, dest.acts, p, 1) && EntryLinked(p, dest.Contents())
    ensures |dest.acts| == old(|dest.acts|) && forall f | 1 <= f < |dest.acts| :: dest.acts[f].site == old(dest.acts)[f].site
  {
    hide Framed, FrameOk, EntryLinked, InRange, SitesAre, AboveEntry;
    SetEntryAddress(dest, p);
    ghost var acts, a0, a1 := dest.acts, dest.acts[0], dest.acts[1];
    PopFrameFuncEntry(dest);
    SitesStay(dest.handle, acts, dest.acts, p);
    EntryFramed(dest.handle, p, dest.mem, dest.acts, a0, a1);
  }

  lemma KnownSite(h: Handle, acts: seq<Activation>, p: Plan, f: nat)
    requires |p.frames| <= |acts| && SitesAre(h, acts, p) && 1 <= f < |p.frames|
    ensures SiteIs(h, acts[f].site, p.frames[f])
  {
  }

  // ---------- rewriting all frames ----------

  /** The state between two frames: activation k is planned, the links below it are complete,
      and every record of the frames below it has been handled. */
  ghost predicate Between(c: Job, src: RewriteContext, dest: RewriteContext, k: nat)
    reads src, dest
  {
    && c.Ok() && src != dest && src.act == dest.act == k && 1 <= k < |c.p.frames| && |dest.acts| > 0
    && Framed(dest.handle, dest.acts, c.p, k) && Linked(c.p, dest.Contents(), k)
    && Inv(c, dest.Contents(), dest.stackPointers, k, 0)
    && (forall f {:trigger c.offs[f]} | 1 <= f < |c.p.frames| :: c.offs[f] == dest.acts[f].site.liveOffset)
    && src.handle == c.v.h && src.mem == c.v.mem && src.acts == c.v.acts
    && src.stack == c.v.stack && src.stackBase == c.v.base
  }

  /** One iteration of the main loop: return address, live values, caller's frame pointer. */
  method RewriteOneFrame(src: RewriteContext, dest: RewriteContext, ghost c: Job)
    requires Between(c, src, dest, dest.act) && c.Rewritten(dest.act)
    modifies src`act, dest`act, dest`acts, dest`mem, dest`stackPointers
    ensures Between(c, src, dest, old(dest.act) + 1)
  {
    hide Inv, Linked, SitesAre, RaAt;
    ghost var k := dest.act;
    PlannedNext(c, dest.handle, dest.acts, k);
    SetRa(c, dest.Contents(), k, dest.stackPointers);
    SetReturnAddress(dest, dest.acts[dest.act + 1].site.addr);
    RewriteFrame(src, dest, c);
    LeaveFrame(dest, c);
    src.act := src.act + 1;
  }

  /** Pop to the caller's frame and save its frame pointer in the frame just left. */
  method LeaveFrame(dest: RewriteContext, ghost c: Job)
    requires Follows(c, dest, dest.act) && c.Rewritten(dest.act)
    requires Chained(c, dest.Contents(), dest.act) && Inv(c, dest.Contents(), dest.stackPointers, dest.act + 1, 0)
    modifies dest`act, dest`acts, dest`mem
    ensures dest.act == old(dest.act) + 1 && |dest.acts| > 0
    ensures Framed(dest.handle, dest.acts, c.p, dest.act) && Linked(c.p, dest.Contents(), dest.act)
    ensures Inv(c, dest.Contents(), dest.stackPointers, dest.act, 0)
    ensures forall f {:trigger c.offs[f]} | 1 <= f < |c.p.frames| :: c.offs[f] == dest.acts[f].site.liveOffset
  {
    hide Inv, Linked, Framed, RaAt, FrameOk, Plan.Ok, Job.FramePaired, WriteBytes;
    ghost var k := dest.act;
    PlannedNext(c, dest.handle, dest.acts, k);
    SetFbp(c, dest.Contents(), k, dest.stackPointers);
    var savedFbp := SavedFbpLoc(dest.handle.arch, dest.acts[dest.act]);
    PopPlanned(dest, c.p);
    dest.mem := WriteBytes(dest.mem, savedFbp, RegVal(dest.acts[dest.act].regs, dest.handle.arch.fbpReg));
  }

  /** pop_frame with bounds reaches the next planned frame and writes nothing. */
  method PopPlanned(dest: RewriteContext, ghost p: Plan)
    requires p.Ok() && InRange(p) && 1 <= dest.act && dest.act + 1 < |p.frames| && Framed(dest.handle, dest.acts, p, dest.act)
    modifies dest`act, dest`acts
    ensures dest.act == old(dest.act) + 1 && Framed(dest.handle, dest.acts, p, dest.act)
    ensures |dest.acts| == old(|dest.acts|) > 0 && dest.acts[0] == old(dest.acts)[0]
    ensures forall f | 0 <= f < |dest.acts| :: dest.acts[f].site == old(dest.acts)[f].site
    ensures RegVal(dest.acts[dest.act].regs, p.arch.fbpReg) == p.arch.wordOf(p.Fbp(dest.act))
  {
    hide SitesAre, Above;
    ghost var k, acts := dest.act, dest.acts;
    KnownSite(dest.handle, acts, p, k);
    PopFrame(dest, true);
    PopFramed(dest.handle, acts, p, k, dest.mem, dest.acts);
    PlannedBounds(dest.acts, dest.handle, p, k + 1);
  }

  lemma PlannedNext(c: Job, h: Handle, acts: seq<Activation>, k: nat)
    requires Framed(h, acts, c.p, k) && 1 <= k && k + 1 < |c.p.frames|
    ensures h.SiteInTables(acts[k].site)
    ensures acts[k + 1].site.addr == c.p.frames[k + 1].addr
    ensures acts[k].cfa == c.p.Cfa(k) && |c.p.frames| <= |acts| && c.p.arch == h.arch
  {
    assert SiteIs(h, acts[k].site, c.p.frames[k]) && SiteIs(h, acts[k + 1].site, c.p.frames[k + 1]);
    assert BoundsAt(acts, c.p, k);
  }

  lemma PlannedBounds(acts: seq<Activation>, h: Handle, p: Plan, k: nat)
    requires Framed(h, acts, p, k) && 1 <= k
    ensures RegVal(acts[k].regs, p.arch.fbpReg) == p.arch.wordOf(p.Fbp(k))
  {
    assert BoundsAt(acts, p, k);
  }

  /** The main loop. */
  method RewriteFrames(src: RewriteContext, dest: RewriteContext, ghost c: Job)
    requires Between(c, src, dest, 1) && src.numActs == |c.p.frames|
    modifies src`act, dest`act, dest`acts, dest`mem, dest`stackPointers
    ensures |dest.acts| > 0 && Transformed(c, dest.Contents(), dest.stackPointers)
  {
    hide Inv, Linked, Framed;
    while src.act < src.numActs - 1
      invariant Between(c, src, dest, dest.act) && dest.act <= |c.p.frames| - 1
      decreases |c.p.frames| - src.act
    {
      RewriteOneFrame(src, dest, c);
    }
    Finished(c, dest.Contents(), dest.stackPointers);
    FinishedList(c, dest.Contents(), dest.stackPointers);
  }

  // ---------- the whole transformation ----------

  /** The source's outermost activation, as init_src_context sets it up. */
  function FirstActivation(arch: Arch, site: CallSite, regs: RegSet): Activation {
    Activation(site, arch.addrOf(RegVal(regs, arch.spReg)) + site.frameSize, regs, {})
  }

  /** Rewriting, once the source is unwound and the destination placed. */
  method TransformStack(src: RewriteContext, dest: RewriteContext, ghost first: Activation, ghost fn: u64) returns (ghost r: Run)
    requires src != dest && src.act == dest.act == 0 && 2 <= src.numActs == dest.numActs
    requires MetadataOk(src.handle, dest.handle) && SourceOk(src.handle, src.mem, first)
    requires Matched(src.handle, src.mem, first, dest.handle, src.acts, dest.acts, src.numActs - 1)
    requires 0 < src.stack && dest.stackPointers == []
    requires 0 < dest.stack && dest.stack + dest.handle.arch.cfaOffsetFuncEntry + StackSize(dest.acts, dest.numActs - 1) < TWO_64
    requires dest.acts[0].calleeSaved == {} && dest.acts[0].cfa == dest.stack + dest.handle.arch.cfaOffsetFuncEntry
    requires RegVal(dest.acts[0].regs, dest.handle.arch.spReg) == dest.handle.arch.wordOf(dest.stack)
    requires RegVal(dest.acts[0].regs, dest.handle.arch.pcReg) == dest.handle.arch.wordOf(fn)
    modifies src`act, dest`act, dest`acts, dest`mem, dest`stackPointers
    ensures r == Run(src.handle, src.mem, first, dest.handle, old(dest.acts), dest.stack, fn, src.numActs - 1, r.c)
    ensures IsRun(r) && r.c.v == View(src.handle, src.mem, src.stack, src.stackBase, src.acts)
    ensures |dest.acts| > 0 && r.c.Ok() && Transformed(r.c, dest.Contents(), dest.stackPointers)
  {
    hide SrcChain, SitesMatch, MetadataOk, SourceOk, Transformed, Framed, Inv, SitesAre;
    ghost var n := dest.numActs - 1;
    RunSites(src.handle, src.mem, first, dest.handle, src.acts, dest.acts, n);
    ghost var c := Job(View(src.handle, src.mem, src.stack, src.stackBase, src.acts),
                       PlanOf(dest.handle, dest.acts, n, dest.stack + dest.handle.arch.cfaOffsetFuncEntry, fn), OffsOf(dest.acts, n));
    r := Run(src.handle, src.mem, first, dest.handle, dest.acts, dest.stack, fn, n, c);
    RunIsOk(r);
    RunPlanned(r);
    EnterDestination(dest, c.p);
    src.act := 1;
    Start(c, dest.Contents());
    RewriteFrames(src, dest, c);
  }

  /** init_src_context: no context exactly when the outermost call site is unknown. */
  method InitSrcContext(h: Handle, regs: RegSet, mem: Memory, base: int) returns (ctx: RewriteContext?, ghost site: CallSite)
    requires TablesOk(h)
    ensures ctx == null <==> forall s | s in h.sitesAddr :: s.addr != h.arch.addrOf(RegVal(regs, h.arch.pcReg))
    ensures ctx != null ==> fresh(ctx) && site in h.sitesAddr && site.addr == h.arch.addrOf(RegVal(regs, h.arch.pcReg))
    ensures ctx != null ==> ctx.handle == h && ctx.mem == mem && ctx.stackBase == base && ctx.act == ctx.numActs == 0
    ensures ctx != null ==> ctx.stack == h.arch.addrOf(RegVal(regs, h.arch.spReg)) && |ctx.acts| == MAX_FRAMES
    ensures ctx != null ==> SrcChain(h, mem, FirstActivation(h.arch, site, regs), ctx.acts, 0)
  {
    var found, s := GetSiteByAddr(h.sitesAddr, h.arch.addrOf(RegVal(regs, h.arch.pcReg)));
    site := s;
    if !found {
      return null, site;
    }
    ctx := new RewriteContext(h, mem, base, Activation(s, 0, regs, {}));
    ctx.stack := h.arch.addrOf(RegVal(regs, h.arch.spReg));
    BootstrapFirstFrame(ctx);
  }

  /** When the library does not give up: the outermost call site is known, the stack pointer is not
      null, the address lies in a known function, and from that site the stack can be unwound. */
  ghost predicate Accepts(hs: Handle, regs: RegSet, mem: Memory, hd: Handle) {
    var pc := hs.arch.addrOf(RegVal(regs, hs.arch.pcReg));
    && 0 < hs.arch.addrOf(RegVal(regs, hs.arch.spReg))
    && hs.unwindAddrs != [] && hs.unwindAddrs[0].addr <= pc
    && exists s :: s in hs.sitesAddr && s.addr == pc && Rewritable(hs, mem, FirstActivation(hs.arch, s, regs), hd)
  }

  lemma AcceptsIf(hs: Handle, regs: RegSet, mem: Memory, hd: Handle, site: CallSite)
    requires TablesOk(hs) && site in hs.sitesAddr && site.addr == hs.arch.addrOf(RegVal(regs, hs.arch.pcReg))
    requires 0 < hs.arch.addrOf(RegVal(regs, hs.arch.spReg)) && hs.unwindAddrs != [] && hs.unwindAddrs[0].addr <= site.addr
    ensures Accepts(hs, regs, mem, hd) <==> Rewritable(hs, mem, FirstActivation(hs.arch, site, regs), hd)
  {
    var i :| 0 <= i < |hs.sitesAddr| && hs.sitesAddr[i] == site;
  }

  /** The program counter of a transformed stack. */
  lemma EntersFunction(r: Run, s: Store, fixups: seq<Fixup>)
    requires IsRun(r) && r.c.Ok() && Transformed(r.c, s, fixups)
    ensures RegVal(s.regs, r.hd.arch.pcReg) == r.hd.arch.wordOf(r.fn)
  {
  }

  /** The function that an address is in: the last one that starts at or below it. */
  ghost predicate Encloses(h: Handle, fn: u64, addr: int) {
    && (exists f | f in h.unwindAddrs :: f.addr == fn) && fn <= addr
    && forall f | f in h.unwindAddrs && f.addr <= addr :: f.addr <= fn
  }

  /** st_rewrite_stack from init_dest_context on: `fn` is the function to be entered. */
  method RewriteInto(src: RewriteContext, ghost first: Activation, hd: Handle, regsDest: RegSet, memDest: Memory, baseDest: int, fn: u64)
    returns (ok: bool, regs: RegSet, mem: Memory, leftOver: seq<Fixup>, ghost r: Run)
    requires MetadataOk(src.handle, hd) && SourceOk(src.handle, src.mem, first)
    requires MAX_STACK_SIZE <= baseDest && baseDest + hd.arch.cfaOffsetFuncEntry < TWO_64
    requires src.act == src.numActs == 0 && 0 < src.stack && |src.acts| == MAX_FRAMES
    requires SrcChain(src.handle, src.mem, first, src.acts, 0)
    modifies src`acts, src`act, src`numActs
    ensures ok <==> Rewritable(src.handle, src.mem, first, hd)
    ensures ok ==> r == Run(src.handle, src.mem, first, hd, r.dest, r.sp, fn, r.n, r.c) && IsRun(r)
    ensures ok ==> r.sp == EntrySp(hd.arch, baseDest - StackSize(r.dest, r.n))
    ensures ok ==> r.c.v.stack == src.stack && r.c.v.base == src.stackBase
    ensures ok ==> r.c.Ok() && Transformed(r.c, Store(mem, regs), leftOver)
    ensures ok ==> RegVal(regs, hd.arch.pcReg) == hd.arch.wordOf(fn)
  {
    hide SrcChain, SourceOk, Transformed, IsRun, Rewritable, Matched;
    regs, mem, leftOver := regsDest, memDest, [];
    r := Run(src.handle, src.mem, first, hd, [], 0, 0, 0, Job(View(src.handle, src.mem, 0, 0, []), Plan(hd.arch, [], 0), []));
    var dest := new RewriteContext(hd, memDest, baseDest,
      Activation(EMPTY_CALL_SITE, 0, regsDest[hd.arch.pcReg := hd.arch.wordOf(fn)], {}));
    ok := UnwindAndSize(src, dest, first);
    if ok {
      StackInRange(hd.arch, baseDest, StackSize(dest.acts, dest.numActs - 1), dest.stack);
      r := TransformStack(src, dest, first, fn);
      regs, mem, leftOver := dest.acts[0].regs, dest.mem, dest.stackPointers;
      EntersFunction(r, Store(mem, regs), leftOver);
    }
  }

  /** st_rewrite_stack.  `ok` is false exactly where the library gives up: an unknown call site or
      function, no stack, too many frames, too large a stack.  Otherwise r really is the unwound
      source with its matched call sites, and the returned registers and memory hold the
      transformed stack, each frame holding the return address and the frame pointer of the next. */
  method StRewriteStack(hs: Handle, regsSrc: RegSet, memSrc: Memory, baseSrc: int,
                        hd: Handle, regsDest: RegSet, memDest: Memory, baseDest: int)
    returns (ok: bool, regs: RegSet, mem: Memory, leftOver: seq<Fixup>, ghost site: CallSite, ghost r: Run)
    requires MetadataOk(hs, hd)
    requires forall s | s in hs.sitesAddr && s.addr == hs.arch.addrOf(RegVal(regsSrc, hs.arch.pcReg)) ::
               SourceOk(hs, memSrc, FirstActivation(hs.arch, s, regsSrc))
    requires MAX_STACK_SIZE <= baseDest && baseDest + hd.arch.cfaOffsetFuncEntry < TWO_64
    ensures ok <==> Accepts(hs, regsSrc, memSrc, hd)
    ensures ok ==> site in hs.sitesAddr && site.addr == hs.arch.addrOf(RegVal(regsSrc, hs.arch.pcReg))
    ensures ok ==> r == Run(hs, memSrc, FirstActivation(hs.arch, site, regsSrc), hd, r.dest, r.sp, r.fn, r.n, r.c) && IsRun(r)
    ensures ok ==> RegVal(regs, hd.arch.pcReg) == hd.arch.wordOf(r.fn) && Encloses(hs, r.fn, site.addr)
    ensures ok ==> r.sp == EntrySp(hd.arch, baseDest - StackSize(r.dest, r.n))
    ensures ok ==> r.c.v.stack == hs.arch.addrOf(RegVal(regsSrc, hs.arch.spReg)) && r.c.v.base == baseSrc
    ensures ok ==> r.c.Ok() && Transformed(r.c, Store(mem, regs), leftOver)
  {
    hide SrcChain, SourceOk, Transformed, IsRun, Rewritable, StackSize;
    ok, regs, mem, leftOver := false, regsDest, memDest, [];
    r := Run(hs, memSrc, Activation(EMPTY_CALL_SITE, 0, regsSrc, {}), hd, [], 0, 0, 0, Job(View(hs, memSrc, 0, 0, []), Plan(hd.arch, [], 0), []));
    var src, s := InitSrcContext(hs, regsSrc, memSrc, baseSrc);
    site := s;
    if src == null || src.stack <= 0 {
      return;
    }
    var pc := hs.arch.addrOf(RegVal(regsSrc, hs.arch.pcReg));
    var found, fn := GetUnwindOffsetByAddr(hs.unwindAddrs, pc);
    if !found {
      return;
    }
    AcceptsIf(hs, regsSrc, memSrc, hd, site);
    ok, regs, mem, leftOver, r := RewriteInto(src, FirstActivation(hs.arch, site, regsSrc), hd, regsDest, memDest, baseDest, fn.addr);
  }

  lemma StackInRange(arch: Arch, base: int, size: nat, sp: int)
    requires ArchOk(arch) && MAX_STACK_SIZE <= base && base + arch.cfaOffsetFuncEntry < TWO_64
    requires size < MAX_STACK_SIZE / 2 && sp == EntrySp(arch, base - size)
    ensures 0 < sp && sp + arch.cfaOffsetFuncEntry + size < TWO_64 && arch.addrOf(arch.wordOf(sp)) == sp
  {
  }

  /** Where the destination stack ends: at the given base or below exactly when aligning the
      stack pointer makes room for what the call instruction has already pushed. */
  lemma LastCfaFits(r: Run, base: int)
    requires IsRun(r) && r.sp == EntrySp(r.hd.arch, base - StackSize(r.dest, r.n))
    ensures r.c.p.Cfa(r.n) <= base
            <==> EntrySp(r.hd.arch, base - StackSize(r.dest, r.n)) + r.hd.arch.cfaOffsetFuncEntry <= base - StackSize(r.dest, r.n)
  {
    CfaIsSum(r, r.n);
  }

  /** On x86-64 the stack ends above its base when it would start 8 bytes off a 16-byte
      boundary; on AArch64 it always fits. */
  lemma ArchesFit(sp: int)
    ensures EntrySp(X86_64, sp) + X86_64.cfaOffsetFuncEntry <= sp <==> sp % 16 != 8
    ensures EntrySp(AARCH64, sp) + AARCH64.cfaOffsetFuncEntry <= sp
    ensures ArchOk(X86_64) && ArchOk(AARCH64)
  {
    ArchesValid();
  }
}
