/** The destination stack as the transformation lays it out: where each frame lies, where
    each register is saved, and what an ordinary unwinder sees in it. */
module Frames {
  import opened Bytes
  import opened Machine

  // ---------- unwind records ----------

  predicate DistinctRegs(us: seq<UnwindLoc>) {
    forall i, j | 0 <= i < j < |us| :: us[i].reg != us[j].reg
  }

  /** The save slot of every register named by an unwind record, as an offset from the frame
      pointer. */
  function SaveMap(us: seq<UnwindLoc>): map<Reg, int> {
    if us == [] then map[] else SaveMap(us[..|us| - 1])[us[|us| - 1].reg := us[|us| - 1].offset]
  }

  predicate Apart(a: int, n: int, b: int, m: int) {
    a + n <= b || b + m <= a
  }

  // ---------- one frame ----------

  /** What the metadata of one call site says about its frame: return address, size, save
      slots (offsets from the frame pointer) and live-value records. */
  datatype Frame = Frame(addr: u64, size: nat, saves: map<Reg, int>, vs: seq<LiveValue>)

  /** Address of a live value kept in a frame's memory. */
  function LiveAddr(arch: Arch, size: nat, cfa: int, v: LiveValue): int {
    (if v.regnum == arch.fbpReg then cfa + arch.fbpFromCfa else cfa - size) + v.offsetOrConstant
  }

  function SaveAddr(arch: Arch, cfa: int, saves: map<Reg, int>, r: Reg): int
    requires r in saves
  {
    cfa + arch.fbpFromCfa + saves[r]
  }

  /** The frame pointer and the save slots lie inside the frame, the slots do not overlap, and
      two of them are the saved frame pointer and the return address. */
  ghost predicate SavesOk(arch: Arch, size: nat, saves: map<Reg, int>, cfa: int) {
    && (forall r, s | r in saves && s in saves && r != s ::
          Apart(SaveAddr(arch, cfa, saves, r), 8, SaveAddr(arch, cfa, saves, s), 8))
    && (forall r | r in saves ::
          cfa - size <= SaveAddr(arch, cfa, saves, r) && SaveAddr(arch, cfa, saves, r) + 8 <= cfa)
    && cfa - size <= cfa + arch.fbpFromCfa <= cfa
    && arch.spReg !in saves && (arch.hasRaReg ==> arch.pcReg !in saves)
    && arch.fbpReg in saves && SaveAddr(arch, cfa, saves, arch.fbpReg) == cfa + arch.savedFbpOffset
    && arch.RetReg() in saves && SaveAddr(arch, cfa, saves, arch.RetReg()) == cfa + arch.raOffset
  }

  /** Live values kept in memory are addressed from the stack or frame pointer, lie inside
      the frame and overlap no save slot. */
  ghost predicate MemLiveOk(arch: Arch, size: nat, saves: map<Reg, int>, cfa: int, v: LiveValue) {
    v.InMemory() ==>
      && (v.regnum == arch.fbpReg || v.regnum == arch.spReg)
      && cfa - size <= LiveAddr(arch, size, cfa, v)
      && LiveAddr(arch, size, cfa, v) + v.ValSize() <= cfa
      && forall r | r in saves ::
           Apart(SaveAddr(arch, cfa, saves, r), 8, LiveAddr(arch, size, cfa, v), v.ValSize())
  }

  /** A live value kept in a register fits it; if the register is callee-saved the function
      using it saves it. */
  ghost predicate RegLiveOk(arch: Arch, saves: map<Reg, int>, v: LiveValue) {
    v.kind.SmRegister? ==>
      && !arch.Special(v.regnum) && v.ValSize() <= 8
      && (v.regnum in arch.calleeSaved ==> v.regnum in saves)
  }

  /** Two live values of one site never share a location. */
  ghost predicate LiveApart(arch: Arch, size: nat, cfa: int, v: LiveValue, w: LiveValue) {
    && (v.kind.SmRegister? && w.kind.SmRegister? ==> v.regnum != w.regnum)
    && (v.InMemory() && w.InMemory() ==>
          Apart(LiveAddr(arch, size, cfa, v), v.ValSize(), LiveAddr(arch, size, cfa, w), w.ValSize()))
  }

  ghost predicate FrameOk(arch: Arch, f: Frame, cfa: int) {
    && SavesOk(arch, f.size, f.saves, cfa)
    && (forall j | 0 <= j < |f.vs| :: MemLiveOk(arch, f.size, f.saves, cfa, f.vs[j]) && RegLiveOk(arch, f.saves, f.vs[j]))
    && (forall i, j | 0 <= i < |f.vs| && 0 <= j < |f.vs| && i != j :: LiveApart(arch, f.size, cfa, f.vs[i], f.vs[j]))
  }

  /** An x86-64 frame of 32 bytes that saves rbx: wherever it lies, the return address, the saved
      frame pointer, the saved rbx and one variable fit it. */
  lemma FrameExample(addr: u64, cfa: int)
    ensures var variable := LiveValue(false, false, false, SmDirect, 8, 6, -8, 0);
            var inRbx := LiveValue(false, false, true, SmRegister, 8, 3, 0, 0);
            FrameOk(X86_64, Frame(addr, 32, map[16 := 8, 6 := 0, 3 := -16], [variable, inRbx]), cfa)
  {
  }

  // ---------- the whole destination stack ----------

  /** Where a value of an activation is found by unwinding: in memory, or in the register set
      of the outermost activation. */
  datatype Place = InMem(addr: int) | InReg(reg: Reg)

  datatype Store = Store(mem: Memory, regs: RegSet)
  {
    function Read(p: Place, n: nat): (bs: seq<byte>)
      requires p.InReg? ==> n <= 8
      ensures |bs| == n
    {
      match p
      case InMem(a) => ReadBytes(mem, a, n)
      case InReg(r) => RegVal(regs, r)[..n]
    }

    function Write(p: Place, bs: seq<byte>): Store
      requires p.InReg? ==> |bs| <= 8
    {
      match p
      case InMem(a) => this.(mem := WriteBytes(mem, a, bs))
      case InReg(r) => this.(regs := regs[r := bs + RegVal(regs, r)[|bs|..]])
    }
  }

  predicate PlacesApart(p: Place, n: nat, q: Place, m: nat) {
    match (p, q)
    case (InMem(a), InMem(b)) => Apart(a, n, b, m)
    case (InReg(r), InReg(s)) => r != s
    case _ => true
  }

  lemma ReadWritten(s: Store, p: Place, bs: seq<byte>)
    requires p.InReg? ==> |bs| <= 8
    ensures s.Write(p, bs).Read(p, |bs|) == bs
  {
    if p.InMem? {
      ReadOwnWrite(s.mem, p.addr, bs);
    }
  }

  lemma ReadUnwritten(s: Store, p: Place, bs: seq<byte>, q: Place, n: nat)
    requires p.InReg? ==> |bs| <= 8
    requires q.InReg? ==> n <= 8
    requires PlacesApart(p, |bs|, q, n)
    ensures s.Write(p, bs).Read(q, n) == s.Read(q, n)
  {
    if p.InMem? && q.InMem? {
      ReadOtherWrite(s.mem, p.addr, bs, q.addr, n);
    }
  }

  /** The planned destination stack: `frames[0]` stands for the function being entered, whose
      frame does not exist yet; frame k > 0 starts where frame k-1 ends. */
  datatype Plan = Plan(arch: Arch, frames: seq<Frame>, cfa0: int)
  {
    function Cfa(k: nat): int
      requires k < |frames|
    {
      if k == 0 then cfa0 else Cfa(k - 1) + frames[k].size
    }

    function Sp(k: nat): int
      requires 0 < k < |frames|
    {
      Cfa(k - 1)
    }

    function Fbp(k: nat): int
      requires k < |frames|
    {
      Cfa(k) + arch.fbpFromCfa
    }

    predicate Saves(k: nat, r: Reg)
      requires k < |frames|
    {
      r in frames[k].saves
    }

    function SaveSlot(k: nat, r: Reg): int
      requires k < |frames| && Saves(k, r)
    {
      SaveAddr(arch, Cfa(k), frames[k].saves, r)
    }

    /** Where frame k's value of register r lives: the slot of the nearest inner frame that
        saves r, or the outermost register set when none does. */
    function RegPlace(r: Reg, k: nat): Place
      requires k < |frames|
    {
      if k == 0 then InReg(r)
      else if Saves(k - 1, r) then InMem(SaveSlot(k - 1, r))
      else RegPlace(r, k - 1)
    }

    function AddrOf(k: nat, v: LiveValue): int
      requires k < |frames|
    {
      LiveAddr(arch, frames[k].size, Cfa(k), v)
    }

    /** Values an unwinder can see: those in memory and those in callee-saved registers. */
    predicate Homed(v: LiveValue) {
      v.InMemory() || (v.kind.SmRegister? && v.regnum in arch.calleeSaved)
    }

    function Home(k: nat, v: LiveValue): Place
      requires k < |frames|
    {
      if v.InMemory() then InMem(AddrOf(k, v)) else RegPlace(v.regnum, k)
    }

    function RaSlot(k: nat): int
      requires k < |frames|
    {
      Cfa(k) + arch.raOffset
    }

    function FbpSlot(k: nat): int
      requires k < |frames|
    {
      Cfa(k) + arch.savedFbpOffset
    }

    /** Frames 1 up to but excluding the last (the start function) are well formed. */
    ghost predicate Ok() {
      && arch.Valid() && 2 <= |frames| && frames[0].saves == map[]
      && forall k {:trigger FrameOk(arch, frames[k], Cfa(k))} | 1 <= k < |frames| - 1 :: FrameOk(arch, frames[k], Cfa(k))
    }
  }

  lemma {:induction false} CfaMonotonic(p: Plan, i: nat, j: nat)
    requires i <= j < |p.frames|
    ensures p.Cfa(i) <= p.Cfa(j)
  {
    if i < j {
      CfaMonotonic(p, i, j - 1);
    }
  }

  /** Frames do not overlap: what lies inside frame j and what lies inside frame k > j are apart. */
  lemma FramesApart(p: Plan, j: nat, a: int, n: nat, k: nat, b: int, m: nat)
    requires j < k < |p.frames|
    requires a + n <= p.Cfa(j) && p.Sp(k) <= b
    ensures Apart(a, n, b, m)
  {
    CfaMonotonic(p, j, k - 1);
  }

  /** A register place is a save slot of some inner frame, or the outermost register. */
  lemma {:induction false} RegPlaceCases(p: Plan, r: Reg, k: nat) returns (j: nat)
    requires k < |p.frames| && p.frames[0].saves == map[]
    ensures p.RegPlace(r, k).InReg? ==> p.RegPlace(r, k) == InReg(r) && forall i | 0 <= i < k :: !p.Saves(i, r)
    ensures p.RegPlace(r, k).InMem? ==>
              && 1 <= j < k && p.Saves(j, r) && p.RegPlace(r, k) == InMem(p.SaveSlot(j, r))
              && forall i | j < i < k :: !p.Saves(i, r)
  {
    if k == 0 {
      j := 0;
    } else if p.Saves(k - 1, r) {
      j := k - 1;
      assert p.frames[0].saves == map[];
    } else {
      j := RegPlaceCases(p, r, k - 1);
    }
  }

  // ---------- separation ----------

  lemma SaveSlotInside(p: Plan, k: nat, r: Reg)
    requires p.Ok() && 1 <= k < |p.frames| - 1 && p.Saves(k, r)
    ensures p.Sp(k) <= p.SaveSlot(k, r) && p.SaveSlot(k, r) + 8 <= p.Cfa(k)
  {
    assert FrameOk(p.arch, p.frames[k], p.Cfa(k));
  }

  lemma LiveInside(p: Plan, k: nat, i: nat)
    requires p.Ok() && 1 <= k < |p.frames| - 1 && i < |p.frames[k].vs| && p.frames[k].vs[i].InMemory()
    ensures p.Sp(k) <= p.AddrOf(k, p.frames[k].vs[i])
    ensures p.AddrOf(k, p.frames[k].vs[i]) + p.frames[k].vs[i].ValSize() <= p.Cfa(k)
  {
    assert FrameOk(p.arch, p.frames[k], p.Cfa(k));
    assert MemLiveOk(p.arch, p.frames[k].size, p.frames[k].saves, p.Cfa(k), p.frames[k].vs[i]);
  }

  lemma SaveSlotsApart(p: Plan, j: nat, r: Reg, k: nat, s: Reg)
    requires p.Ok() && 1 <= j < |p.frames| - 1 && 1 <= k < |p.frames| - 1
    requires p.Saves(j, r) && p.Saves(k, s) && (j != k || r != s)
    ensures Apart(p.SaveSlot(j, r), 8, p.SaveSlot(k, s), 8)
  {
    SaveSlotInside(p, j, r);
    SaveSlotInside(p, k, s);
    if j < k {
      FramesApart(p, j, p.SaveSlot(j, r), 8, k, p.SaveSlot(k, s), 8);
    } else if k < j {
      FramesApart(p, k, p.SaveSlot(k, s), 8, j, p.SaveSlot(j, r), 8);
    } else {
      assert FrameOk(p.arch, p.frames[k], p.Cfa(k));
    }
  }

  lemma SaveSlotLiveApart(p: Plan, j: nat, r: Reg, k: nat, i: nat)
    requires p.Ok() && 1 <= j < |p.frames| - 1 && 1 <= k < |p.frames| - 1
    requires p.Saves(j, r) && i < |p.frames[k].vs| && p.frames[k].vs[i].InMemory()
    ensures Apart(p.SaveSlot(j, r), 8, p.AddrOf(k, p.frames[k].vs[i]), p.frames[k].vs[i].ValSize())
  {
    var a, n := p.AddrOf(k, p.frames[k].vs[i]), p.frames[k].vs[i].ValSize();
    SaveSlotInside(p, j, r);
    LiveInside(p, k, i);
    if j < k {
      FramesApart(p, j, p.SaveSlot(j, r), 8, k, a, n);
    } else if k < j {
      FramesApart(p, k, a, n, j, p.SaveSlot(j, r), 8);
    } else {
      assert FrameOk(p.arch, p.frames[k], p.Cfa(k));
      assert MemLiveOk(p.arch, p.frames[k].size, p.frames[k].saves, p.Cfa(k), p.frames[k].vs[i]);
    }
  }

  lemma LivesApart(p: Plan, k: nat, i: nat, l: nat, j: nat)
    requires p.Ok() && 1 <= k < |p.frames| - 1 && 1 <= l < |p.frames| - 1 && (k != l || i != j)
    requires i < |p.frames[k].vs| && p.frames[k].vs[i].InMemory() && j < |p.frames[l].vs| && p.frames[l].vs[j].InMemory()
    ensures Apart(p.AddrOf(k, p.frames[k].vs[i]), p.frames[k].vs[i].ValSize(),
                  p.AddrOf(l, p.frames[l].vs[j]), p.frames[l].vs[j].ValSize())
  {
    LiveInside(p, k, i);
    LiveInside(p, l, j);
    var a, n := p.AddrOf(k, p.frames[k].vs[i]), p.frames[k].vs[i].ValSize();
    var b, m := p.AddrOf(l, p.frames[l].vs[j]), p.frames[l].vs[j].ValSize();
    if k < l {
      FramesApart(p, k, a, n, l, b, m);
    } else if l < k {
      FramesApart(p, l, b, m, k, a, n);
    } else {
      assert FrameOk(p.arch, p.frames[k], p.Cfa(k));
      assert LiveApart(p.arch, p.frames[k].size, p.Cfa(k), p.frames[k].vs[i], p.frames[k].vs[j]);
    }
  }

  /** Two frames that both keep a live value in register r never share a place for it. */
  lemma RegPlacesApart(p: Plan, r: Reg, k: nat, s: Reg, l: nat)
    requires p.Ok() && k < |p.frames| - 1 && l < |p.frames| - 1
    requires r != s || (k < l && p.Saves(k, r))
    ensures PlacesApart(p.RegPlace(r, k), 8, p.RegPlace(s, l), 8)
  {
    var i := RegPlaceCases(p, r, k);
    var j := RegPlaceCases(p, s, l);
    if p.RegPlace(r, k).InMem? && p.RegPlace(s, l).InMem? {
      SaveSlotsApart(p, i, r, j, s);
    }
  }

  /** No two live values of the rewritten frames share a place: writing one never disturbs
      another, whichever frames they belong to. */
  lemma HomesApart(p: Plan, k: nat, i: nat, l: nat, j: nat)
    requires p.Ok() && 1 <= k <= l < |p.frames| - 1 && (k != l || i != j)
    requires i < |p.frames[k].vs| && p.Homed(p.frames[k].vs[i]) && j < |p.frames[l].vs| && p.Homed(p.frames[l].vs[j])
    ensures PlacesApart(p.Home(k, p.frames[k].vs[i]), p.frames[k].vs[i].ValSize(),
                        p.Home(l, p.frames[l].vs[j]), p.frames[l].vs[j].ValSize())
  {
    var v, w := p.frames[k].vs[i], p.frames[l].vs[j];
    assert FrameOk(p.arch, p.frames[k], p.Cfa(k)) && FrameOk(p.arch, p.frames[l], p.Cfa(l));
    assert RegLiveOk(p.arch, p.frames[k].saves, v) && RegLiveOk(p.arch, p.frames[l].saves, w);
    if v.InMemory() && w.InMemory() {
      LivesApart(p, k, i, l, j);
    } else if v.InMemory() {
      var s := RegPlaceCases(p, w.regnum, l);
      if p.RegPlace(w.regnum, l).InMem? {
        SaveSlotLiveApart(p, s, w.regnum, k, i);
      }
    } else if w.InMemory() {
      var s := RegPlaceCases(p, v.regnum, k);
      if p.RegPlace(v.regnum, k).InMem? {
        SaveSlotLiveApart(p, s, v.regnum, l, j);
      }
    } else {
      assert k == l ==> LiveApart(p.arch, p.frames[k].size, p.Cfa(k), v, w);
      RegPlacesApart(p, v.regnum, k, w.regnum, l);
    }
  }

  /** A live value never overlaps a save slot of a register that unwinding sets up itself. */
  lemma HomeSlotApart(p: Plan, k: nat, i: nat, l: nat, r: Reg)
    requires p.Ok() && 1 <= k < |p.frames| - 1 && 1 <= l < |p.frames| - 1
    requires i < |p.frames[k].vs| && p.Homed(p.frames[k].vs[i]) && p.arch.Special(r) && p.Saves(l, r)
    ensures PlacesApart(p.Home(k, p.frames[k].vs[i]), p.frames[k].vs[i].ValSize(), InMem(p.SaveSlot(l, r)), 8)
  {
    var v := p.frames[k].vs[i];
    assert FrameOk(p.arch, p.frames[k], p.Cfa(k));
    assert RegLiveOk(p.arch, p.frames[k].saves, v);
    if v.InMemory() {
      SaveSlotLiveApart(p, l, r, k, i);
    } else {
      var j := RegPlaceCases(p, v.regnum, k);
      if p.RegPlace(v.regnum, k).InMem? {
        SaveSlotsApart(p, j, v.regnum, l, r);
      }
    }
  }

  /** Everything in frames 1 and up lies above the entered function's return-address slot. */
  lemma HomeAboveEntry(p: Plan, k: nat, i: nat)
    requires p.Ok() && 1 <= k < |p.frames| - 1 && i < |p.frames[k].vs| && p.Homed(p.frames[k].vs[i])
    requires p.arch.raOffset + 8 <= 0
    ensures PlacesApart(p.Home(k, p.frames[k].vs[i]), p.frames[k].vs[i].ValSize(), InMem(p.RaSlot(0)), 8)
  {
    var v := p.frames[k].vs[i];
    if v.InMemory() {
      LiveInside(p, k, i);
      CfaMonotonic(p, 0, k - 1);
    } else {
      var j := RegPlaceCases(p, v.regnum, k);
      if p.RegPlace(v.regnum, k).InMem? {
        SaveSlotInside(p, j, v.regnum);
        CfaMonotonic(p, 0, j - 1);
        assert FrameOk(p.arch, p.frames[k], p.Cfa(k));
        assert RegLiveOk(p.arch, p.frames[k].saves, v);
      }
    }
  }

  /** The saved frame pointer and the return address are two of the save slots. */
  lemma LinkSlots(p: Plan, k: nat)
    requires p.Ok() && 1 <= k < |p.frames| - 1
    ensures p.Saves(k, p.arch.fbpReg) && p.FbpSlot(k) == p.SaveSlot(k, p.arch.fbpReg)
    ensures p.Saves(k, p.arch.RetReg()) && p.RaSlot(k) == p.SaveSlot(k, p.arch.RetReg())
  {
    assert FrameOk(p.arch, p.frames[k], p.Cfa(k));
  }

  /** A frame's return address and saved frame pointer lie in that frame, apart from each other,
      and no live value of any frame overlaps them. */
  lemma LinkSlotsApart(p: Plan, k: nat, l: nat, i: nat)
    requires p.Ok() && 1 <= k < |p.frames| - 1
    ensures p.Sp(k) <= p.RaSlot(k) && p.RaSlot(k) + 8 <= p.Cfa(k)
    ensures p.Sp(k) <= p.FbpSlot(k) && p.FbpSlot(k) + 8 <= p.Cfa(k)
    ensures Apart(p.RaSlot(k), 8, p.FbpSlot(k), 8)
    ensures 1 <= l < |p.frames| - 1 && i < |p.frames[l].vs| && p.Homed(p.frames[l].vs[i]) ==>
              && PlacesApart(p.Home(l, p.frames[l].vs[i]), p.frames[l].vs[i].ValSize(), InMem(p.RaSlot(k)), 8)
              && PlacesApart(p.Home(l, p.frames[l].vs[i]), p.frames[l].vs[i].ValSize(), InMem(p.FbpSlot(k)), 8)
  {
    var f, r := p.arch.fbpReg, p.arch.RetReg();
    LinkSlots(p, k);
    SaveSlotInside(p, k, f);
    SaveSlotInside(p, k, r);
    SaveSlotsApart(p, k, r, k, f);
    if 1 <= l < |p.frames| - 1 && i < |p.frames[l].vs| && p.Homed(p.frames[l].vs[i]) {
      HomeSlotApart(p, l, i, k, f);
      HomeSlotApart(p, l, i, k, r);
    }
  }

  // ---------- what an ordinary unwinder sees ----------

  /** pop_frame without bounds: restore the callee-saved registers from the slots below the
      frame pointer, move the return-address register to the program counter, and set the
      stack pointer to the popped frame's CFA. */
  function Popped(arch: Arch, mem: Memory, regs: RegSet, saves: map<Reg, int>, cfa: int): RegSet {
    var fbp := arch.addrOf(RegVal(regs, arch.fbpReg));
    var r1 := regs + Restored(mem, fbp, saves);
    var r2 := if arch.hasRaReg then r1[arch.pcReg := RegVal(r1, arch.raReg)] else r1;
    r2[arch.spReg := arch.wordOf(cfa)]
  }

  function Restored(mem: Memory, fbp: int, saves: map<Reg, int>): RegSet {
    map r | r in saves :: ReadBytes(mem, fbp + saves[r], 8)
  }

  /** Leaving a function that has only just been entered: nothing but the return address and
      the stack pointer changes. */
  function EntryPopped(arch: Arch, mem: Memory, regs: RegSet): RegSet {
    var sp := arch.addrOf(RegVal(regs, arch.spReg));
    var pc := if arch.hasRaReg then RegVal(regs, arch.raReg) else ReadBytes(mem, sp, 8);
    regs[arch.pcReg := pc][arch.spReg := arch.wordOf(sp + arch.cfaOffsetFuncEntry)]
  }

  /** The registers an ordinary unwinder computes for activation k from a stack memory and an
      outermost register set, given only the call sites. */
  function Unwound(p: Plan, s: Store, k: nat): RegSet
    requires k < |p.frames|
  {
    if k == 0 then s.regs
    else if k == 1 then EntryPopped(p.arch, s.mem, s.regs)
    else
      var inner := Unwound(p, s, k - 1);
      Popped(p.arch, s.mem, inner, p.frames[k - 1].saves,
             p.arch.addrOf(RegVal(inner, p.arch.spReg)) + p.frames[k - 1].size)
  }

  /** The program counter is at the entered function, which returns to the first call site with its
      caller's frame pointer. */
  ghost predicate EntryLinked(p: Plan, s: Store)
    requires 2 <= |p.frames|
  {
    && RegVal(s.regs, p.arch.spReg) == p.arch.wordOf(p.cfa0 - p.arch.cfaOffsetFuncEntry)
    && RegVal(s.regs, p.arch.fbpReg) == p.arch.wordOf(p.Fbp(1))
    && RegVal(s.regs, p.arch.pcReg) == p.arch.wordOf(p.frames[0].addr)
    && p.arch.wordOf(p.frames[1].addr)
       == (if p.arch.hasRaReg then RegVal(s.regs, p.arch.raReg) else ReadBytes(s.mem, p.RaSlot(0), 8))
  }

  /** Frame k returns to call site k+1, and holds that frame's frame pointer. */
  ghost predicate LinkAt(p: Plan, s: Store, k: nat)
    requires k + 1 < |p.frames|
  {
    && ReadBytes(s.mem, p.RaSlot(k), 8) == p.arch.wordOf(p.frames[k + 1].addr)
    && ReadBytes(s.mem, p.FbpSlot(k), 8) == p.arch.wordOf(p.Fbp(k + 1))
  }

  /** The chain of return addresses and frame pointers up to activation n. */
  ghost predicate Linked(p: Plan, s: Store, n: nat)
    requires 1 <= n < |p.frames|
  {
    EntryLinked(p, s) && forall k {:trigger LinkAt(p, s, k)} | 1 <= k < n :: LinkAt(p, s, k)
  }

  ghost predicate InRange(p: Plan)
    requires |p.frames| > 0
  {
    0 < p.cfa0 - p.arch.cfaOffsetFuncEntry && p.Cfa(|p.frames| - 1) < TWO_64
  }

  lemma CfaInRange(p: Plan, k: nat)
    requires k < |p.frames| && InRange(p) && 0 <= p.arch.cfaOffsetFuncEntry
    ensures 0 < p.Cfa(k) < TWO_64
  {
    CfaMonotonic(p, 0, k);
    CfaMonotonic(p, k, |p.frames| - 1);
  }

  /** In activation k these registers are right: the planned stack pointer, frame pointer and
      program counter, and register r read from exactly the place `RegPlace` names. */
  ghost predicate Sees(p: Plan, s: Store, k: nat, regs: RegSet, r: Reg)
    requires 1 <= k < |p.frames|
  {
    && RegVal(regs, p.arch.spReg) == p.arch.wordOf(p.Sp(k))
    && RegVal(regs, p.arch.fbpReg) == p.arch.wordOf(p.Fbp(k))
    && RegVal(regs, p.arch.pcReg) == p.arch.wordOf(p.frames[k].addr)
    && (!p.arch.Special(r) ==> RegVal(regs, r) == s.Read(p.RegPlace(r, k), 8))
  }

  /** An ordinary unwinder follows the chain through every activation. */
  lemma {:induction false} UnwinderSees(p: Plan, s: Store, k: nat, r: Reg)
    requires p.Ok() && InRange(p) && 1 <= k < |p.frames| && Linked(p, s, |p.frames| - 1)
    ensures Sees(p, s, k, Unwound(p, s, k), r)
  {
    hide Popped, EntryPopped, Sees, FrameOk, InRange, Plan.RegPlace;
    if k == 1 {
      EntrySees(p, s, r);
    } else {
      UnwinderSees(p, s, k - 1, r);
      PopSees(p, s, k, Unwound(p, s, k - 1), r);
    }
  }

  lemma EntrySees(p: Plan, s: Store, r: Reg)
    requires p.Ok() && InRange(p) && Linked(p, s, |p.frames| - 1)
    ensures Sees(p, s, 1, Unwound(p, s, 1), r)
  {
    CfaInRange(p, 0);
    assert p.RegPlace(r, 1) == p.RegPlace(r, 0) == InReg(r);
  }

  lemma PopSees(p: Plan, s: Store, k: nat, inner: RegSet, r: Reg)
    requires p.Ok() && InRange(p) && 2 <= k < |p.frames|
    requires LinkAt(p, s, k - 1) && Sees(p, s, k - 1, inner, r)
    ensures Sees(p, s, k, Popped(p.arch, s.mem, inner, p.frames[k - 1].saves,
                                 p.arch.addrOf(RegVal(inner, p.arch.spReg)) + p.frames[k - 1].size), r)
  {
    CfaInRange(p, k - 2);
    LinkSlots(p, k - 1);
    FbpInRange(p, k - 1);
    PoppedReads(p.arch, s.mem, inner, p.frames[k - 1].saves, p.Cfa(k - 1), r);
  }

  /** What popping one frame reads: the slots that frame's records name, everything else
      from the frame below. */
  lemma PoppedReads(arch: Arch, mem: Memory, inner: RegSet, saves: map<Reg, int>, cfa: int, r: Reg)
    requires arch.Valid() && arch.addrOf(RegVal(inner, arch.fbpReg)) == cfa + arch.fbpFromCfa
    requires arch.fbpReg in saves && arch.RetReg() in saves
    ensures RegVal(Popped(arch, mem, inner, saves, cfa), arch.spReg) == arch.wordOf(cfa)
    ensures RegVal(Popped(arch, mem, inner, saves, cfa), arch.fbpReg)
         == ReadBytes(mem, SaveAddr(arch, cfa, saves, arch.fbpReg), 8)
    ensures RegVal(Popped(arch, mem, inner, saves, cfa), arch.pcReg)
         == ReadBytes(mem, SaveAddr(arch, cfa, saves, arch.RetReg()), 8)
    ensures !arch.Special(r) && r in saves ==>
              RegVal(Popped(arch, mem, inner, saves, cfa), r) == ReadBytes(mem, SaveAddr(arch, cfa, saves, r), 8)
    ensures !arch.Special(r) && r !in saves ==> RegVal(Popped(arch, mem, inner, saves, cfa), r) == RegVal(inner, r)
  {
  }

  lemma FbpInRange(p: Plan, k: nat)
    requires p.Ok() && InRange(p) && 1 <= k < |p.frames| - 1
    ensures 0 <= p.Fbp(k) < TWO_64
  {
    CfaInRange(p, k);
    CfaInRange(p, k - 1);
    assert FrameOk(p.arch, p.frames[k], p.Cfa(k));
  }
}
