/** What a rewritten stack has to look like, stated over values: the unwound source stack, the
    planned destination stack, and the fixups still waiting for their target. */
module Transform {
  import opened Bytes
  import opened Machine
  import opened Frames
  import opened Pairing

  /** The unwound source stack. */
  datatype View = View(h: Handle, mem: Memory, stack: int, base: int, acts: seq<Activation>)

  /** Address of a value kept in memory, as get_val_loc computes it from the activation's registers. */
  function BasedAddr(arch: Arch, regs: RegSet, v: LiveValue): int {
    arch.addrOf(RegVal(regs, v.regnum)) + v.offsetOrConstant
  }

  /** In a state with this memory, and these registers of the value's activation, the value is bs:
      the low-order bytes of its register, or what memory holds from its register plus its offset
      on, or what its record holds. */
  predicate ReadsAs(arch: Arch, mem: Memory, regs: RegSet, v: LiveValue, bs: seq<byte>) {
    && |bs| == (if v.isAlloca then v.allocaSize else v.size)
    && match v.kind
       case SmRegister => |bs| <= 8 && forall i | 0 <= i < |bs| :: bs[i] == RegVal(regs, v.regnum)[i]
       case SmConstant => |bs| <= 8 && forall i | 0 <= i < |bs| :: bs[i] == ConstantBytes(v)[i]
       case SmConstIdx => false
       case _ => forall i | 0 <= i < |bs| :: bs[i] == At(mem, arch.addrOf(RegVal(regs, v.regnum)) + v.offsetOrConstant + i)
  }

  /** The bytes of a source value.  A constant is copied from its record: its four bytes are
      followed there by those of the alloca size. */
  function SourceBytes(arch: Arch, mem: Memory, regs: RegSet, v: LiveValue): (bs: seq<byte>)
    requires v.kind.SmRegister? || v.kind.SmConstant? ==> v.ValSize() <= 8
    ensures |bs| == v.ValSize() || v.kind.SmConstIdx?
  {
    match v.kind
    case SmRegister => RegVal(regs, v.regnum)[..v.ValSize()]
    case SmDirect => ReadBytes(mem, BasedAddr(arch, regs, v), v.ValSize())
    case SmIndirect => ReadBytes(mem, BasedAddr(arch, regs, v), v.ValSize())
    case SmConstant => ConstantBytes(v)[..v.ValSize()]
    case SmConstIdx => []
  }

  /** A value reads as its source bytes, and as nothing else. */
  lemma SourceReads(arch: Arch, mem: Memory, regs: RegSet, v: LiveValue, bs: seq<byte>)
    requires v.kind.SmRegister? || v.kind.SmConstant? ==> v.ValSize() <= 8
    requires !v.kind.SmConstIdx?
    ensures ReadsAs(arch, mem, regs, v, bs) <==> bs == SourceBytes(arch, mem, regs, v)
  {
    var own := SourceBytes(arch, mem, regs, v);
    if ReadsAs(arch, mem, regs, v, bs) {
      forall i | 0 <= i < |bs|
        ensures bs[i] == own[i]
      {
      }
    }
  }

  function ConstantBytes(v: LiveValue): (bs: seq<byte>)
    ensures |bs| == 8
  {
    Digits(v.offsetOrConstant, 4) + Digits(v.allocaSize, 4)
  }

  lemma {:induction false} DigitsSplit(v: int, n: nat, m: nat)
    ensures Digits(v, n + m) == Digits(v, n) + Digits(Shifted(v, n), m)
    decreases n
  {
    if n > 0 {
      DigitsSplit(v / 0x100, n - 1, m);
      assert Digits(v, n + m) == [v % 0x100] + Digits(v / 0x100, n - 1 + m);
    }
  }

  /** v without its n low-order bytes. */
  function Shifted(v: int, n: nat): int
    decreases n
  {
    if n == 0 then v else Shifted(v / 0x100, n - 1)
  }

  /** The record's constant reads as its sign-extended value up to four bytes, and beyond them
      exactly if the alloca size that follows it happens to hold its sign. */
  lemma ConstantMeaning(v: LiveValue, n: nat)
    requires n <= 8
    ensures n <= 4 ==> ConstantBytes(v)[..n] == Digits(v.offsetOrConstant, 8)[..n]
    ensures ConstantBytes(v) == Digits(v.offsetOrConstant, 8)
            <==> v.allocaSize == (if v.offsetOrConstant >= 0 then 0 else TWO_32 - 1)
  {
    var sign: u32 := if v.offsetOrConstant >= 0 then 0 else TWO_32 - 1;
    FourBytes();
    DigitsSplit(v.offsetOrConstant, 4, 4);
    SignDigits(v.offsetOrConstant, sign);
    assert Digits(v.offsetOrConstant, 8) == Digits(v.offsetOrConstant, 4) + Digits(sign, 4);
    NumberOfDigits(v.allocaSize, 4);
    NumberOfDigits(sign, 4);
    if ConstantBytes(v) == Digits(v.offsetOrConstant, 8) {
      assert Digits(v.allocaSize, 4) == ConstantBytes(v)[4..] == Digits(sign, 4);
    }
  }

  lemma FourBytes()
    ensures Pow256(4) == TWO_32
  {
    assert Pow256(4) == 0x100 * (0x100 * Pow256(2));
  }

  lemma SignDigits(v: i32, sign: u32)
    requires sign == if v >= 0 then 0 else TWO_32 - 1
    ensures Digits(Shifted(v, 4), 4) == Digits(sign, 4)
  {
    assert Shifted(v, 4) == Shifted(v / 0x100 / 0x100, 2) == v / 0x100 / 0x100 / 0x100 / 0x100;
    FourBytes();
    if v < 0 {
      AllOnes(-1, 4);
      AllOnes(sign, 4);
    }
  }

  /** -1 and the largest number of n bytes have the same n digits. */
  lemma {:induction false} AllOnes(v: int, n: nat)
    requires v == -1 || v == Pow256(n) - 1
    ensures Digits(v, n) == seq(n, i => 0xff as byte)
    decreases n
  {
    if n > 0 {
      var p := Pow256(n - 1);
      assert v % 0x100 == 0xff && (v / 0x100 == -1 || v / 0x100 == p - 1);
      AllOnes(v / 0x100, n - 1);
    }
  }

  /** points_to_stack: the stack address a pointer value holds, 0 when it is no pointer or
      points elsewhere. */
  function StackTarget(arch: Arch, mem: Memory, regs: RegSet, stack: int, base: int, v: LiveValue): int {
    if !v.isPtr || v.isAlloca then 0
    else
      var a := if v.kind.SmRegister? then arch.addrOf(RegVal(regs, v.regnum))
               else arch.addrOf(ReadBytes(mem, BasedAddr(arch, regs, v), 8));
      if a < stack || base <= a then 0 else a
  }

  /** The stack address that a pointer holds: the address that its eight bytes make, if it lies in
      the stack. */
  lemma TargetIs(arch: Arch, mem: Memory, regs: RegSet, stack: int, base: int, v: LiveValue, bs: seq<byte>)
    requires ReadsAs(arch, mem, regs, v, bs)
    requires v.isPtr && !v.isAlloca ==> (v.kind.SmRegister? || v.kind.SmIndirect?) && |bs| == 8
    ensures StackTarget(arch, mem, regs, stack, base, v)
            == if v.isPtr && !v.isAlloca && stack <= arch.addrOf(bs) < base then arch.addrOf(bs) else 0
  {
    if v.isPtr && !v.isAlloca {
      SourceReads(arch, mem, regs, v, bs);
      assert RegVal(regs, v.regnum)[..8] == RegVal(regs, v.regnum);
    }
  }

  /** One transformation: source view, destination plan, and where each destination call site's
      records start in the live-value table. */
  datatype Job = Job(v: View, p: Plan, offs: seq<nat>)
  {
    ghost predicate Shape() {
      && |offs| == |p.frames| && 2 <= |p.frames| <= |v.acts|
      && forall f | 0 <= f < |p.frames| :: v.h.SiteInTables(v.acts[f].site)
    }

    /** Frames that get rewritten: all but the entered function and the start function. */
    predicate Rewritten(f: int) {
      1 <= f < |p.frames| - 1
    }

    predicate Record(f: int, j: int) {
      Rewritten(f) && 0 <= j < |p.frames[f].vs|
    }

    function Dest(f: nat, j: nat): LiveValue
      requires Record(f, j)
    {
      p.frames[f].vs[j]
    }

    ghost function SrcLive(f: nat): seq<LiveValue>
      requires Shape() && f < |p.frames|
    {
      v.h.Live(v.acts[f].site)
    }

    /** Source and destination sites of every rewritten frame are paired, and the source stack
        is well formed: frames follow each other upwards and the allocas of a frame lie inside
        it, apart from each other. */
    ghost predicate Ok() {
      && Shape() && p.Ok() && InRange(p) && v.h.arch.Valid() && 0 < v.stack
      && p.arch.raOffset + 8 <= 0
      && forall f {:trigger FramePaired(f)} | Rewritten(f) :: FramePaired(f)
    }

    ghost predicate FramePaired(f: nat)
      requires Shape() && Rewritten(f)
    {
      && PairOk(SrcLive(f), p.frames[f].vs)
      && v.acts[f - 1].cfa <= v.acts[f].cfa
      && (forall i {:trigger SrcLive(f)[i]} | 0 <= i < |SrcLive(f)| && SrcLive(f)[i].isAlloca ::
            v.acts[f - 1].cfa <= SrcAddr(f, i) && SrcAddr(f, i) + SrcLive(f)[i].ValSize() <= v.acts[f].cfa)
      && (forall i, j | 0 <= i < j < |SrcLive(f)| && SrcLive(f)[i].isAlloca && SrcLive(f)[j].isAlloca ::
            Apart(SrcAddr(f, i), SrcLive(f)[i].ValSize(), SrcAddr(f, j), SrcLive(f)[j].ValSize()))
    }

    ghost function SrcAddr(f: nat, i: nat): int
      requires Shape() && f < |p.frames| && i < |SrcLive(f)|
    {
      BasedAddr(v.h.arch, v.acts[f].regs, SrcLive(f)[i])
    }

    /** Index of the source record that fills destination record j of frame f. */
    ghost function SrcIndex(f: nat, j: nat): (i: nat)
      requires Ok() && Record(f, j)
      ensures i < |SrcLive(f)| && TypesOk(SrcLive(f)[i], Dest(f, j))
    {
      assert FramePaired(f);
      var _ := p.frames[f].vs[j];
      Head(SrcLive(f), p.frames[f].vs, j)
    }

    ghost function Src(f: nat, j: nat): LiveValue
      requires Ok() && Record(f, j)
    {
      SrcLive(f)[SrcIndex(f, j)]
    }

    /** The stack address that record j of frame f holds in the source, 0 if none. */
    ghost function Target(f: nat, j: nat): int
      requires Ok() && Record(f, j)
    {
      StackTarget(v.h.arch, v.mem, v.acts[f].regs, v.stack, v.base, Src(f, j))
    }

    /** Pointers into a called function's frame are garbage and not translated. */
    ghost predicate Pointer(f: nat, j: nat)
      requires Ok() && Record(f, j)
    {
      Target(f, j) != 0 && v.acts[f - 1].cfa <= Target(f, j)
    }

    ghost function FixupOf(f: nat, j: nat): Fixup
      requires Ok() && Record(f, j)
    {
      Fixup(Target(f, j), f, offs[f] + j)
    }

    /** Source address a lies inside the stack allocation that record j of frame f describes. */
    ghost predicate InAlloca(f: int, j: int, a: int)
      requires Ok()
    {
      && Record(f, j) && Dest(f, j).isAlloca
      && SrcAddr(f, SrcIndex(f, j)) <= a < SrcAddr(f, SrcIndex(f, j)) + Dest(f, j).allocaSize
    }

    /** Where that address moves to. */
    ghost function Moved(f: nat, j: nat, a: int): int
      requires Ok() && Record(f, j)
    {
      p.AddrOf(f, Dest(f, j)) + (a - SrcAddr(f, SrcIndex(f, j)))
    }

    ghost function Bytes(f: nat, j: nat): seq<byte>
      requires Ok() && Record(f, j)
    {
      SourceBytes(v.h.arch, v.mem, v.acts[f].regs, Src(f, j))
    }

    /** Values that can be found again: not constants, and in memory or a callee-saved register. */
    predicate Findable(f: nat, j: nat)
      requires Record(f, j)
    {
      p.Homed(Dest(f, j))
    }

    ghost function Now(s: Store, f: nat, j: nat): seq<byte>
      requires Ok() && Record(f, j) && Findable(f, j)
    {
      RegisterFits(this, f, j);
      s.Read(p.Home(f, Dest(f, j)), Dest(f, j).ValSize())
    }
  }

  lemma RegisterFits(c: Job, f: nat, j: nat)
    requires c.Ok() && c.Record(f, j) && c.p.Homed(c.Dest(f, j))
    ensures c.Dest(f, j).kind.SmRegister? ==> c.Dest(f, j).ValSize() <= 8 && !c.p.arch.Special(c.Dest(f, j).regnum)
    ensures c.p.Home(f, c.Dest(f, j)).InReg? ==> c.Dest(f, j).ValSize() <= 8
  {
    assert FrameOk(c.p.arch, c.p.frames[f], c.p.Cfa(f));
    assert RegLiveOk(c.p.arch, c.p.frames[f].saves, c.Dest(f, j));
  }

  /** A source address lies in at most one stack allocation. */
  lemma AllocaUnique(c: Job, f: nat, j: nat, g: nat, k: nat, a: int)
    requires c.Ok() && c.InAlloca(f, j, a) && c.InAlloca(g, k, a)
    ensures f == g && j == k
  {
    AllocaInFrame(c, f, j, a);
    AllocaInFrame(c, g, k, a);
    if f < g {
      SrcCfaMonotonic(c, f, g - 1);
    } else if g < f {
      SrcCfaMonotonic(c, g, f - 1);
    } else {
      NotAnEarlierAlloca(c, f, j, k, a);
      NotAnEarlierAlloca(c, f, k, j, a);
    }
  }

  lemma NotAnEarlierAlloca(c: Job, f: nat, j: nat, k: nat, a: int)
    requires c.Ok() && c.InAlloca(f, j, a) && c.InAlloca(f, k, a)
    ensures k <= j
  {
    assert c.FramePaired(f);
    assert TypesOk(c.Src(f, j), c.Dest(f, j)) && TypesOk(c.Src(f, k), c.Dest(f, k));
    if j < k {
      HeadsDiffer(c.SrcLive(f), c.p.frames[f].vs, j, k);
    }
  }

  lemma AllocaInFrame(c: Job, f: nat, j: nat, a: int)
    requires c.Ok() && c.InAlloca(f, j, a)
    ensures c.v.acts[f - 1].cfa <= a < c.v.acts[f].cfa
  {
    assert c.FramePaired(f);
    assert TypesOk(c.Src(f, j), c.Dest(f, j));
    assert c.SrcLive(f)[c.SrcIndex(f, j)].isAlloca;
  }

  lemma {:induction false} SrcCfaMonotonic(c: Job, f: nat, g: nat)
    requires c.Ok() && f <= g < |c.p.frames| - 1
    ensures c.v.acts[f].cfa <= c.v.acts[g].cfa
  {
    if f < g {
      SrcCfaMonotonic(c, f, g - 1);
      assert c.FramePaired(g);
    }
  }
}
