/** A small stack that st_rewrite_stack moves from AArch64 to x86-64: a function called by one with
    an array and a pointer into it, called by the start function. */
module StackExample {
  import opened Bytes
  import opened Machine
  import opened Frames
  import opened Pairing
  import opened Transform
  import opened Whole
  import opened StackRewrite

  const START := TWO_64 - 1

  // ---------- metadata ----------

  /** The array, 8 bytes 16 above the stack pointer, and the pointer, 8 above it. */
  const ARRAY := LiveValue(false, true, false, SmDirect, 1, 31, 16, 8)
  const LINK := LiveValue(false, false, true, SmIndirect, 8, 31, 8, 0)
  const NONE := LiveValue(false, false, false, SmConstant, 4, 0, 0, 0)

  const INNER := CallSite(0, 0x1000, 16, 0, 0, 0, 0)
  const CALLER := CallSite(1, 0x2000, 48, 2, 1, 2, 1)
  const STARTED := CallSite(START, 0x3000, 32, 0, 3, 0, 3)

  const SOURCE := Handle(AARCH64, [UnwindLoc(19, 0), UnwindLoc(29, 0), UnwindLoc(30, 8)], [NONE, ARRAY, LINK, NONE],
                         [INNER, CALLER, STARTED], [INNER, CALLER, STARTED], [UnwindAddr(0x1000, 0, 0)])

  /** On x86-64 both are addressed from the frame pointer. */
  const ARRAY_X86 := ARRAY.(regnum := 6, offsetOrConstant := -16)
  const LINK_X86 := LINK.(regnum := 6, offsetOrConstant := -8)

  const CALLER_X86 := CallSite(1, 0x2100, 32, 2, 1, 2, 1)
  const STARTED_X86 := CallSite(START, 0x3100, 16, 0, 3, 0, 3)

  const DESTINATION := Handle(X86_64, [UnwindLoc(3, 0), UnwindLoc(6, 0), UnwindLoc(16, 8)], [NONE, ARRAY_X86, LINK_X86, NONE],
                              [CALLER_X86, STARTED_X86], [CALLER_X86, STARTED_X86], [UnwindAddr(0x1000, 0, 0)])

  // ---------- the source stack ----------

  function Addr(a: int): Word {
    Digits(a, 8)
  }

  /** The stack pointer is 0x10000, the first frame ends at 0x10010, the second at 0x10040. */
  const REGS: RegSet := map[31 := Addr(0x1_0000), 29 := Addr(0x1_0030), 30 := Addr(0x2000), 1000 := Addr(0x1000)]

  /** The pointer points 4 bytes into the array; above it the saved frame pointer and the return
      address. */
  function Stack(): Memory {
    WriteBytes(WriteBytes(WriteBytes(map[], 0x1_0018, Addr(0x1_0024)), 0x1_0030, Addr(0)), 0x1_0038, Addr(0x3000))
  }

  const BASE := 0x2_0000
  const BASE_X86 := 0x100_0000

  function First(): Activation {
    FirstActivation(AARCH64, INNER, REGS)
  }

  function Second(): Activation {
    Activation(CALLER, 0x1_0040, REGS[1000 := Addr(0x2000)][31 := Addr(0x1_0010)], {})
  }

  function Third(): Activation {
    Activation(STARTED, 0x1_0060,
               REGS[29 := Addr(0)][30 := Addr(0x3000)][1000 := Addr(0x3000)][31 := Addr(0x1_0040)], {})
  }

  function Chain(): seq<Activation> {
    [First(), Second(), Third()]
  }

  function Partners(): seq<Activation> {
    [First(), Second().(site := CALLER_X86), Third().(site := STARTED_X86)]
  }

  lemma AddrBack(a: int)
    requires 0 <= a < TWO_64
    ensures AARCH64.addrOf(Addr(a)) == a
  {
    ArchesValid();
    assert AARCH64.addrOf(AARCH64.wordOf(a)) == a;
  }

  lemma TablesFine()
    ensures TablesOk(SOURCE) && TablesOk(DESTINATION)
  {
  }

  lemma PairedFine()
    ensures PairOk([ARRAY, LINK], [ARRAY_X86, LINK_X86])
  {
    var sv, dv := [ARRAY, LINK], [ARRAY_X86, LINK_X86];
    assert NextHead(sv, 0) == 1 && NextHead(sv, 1) == 2;
    assert Head(sv, dv, 0) == 0 && Head(sv, dv, 1) == 1;
  }

  lemma CallerFine(cfa: int)
    ensures DESTINATION.SiteInTables(CALLER_X86) && DESTINATION.Live(CALLER_X86) == [ARRAY_X86, LINK_X86]
    ensures DistinctRegs(DESTINATION.Unwinds(CALLER_X86))
    ensures FrameOk(X86_64, FrameOf(DESTINATION, CALLER_X86), cfa)
  {
    var us := DESTINATION.Unwinds(CALLER_X86);
    assert us == [UnwindLoc(6, 0), UnwindLoc(16, 8)];
    TwoSaves(UnwindLoc(6, 0), UnwindLoc(16, 8));
    assert SaveMap(us) == map[6 := 0, 16 := 8];
  }

  lemma TwoSaves(a: UnwindLoc, b: UnwindLoc)
    requires a.reg != b.reg
    ensures SaveMap([a, b]) == map[a.reg := a.offset, b.reg := b.offset]
  {
    assert [a, b][..1] == [a] && [a][..0] == [];
    assert SaveMap([a]) == map[a.reg := a.offset];
  }

  lemma MetadataFine()
    ensures MetadataOk(SOURCE, DESTINATION)
  {
    TablesFine();
    ArchesValid();
    ArchesFit(0);
    forall d | d in DESTINATION.sitesId
      ensures SiteOk(DESTINATION, d)
    {
      if d == CALLER_X86 {
        forall cfa {:trigger FrameOk(X86_64, FrameOf(DESTINATION, d), cfa)}
          ensures FrameOk(X86_64, FrameOf(DESTINATION, d), cfa)
        {
          CallerFine(cfa);
        }
        CallerFine(0);
      }
    }
    forall s, d | s in SOURCE.sitesAddr && d in DESTINATION.sitesId && s.id == d.id && !FirstFrame(d.id)
      ensures SitesPaired(SOURCE, DESTINATION, s, d)
    {
      assert s == CALLER && d == CALLER_X86;
      assert SOURCE.Live(s) == [ARRAY, LINK] && DESTINATION.Live(d) == [ARRAY_X86, LINK_X86];
      PairedFine();
    }
  }

  // ---------- unwinding it ----------

  lemma SecondAbove()
    ensures UnwindsTo(SOURCE, Stack(), First(), Second())
  {
    hide Digits, Number, WriteBytes, ReadBytes, Stack, SaveMap;
    AddrBack(0x1_0000);
    AddrBack(0x1_0010);
    AddrBack(0x2000);
    assert SOURCE.Unwinds(INNER) == [];
    NoSaves();
    NothingPopped(First().regs, 0x1_0010);
  }

  /** A frame that saves nothing. */
  lemma NothingPopped(regs: RegSet, cfa: int)
    ensures Popped(AARCH64, Stack(), regs, map[], cfa) == regs[1000 := RegVal(regs, 30)][31 := Addr(cfa)]
  {
    hide Digits, Number, WriteBytes, ReadBytes, Stack;
    var none: RegSet := Restored(Stack(), AARCH64.addrOf(RegVal(regs, 29)), map[]);
    assert none == map[];
    assert regs + none == regs;
  }

  lemma ThirdAbove()
    ensures UnwindsTo(SOURCE, Stack(), Second(), Third())
  {
    hide Digits, Number, WriteBytes, ReadBytes, Stack, SaveMap, Popped;
    AddrBack(0x1_0030);
    AddrBack(0x1_0040);
    AddrBack(0x3000);
    assert SOURCE.Unwinds(CALLER) == [UnwindLoc(29, 0), UnwindLoc(30, 8)];
    TwoSaves(UnwindLoc(29, 0), UnwindLoc(30, 8));
    PoppedCaller();
  }

  lemma PoppedCaller()
    ensures Popped(AARCH64, Stack(), Second().regs, map[29 := 0, 30 := 8], 0x1_0040) == Third().regs
  {
    hide Digits, Number, WriteBytes, ReadBytes, Stack;
    AddrBack(0x1_0030);
    SavedOnStack();
    var saved := Restored(Stack(), 0x1_0030, map[29 := 0, 30 := 8]);
    assert saved == map[29 := Addr(0), 30 := Addr(0x3000)];
    var regs: RegSet := Second().regs + saved;
    assert Popped(AARCH64, Stack(), Second().regs, map[29 := 0, 30 := 8], 0x1_0040) == With(regs, 0x3000, 0x1_0040);
    assert With(regs, 0x3000, 0x1_0040) == Third().regs;
  }

  function With(regs: RegSet, pc: int, sp: int): RegSet {
    var r: RegSet := regs[1000 := Addr(pc)];
    r[31 := Addr(sp)]
  }

  lemma SavedOnStack()
    ensures ReadBytes(Stack(), 0x1_0018, 8) == Addr(0x1_0024)
    ensures ReadBytes(Stack(), 0x1_0030, 8) == Addr(0) && ReadBytes(Stack(), 0x1_0038, 8) == Addr(0x3000)
  {
    hide Digits, WriteBytes, ReadBytes;
    var w0, w1, w2 := Addr(0x1_0024), Addr(0), Addr(0x3000);
    var m0: Memory := map[];
    var m1 := WriteBytes(m0, 0x1_0018, w0);
    var m2 := WriteBytes(m1, 0x1_0030, w1);
    ReadOwnWrite(m0, 0x1_0018, w0);
    ReadOtherWrite(m1, 0x1_0030, w1, 0x1_0018, 8);
    ReadOtherWrite(m2, 0x1_0038, w2, 0x1_0018, 8);
    ReadOwnWrite(m1, 0x1_0030, w1);
    ReadOtherWrite(m2, 0x1_0038, w2, 0x1_0030, 8);
    ReadOwnWrite(m2, 0x1_0038, w2);
  }

  lemma ChainFine()
    ensures SrcChain(SOURCE, Stack(), First(), Chain(), 2)
  {
    hide Digits, Number, WriteBytes, ReadBytes, Stack, UnwindsTo;
    SecondAbove();
    ThirdAbove();
    forall k | 1 <= k <= 2
      ensures UnwindsAt(SOURCE, Stack(), Chain(), k)
    {
      assert Chain()[k] == if k == 1 then Second() else Third();
    }
  }

  /** From the start function on, unwinding stays in it. */
  lemma {:induction false} StaysStarted(acts: seq<Activation>, n: nat)
    requires SrcChain(SOURCE, Stack(), First(), acts, n) && 2 <= n
    ensures acts[n].site == STARTED && RegVal(acts[n].regs, 30) == Addr(0x3000)
  {
    hide Digits, Number, WriteBytes, ReadBytes, Stack, UnwindsTo, TablesOk;
    if n == 2 {
      ChainFine();
      TablesFine();
      ChainUnique(SOURCE, Stack(), First(), acts, 2, Chain(), 2, 2);
    } else {
      StaysStarted(acts, n - 1);
      assert UnwindsAt(SOURCE, Stack(), acts, n);
      StillStarted(acts[n - 1], acts[n]);
    }
  }

  lemma StillStarted(a: Activation, b: Activation)
    requires a.site == STARTED && RegVal(a.regs, 30) == Addr(0x3000) && UnwindsTo(SOURCE, Stack(), a, b)
    ensures b.site == STARTED && RegVal(b.regs, 30) == Addr(0x3000)
  {
    hide Digits, Number, WriteBytes, ReadBytes, Stack, Popped, SaveMap;
    assert SOURCE.Unwinds(STARTED) == [];
    NoSaves();
    NothingPopped(a.regs, a.cfa);
    AddrBack(0x3000);
  }

  lemma NoSaves()
    ensures SaveMap([]) == map[]
  {
  }

  lemma SourceFine()
    ensures SourceOk(SOURCE, Stack(), First())
  {
    forall acts: seq<Activation>, n: nat | SrcChain(SOURCE, Stack(), First(), acts, n) && 1 <= n
      ensures SOURCE.SiteInTables(acts[n].site)
      ensures !FirstFrame(acts[n].site.id) ==> SourceFrameOk(SOURCE, acts[n - 1], acts[n])
    {
      if n == 1 {
        ChainFine();
        TablesFine();
        ChainUnique(SOURCE, Stack(), First(), acts, 1, Chain(), 2, 1);
        CallerFrame(acts[0], acts[1]);
      } else {
        StaysStarted(acts, n);
      }
    }
  }

  lemma CallerFrame(below: Activation, a: Activation)
    requires SameFrame(below, First()) && SameFrame(a, Second())
    ensures SOURCE.SiteInTables(a.site) && SourceFrameOk(SOURCE, below, a)
  {
    hide Digits, Number, WriteBytes, ReadBytes, Stack;
    AddrBack(0x1_0000);
    AddrBack(0x1_0010);
    assert SOURCE.Live(CALLER) == [ARRAY, LINK];
  }

  /** The stack meets all that StRewriteStack asks for, it is not refused, and its pointer points
      into the array. */
  lemma Example()
    ensures MetadataOk(SOURCE, DESTINATION)
    ensures forall s | s in SOURCE.sitesAddr && s.addr == AARCH64.addrOf(RegVal(REGS, AARCH64.pcReg)) ::
              SourceOk(SOURCE, Stack(), FirstActivation(AARCH64, s, REGS))
    ensures MAX_STACK_SIZE <= BASE_X86 && BASE_X86 + X86_64.cfaOffsetFuncEntry < TWO_64
    ensures Accepts(SOURCE, REGS, Stack(), DESTINATION)
    ensures var target := StackTarget(AARCH64, Stack(), Second().regs, 0x1_0000, BASE, LINK);
            target == BasedAddr(AARCH64, Second().regs, ARRAY) + 4
  {
    hide MetadataOk, SourceOk, Accepts, StackTarget, BasedAddr, Digits, Number, Stack;
    MetadataFine();
    AddrBack(0x1000);
    SourceFine();
    Accepted();
    PointsInto();
  }

  lemma PointsInto()
    ensures StackTarget(AARCH64, Stack(), Second().regs, 0x1_0000, BASE, LINK) == BasedAddr(AARCH64, Second().regs, ARRAY) + 4
  {
    hide Digits, Number, WriteBytes, ReadBytes, Stack;
    AddrBack(0x1_0010);
    AddrBack(0x1_0024);
    SavedOnStack();
  }

  lemma PartnersFine()
    ensures SitesMatch(DESTINATION, Chain(), Partners(), 2)
  {
    forall k | 1 <= k <= 2
      ensures Partners()[k].site in DESTINATION.sitesId && Partners()[k].site.id == Chain()[k].site.id
      ensures FirstFrame(Chain()[k].site.id) ==> k == 2
    {
      assert DESTINATION.sitesId[k - 1] == Partners()[k].site;
    }
  }

  lemma Accepted()
    ensures Accepts(SOURCE, REGS, Stack(), DESTINATION)
  {
    hide Digits, Number, WriteBytes, ReadBytes, Stack, Rewritable, UnwindsTo, TablesOk, SrcChain;
    AddrBack(0x1000);
    AddrBack(0x1_0000);
    ChainFine();
    TablesFine();
    PartnersFine();
    assert Matched(SOURCE, Stack(), First(), DESTINATION, Chain(), Partners(), 2);
    assert StackSize(Partners(), 0) == 0 && StackSize(Partners(), 1) == 32 && StackSize(Partners(), 2) == 48;
    RewritableIf(SOURCE, Stack(), First(), DESTINATION, Chain(), Partners(), 2);
    AcceptsIf(SOURCE, REGS, Stack(), DESTINATION, INNER);
  }
}
