/** The machine and metadata that the stack transformation works on: register sets,
    byte memory, per-architecture stack properties, call-site and live-value records. */
module Machine {
  import opened Bytes

  // ---------- registers and memory ----------

  type Reg = nat
  type Word = w: seq<byte> | |w| == 8 witness [0, 0, 0, 0, 0, 0, 0, 0]
  type RegSet = map<Reg, Word>
  type Memory = map<int, byte>

  const ZERO: Word := [0, 0, 0, 0, 0, 0, 0, 0]

  function RegVal(rs: RegSet, r: Reg): Word {
    if r in rs then rs[r] else ZERO
  }

  /** Both architectures are little-endian: the number whose digits the bytes are. */
  function Number(b: seq<byte>): nat {
    if b == [] then 0 else b[0] as int + 0x100 * Number(b[1..])
  }

  /** The n low-order bytes of v, in two's complement when v is negative. */
  function Digits(v: int, n: nat): (b: seq<byte>)
    ensures |b| == n
    decreases n
  {
    if n == 0 then [] else [v % 0x100] + Digits(v / 0x100, n - 1)
  }

  function Pow256(n: nat): nat {
    if n == 0 then 1 else 0x100 * Pow256(n - 1)
  }

  lemma {:induction false} NumberOfDigits(v: int, n: nat)
    requires 0 <= v < Pow256(n)
    ensures Number(Digits(v, n)) == v
  {
    if n > 0 {
      NumberOfDigits(v / 0x100, n - 1);
      assert Digits(v, n)[1..] == Digits(v / 0x100, n - 1);
    }
  }

  function At(m: Memory, a: int): byte {
    if a in m then m[a] else 0
  }

  function ReadBytes(m: Memory, a: int, n: nat): (bs: seq<byte>)
    ensures |bs| == n && forall i | 0 <= i < n :: bs[i] == At(m, a + i)
  {
    seq<byte>(n, i => At(m, a + i))
  }

  function WriteBytes(m: Memory, a: int, bs: seq<byte>): (r: Memory)
    ensures forall x :: At(r, x) == if a <= x < a + |bs| then bs[x - a] else At(m, x)
  {
    if bs == [] then m
    else
      var last := |bs| - 1;
      var init := WriteBytes(m, a, bs[..last]);
      var m' := init[a + last := bs[last]];
      assert forall x :: At(m', x) == if x == a + last then bs[last] else At(init, x);
      m'
  }

  // ---------- architecture properties ----------

  /** regs.h and properties.h.  `wordOf` and `addrOf` turn an address into the bytes of a
      register and back.  `pcReg` numbers the program counter; where the ABI keeps
      the return address elsewhere (`hasRaReg`) that register is `raReg`. */
  datatype Arch = Arch(
    wordOf: int -> Word, addrOf: Word -> int,
    spReg: Reg, fbpReg: Reg, pcReg: Reg, raReg: Reg, hasRaReg: bool,
    calleeSaved: set<Reg>,
    raOffset: int, savedFbpOffset: int, cfaOffsetFuncEntry: int,
    fbpFromCfa: int,
    spNeedsAlign: bool, alignSp: int -> int)
  {
    /** The register whose unwind record holds the return address. */
    function RetReg(): Reg {
      if hasRaReg then raReg else pcReg
    }

    /** Registers that unwinding sets up itself; no live value is ever kept in them. */
    predicate Special(r: Reg) {
      r == spReg || r == fbpReg || r == pcReg || (hasRaReg && r == raReg)
    }

    ghost predicate Valid() {
      && (forall a | 0 <= a < TWO_64 :: addrOf(wordOf(a)) == a)
      && spReg != fbpReg && spReg != pcReg && fbpReg != pcReg
      && (hasRaReg ==> raReg != spReg && raReg != fbpReg && raReg != pcReg)
      && (!hasRaReg ==> cfaOffsetFuncEntry + raOffset == 0 && 8 <= cfaOffsetFuncEntry)
      && 0 <= cfaOffsetFuncEntry
    }
  }

  function AlignSpX86(sp: int): int {
    if (sp + 8) % 16 != 0 then sp - 8 else sp
  }

  const X86_64 := Arch(
    wordOf := (a: int) => Digits(a, 8), addrOf := (w: Word) => Number(w),
    spReg := 7, fbpReg := 6, pcReg := 16, raReg := 16, hasRaReg := false,
    calleeSaved := {3, 6, 12, 13, 14, 15, 16},
    raOffset := -8, savedFbpOffset := -16, cfaOffsetFuncEntry := 8,
    fbpFromCfa := -16, spNeedsAlign := true, alignSp := AlignSpX86)

  /** AArch64 does not number its program counter; 1000 stands for it here. */
  const AARCH64 := Arch(
    wordOf := (a: int) => Digits(a, 8), addrOf := (w: Word) => Number(w),
    spReg := 31, fbpReg := 29, pcReg := 1000, raReg := 30, hasRaReg := true,
    calleeSaved := {19, 20, 21, 22, 23, 24, 25, 26, 27, 28, 29, 30, 72, 73, 74, 75, 76, 77, 78, 79},
    raOffset := -8, savedFbpOffset := -16, cfaOffsetFuncEntry := 0,
    fbpFromCfa := -16, spNeedsAlign := false, alignSp := (sp: int) => sp)

  // ---------- metadata records ----------

  datatype Kind = SmRegister | SmDirect | SmIndirect | SmConstant | SmConstIdx

  datatype LiveValue = LiveValue(
    isDuplicate: bool, isAlloca: bool, isPtr: bool, kind: Kind,
    size: nat, regnum: Reg, offsetOrConstant: i32, allocaSize: u32)
  {
    /** The VAL_SIZE macro. */
    function ValSize(): nat {
      if isAlloca then allocaSize else size
    }

    predicate InMemory() {
      kind.SmDirect? || kind.SmIndirect?
    }

    predicate Constant() {
      kind.SmConstant? || kind.SmConstIdx?
    }
  }

  datatype UnwindLoc = UnwindLoc(reg: Reg, offset: int)

  datatype CallSite = CallSite(
    id: nat, addr: u64, frameSize: nat,
    numUnwind: nat, unwindOffset: nat, numLive: nat, liveOffset: nat)

  /** Start of a function and its unwind records. */
  datatype UnwindAddr = UnwindAddr(addr: u64, numUnwind: nat, unwindOffset: nat)

  const EMPTY_CALL_SITE := CallSite(0, 0, 0, 0, 0, 0, 0)

  /** The transformation handle of one binary. */
  datatype Handle = Handle(
    arch: Arch, unwindLocs: seq<UnwindLoc>, liveVals: seq<LiveValue>,
    sitesAddr: seq<CallSite>, sitesId: seq<CallSite>, unwindAddrs: seq<UnwindAddr>)
  {
    /** The site's records lie in the tables, and the live-value table has one more,
        non-duplicate, record after them: the look-ahead for duplicates reads it. */
    predicate SiteInTables(s: CallSite) {
      && s.unwindOffset + s.numUnwind <= |unwindLocs|
      && s.liveOffset + s.numLive < |liveVals|
      && !liveVals[s.liveOffset + s.numLive].isDuplicate
    }

    function Unwinds(s: CallSite): seq<UnwindLoc>
      requires SiteInTables(s)
    {
      unwindLocs[s.unwindOffset..s.unwindOffset + s.numUnwind]
    }

    function Live(s: CallSite): seq<LiveValue>
      requires SiteInTables(s)
    {
      liveVals[s.liveOffset..s.liveOffset + s.numLive]
    }
  }

  datatype Activation = Activation(site: CallSite, cfa: int, regs: RegSet, calleeSaved: set<Reg>)

  const MAX_FRAMES: nat := 512

  /** A pointer into the source stack waiting for its target; `destLoc` is the index of the
      live-value record to overwrite in activation `act`. */
  datatype Fixup = Fixup(srcAddr: int, act: nat, destLoc: nat)

  // ---------- laws ----------

  lemma ReadOwnWrite(m: Memory, a: int, bs: seq<byte>)
    ensures ReadBytes(WriteBytes(m, a, bs), a, |bs|) == bs
  {
  }

  lemma ReadOtherWrite(m: Memory, a: int, bs: seq<byte>, b: int, n: nat)
    requires b + n <= a || a + |bs| <= b
    ensures ReadBytes(WriteBytes(m, a, bs), b, n) == ReadBytes(m, b, n)
  {
  }

  lemma ArchesValid()
    ensures X86_64.Valid() && AARCH64.Valid()
  {
    forall a | 0 <= a < TWO_64
      ensures Number(Digits(a, 8)) == a
    {
      assert Pow256(8) == 0x100 * (0x100 * (0x100 * (0x100 * Pow256(4)))) == TWO_64;
      NumberOfDigits(a, 8);
    }
  }
}
