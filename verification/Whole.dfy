/** rewrite.c: unwinding the source stack, and placing and entering the new one. */
module Whole {
  import opened Bytes
  import opened Machine
  import opened SiteSearch
  import opened Frames
  import opened Context

  const MAX_STACK_SIZE := 8 * 1024 * 1024

  /** Call sites of the functions that start a thread. */
  predicate FirstFrame(id: nat) {
    id == TWO_64 - 1 || id == TWO_64 - 2
  }

  // ---------- unwinding the source ----------

  /** Activation b is what unwinding finds above activation a. */
  ghost predicate UnwindsTo(h: Handle, mem: Memory, a: Activation, b: Activation) {
    && h.SiteInTables(a.site) && h.SiteInTables(b.site)
    && b.regs == Popped(h.arch, mem, a.regs, SaveMap(h.Unwinds(a.site)), a.cfa)
    && b.site in h.sitesAddr && b.site.addr == h.arch.addrOf(RegVal(b.regs, h.arch.pcReg))
    && b.cfa == CalculateCfa(h.arch, b)
  }

  ghost predicate UnwindsAt(h: Handle, mem: Memory, acts: seq<Activation>, k: nat)
    requires 0 < k < |acts|
  {
    UnwindsTo(h, mem, acts[k - 1], acts[k])
  }

  ghost predicate TablesOk(h: Handle) {
    && (forall s | s in h.sitesAddr || s in h.sitesId :: h.SiteInTables(s))
    && SortedByAddr(h.sitesAddr) && SortedById(h.sitesId) && FunctionsSorted(h.unwindAddrs)
  }

  /** acts[0..n] is the unwound stack of `first`. */
  ghost predicate SrcChain(h: Handle, mem: Memory, first: Activation, acts: seq<Activation>, n: nat) {
    && n < |acts| && SameFrame(acts[0], first) && h.SiteInTables(first.site)
    && forall k {:trigger UnwindsAt(h, mem, acts, k)} | 1 <= k <= n :: UnwindsAt(h, mem, acts, k)
  }

  predicate SameFrame(a: Activation, b: Activation) {
    a.site == b.site && a.regs == b.regs && a.cfa == b.cfa
  }

  lemma ChainSite(h: Handle, mem: Memory, first: Activation, acts: seq<Activation>, n: nat, k: nat)
    requires SrcChain(h, mem, first, acts, n) && k <= n
    ensures h.SiteInTables(acts[k].site)
  {
    if k > 0 {
      assert UnwindsAt(h, mem, acts, k);
    }
  }

  lemma ChainSame(h: Handle, mem: Memory, first: Activation, before: seq<Activation>, after: seq<Activation>, n: nat)
    requires SrcChain(h, mem, first, before, n) && |after| == |before|
    requires forall i | 0 <= i <= n :: SameFrame(after[i], before[i])
    ensures SrcChain(h, mem, first, after, n)
  {
    forall k | 1 <= k <= n
      ensures UnwindsAt(h, mem, after, k)
    {
      assert UnwindsAt(h, mem, before, k);
      assert SameFrame(after[k - 1], before[k - 1]) && SameFrame(after[k], before[k]);
    }
  }

  /** Sum of the frame sizes of sites 1..n. */
  function StackSize(acts: seq<Activation>, n: nat): nat
    requires n < |acts|
  {
    if n == 0 then 0 else StackSize(acts, n - 1) + acts[n].site.frameSize
  }

  /** dest's call sites are those of the same identifiers as src's; only site n starts a thread. */
  ghost predicate SitesMatch(hd: Handle, src: seq<Activation>, dest: seq<Activation>, n: nat)
    requires n < |src| && n < |dest|
  {
    forall k {:trigger dest[k].site} | 1 <= k <= n ::
      dest[k].site in hd.sitesId && dest[k].site.id == src[k].site.id && (FirstFrame(src[k].site.id) ==> k == n)
  }

  /** The source unwinds to a start function in n steps, with a partner for every call site. */
  ghost predicate Matched(hs: Handle, mem: Memory, first: Activation, hd: Handle, src: seq<Activation>, dest: seq<Activation>, n: nat) {
    && 1 <= n < |dest| == |src|
    && SrcChain(hs, mem, first, src, n) && SitesMatch(hd, src, dest, n) && FirstFrame(src[n].site.id)
  }

  /** That is so, and `size` is what the destination's frames need. */
  ghost predicate Unwinds(hs: Handle, mem: Memory, first: Activation, hd: Handle, n: nat, size: nat) {
    exists src, dest :: Matched(hs, mem, first, hd, src, dest, n) && Needs(dest, n, size)
  }

  predicate Needs(acts: seq<Activation>, n: nat, size: nat) {
    n < |acts| && StackSize(acts, n) == size
  }

  lemma MatchedAt(hs: Handle, mem: Memory, first: Activation, hd: Handle, src: seq<Activation>, dest: seq<Activation>, n: nat, k: nat)
    requires Matched(hs, mem, first, hd, src, dest, n) && 1 <= k <= n
    ensures k < |dest| && k < |src| && n < |src| && FirstFrame(src[n].site.id) && UnwindsAt(hs, mem, src, k)
    ensures dest[k].site in hd.sitesId && dest[k].site.id == src[k].site.id
  {
    hide UnwindsAt;
  }

  lemma StartsOnlyLast(hd: Handle, src: seq<Activation>, dest: seq<Activation>, n: nat, k: nat)
    requires n < |src| && n < |dest| && SitesMatch(hd, src, dest, n) && 1 <= k <= n && FirstFrame(src[k].site.id)
    ensures k == n
  {
    assert dest[k].site in hd.sitesId;
  }

  // ---------- there is one way to unwind ----------

  lemma UnwindsToSame(h: Handle, mem: Memory, a: Activation, b: Activation, a': Activation, b': Activation)
    requires TablesOk(h) && SameFrame(a, a') && UnwindsTo(h, mem, a, b) && UnwindsTo(h, mem, a', b')
    ensures SameFrame(b, b')
  {
    var i :| 0 <= i < |h.sitesAddr| && h.sitesAddr[i] == b.site;
    var j :| 0 <= j < |h.sitesAddr| && h.sitesAddr[j] == b'.site;
  }

  lemma {:induction false} ChainUnique(h: Handle, mem: Memory, first: Activation, a: seq<Activation>, n: nat,
                                       b: seq<Activation>, m: nat, k: nat)
    requires TablesOk(h) && SrcChain(h, mem, first, a, n) && SrcChain(h, mem, first, b, m) && k <= n && k <= m
    ensures SameFrame(a[k], b[k])
  {
    if k > 0 {
      ChainUnique(h, mem, first, a, n, b, m, k - 1);
      assert UnwindsAt(h, mem, a, k) && UnwindsAt(h, mem, b, k);
      UnwindsToSame(h, mem, a[k - 1], a[k], b[k - 1], b[k]);
    }
  }

  /** Unwinding that has not come to a start function yet has further to go. */
  lemma NotYet(hs: Handle, mem: Memory, first: Activation, hd: Handle, acts: seq<Activation>, sites: seq<Activation>, k: nat,
               src: seq<Activation>, dest: seq<Activation>, n: nat)
    requires TablesOk(hs) && SrcChain(hs, mem, first, acts, k) && k < |sites| && SitesMatch(hd, acts, sites, k)
    requires (k > 0 ==> !FirstFrame(acts[k].site.id)) && Matched(hs, mem, first, hd, src, dest, n)
    ensures k < n
  {
    if n <= k {
      ChainUnique(hs, mem, first, acts, k, src, n, n);
      StartsOnlyLast(hd, acts, sites, k, n);
    }
  }

  lemma SameId(hd: Handle, d: CallSite, d': CallSite)
    requires TablesOk(hd) && d in hd.sitesId && d' in hd.sitesId && d.id == d'.id
    ensures d == d'
  {
    var i :| 0 <= i < |hd.sitesId| && hd.sitesId[i] == d;
    var j :| 0 <= j < |hd.sitesId| && hd.sitesId[j] == d';
  }

  lemma MatchUnique(hs: Handle, mem: Memory, first: Activation, hd: Handle, src: seq<Activation>, dest: seq<Activation>, n: nat,
                    src': seq<Activation>, dest': seq<Activation>, m: nat)
    requires TablesOk(hs) && TablesOk(hd) && Matched(hs, mem, first, hd, src, dest, n) && Matched(hs, mem, first, hd, src', dest', m)
    ensures n == m && n < |dest| && n < |dest'| && StackSize(dest, n) == StackSize(dest', m)
  {
    var k := if n < m then n else m;
    ChainUnique(hs, mem, first, src, n, src', m, k);
    assert dest[k].site in hd.sitesId && dest'[k].site in hd.sitesId;
    forall i | 1 <= i <= n
      ensures dest[i].site == dest'[i].site
    {
      ChainUnique(hs, mem, first, src, n, src', m, i);
      assert dest[i].site in hd.sitesId && dest'[i].site in hd.sitesId;
      SameId(hd, dest[i].site, dest'[i].site);
    }
    StackSizeSame(dest, dest', n);
  }

  /** Find the call sites of an activation that has just been popped. */
  method LookUpSites(src: RewriteContext, dest: RewriteContext) returns (ok: bool)
    requires src != dest && src.act == dest.act < |src.acts| && src.act < |dest.acts|
    requires TablesOk(src.handle) && TablesOk(dest.handle)
    modifies src`acts, dest`acts
    ensures exists s, d ::
              && src.acts == old(src.acts)[src.act := old(src.acts)[src.act].(site := s)]
              && dest.acts == old(dest.acts)[src.act := old(dest.acts)[src.act].(site := d)]
              && (ok ==> s in src.handle.sitesAddr && d in dest.handle.sitesId && s.id == d.id
                         && s.addr == src.handle.arch.addrOf(RegVal(old(src.acts)[src.act].regs, src.handle.arch.pcReg)))
    ensures ok <==> Partners(src.handle, dest.handle, src.handle.arch.addrOf(RegVal(old(src.acts)[src.act].regs, src.handle.arch.pcReg)))
  {
    var pc := src.handle.arch.addrOf(RegVal(src.acts[src.act].regs, src.handle.arch.pcReg));
    var s, d := src.acts[src.act].site, dest.acts[dest.act].site;
    ok, s := GetSiteByAddr(src.handle.sitesAddr, pc);
    ghost var known, source := ok, s;
    src.acts := src.acts[src.act := src.acts[src.act].(site := s)];
    if ok {
      ok, d := GetSiteById(dest.handle.sitesId, s.id);
    }
    dest.acts := dest.acts[dest.act := dest.acts[dest.act].(site := d)];
    if known {
      OnlySite(src.handle, dest.handle, source);
    }
  }

  /** A call site with this return address has a partner. */
  ghost predicate Partners(hs: Handle, hd: Handle, pc: int) {
    exists s, d :: s in hs.sitesAddr && d in hd.sitesId && s.addr == pc && s.id == d.id
  }

  lemma OnlySite(hs: Handle, hd: Handle, s: CallSite)
    requires TablesOk(hs) && s in hs.sitesAddr
    ensures Partners(hs, hd, s.addr) <==> exists d :: d in hd.sitesId && d.id == s.id
  {
    var i :| 0 <= i < |hs.sitesAddr| && hs.sitesAddr[i] == s;
    if Partners(hs, hd, s.addr) {
      var t, d :| t in hs.sitesAddr && d in hd.sitesId && t.addr == s.addr && t.id == d.id;
      var j :| 0 <= j < |hs.sitesAddr| && hs.sitesAddr[j] == t;
    }
  }

  /** Unwind the source one activation further; `ok` is false where the library would stop the
      process because a call site is unknown. */
  method UnwindOne(src: RewriteContext, dest: RewriteContext, ghost first: Activation) returns (ok: bool)
    requires src != dest && src.act == dest.act && src.act + 1 < |src.acts| && src.act + 1 < |dest.acts|
    requires TablesOk(src.handle) && TablesOk(dest.handle)
    requires SrcChain(src.handle, src.mem, first, src.acts, src.act)
    requires SitesMatch(dest.handle, src.acts, dest.acts, src.act)
    requires src.act > 0 ==> !FirstFrame(src.acts[src.act].site.id)
    modifies src`acts, src`act, src`numActs, dest`acts, dest`act, dest`numActs
    ensures src.act == dest.act == old(src.act) + 1
    ensures src.numActs == old(src.numActs) + 1 && dest.numActs == old(dest.numActs) + 1
    ensures |src.acts| == old(|src.acts|) && |dest.acts| == old(|dest.acts|)
    ensures forall k | 0 <= k <= old(src.act) :: dest.acts[k] == old(dest.acts)[k]
    ensures ok ==> SrcChain(src.handle, src.mem, first, src.acts, src.act)
    ensures ok ==> SitesMatch(dest.handle, src.acts, dest.acts, src.act)
    ensures ok <==> Partners(src.handle, dest.handle, NextPc(src.handle, src.mem, old(src.acts)[old(src.act)]))
  {
    ghost var k, before := src.act, src.acts;
    ChainSite(src.handle, src.mem, first, src.acts, k, k);
    PopFrame(src, false);
    src.numActs, dest.numActs, dest.act := src.numActs + 1, dest.numActs + 1, dest.act + 1;
    ok := LookUpSites(src, dest);
    src.acts := src.acts[src.act := src.acts[src.act].(cfa := CalculateCfa(src.handle.arch, src.acts[src.act]))];
    if ok {
      ChainGrows(src.handle, src.mem, first, before, src.acts, k);
      MatchGrows(dest.handle, before, old(dest.acts), src.acts, dest.acts, k);
    }
  }

  /** The return address of an activation. */
  ghost function NextPc(h: Handle, mem: Memory, a: Activation): int {
    if h.SiteInTables(a.site) then
      h.arch.addrOf(RegVal(Popped(h.arch, mem, a.regs, SaveMap(h.Unwinds(a.site)), a.cfa), h.arch.pcReg))
    else -1
  }

  /** Where a call site is unknown, unwinding ends without a start function. */
  lemma Unknown(hs: Handle, mem: Memory, first: Activation, hd: Handle, acts: seq<Activation>, k: nat,
                src: seq<Activation>, dest: seq<Activation>, n: nat)
    requires TablesOk(hs) && SrcChain(hs, mem, first, acts, k) && Matched(hs, mem, first, hd, src, dest, n)
    requires !Partners(hs, hd, NextPc(hs, mem, acts[k]))
    ensures n <= k
  {
    if k < n {
      ChainUnique(hs, mem, first, acts, k, src, n, k);
      MatchedAt(hs, mem, first, hd, src, dest, n, k + 1);
    }
  }

  lemma ChainGrows(h: Handle, mem: Memory, first: Activation, before: seq<Activation>, after: seq<Activation>, k: nat)
    requires SrcChain(h, mem, first, before, k) && k + 1 < |after| == |before|
    requires forall i | 0 <= i <= k :: SameFrame(after[i], before[i])
    requires UnwindsTo(h, mem, before[k], after[k + 1])
    ensures SrcChain(h, mem, first, after, k + 1)
  {
    forall i | 1 <= i <= k + 1
      ensures UnwindsAt(h, mem, after, i)
    {
      assert SameFrame(after[i - 1], before[i - 1]);
      if i <= k {
        assert UnwindsAt(h, mem, before, i) && SameFrame(after[i], before[i]);
      }
    }
  }

  lemma MatchGrows(hd: Handle, src: seq<Activation>, dest: seq<Activation>, src': seq<Activation>, dest': seq<Activation>, k: nat)
    requires k + 1 < |src| == |src'| && k + 1 < |dest| == |dest'| && SitesMatch(hd, src, dest, k)
    requires k > 0 ==> !FirstFrame(src[k].site.id)
    requires forall i | 0 <= i <= k :: src'[i].site == src[i].site && dest'[i].site == dest[i].site
    requires dest'[k + 1].site in hd.sitesId && dest'[k + 1].site.id == src'[k + 1].site.id
    ensures SitesMatch(hd, src', dest', k + 1)
  {
    forall i | 1 <= i <= k + 1
      ensures dest'[i].site in hd.sitesId && dest'[i].site.id == src'[i].site.id && (FirstFrame(src'[i].site.id) ==> i == k + 1)
    {
      if i <= k {
        assert dest'[i].site == dest[i].site && src'[i].site == src[i].site;
      }
    }
  }

  /** Unwind down to the start function, adding up the destination's frame sizes. */
  method UnwindAll(src: RewriteContext, dest: RewriteContext, ghost first: Activation) returns (ok: bool, stackSize: nat)
    requires src != dest && src.act == dest.act == 0 && src.numActs == dest.numActs == 0
    requires |src.acts| == |dest.acts| == MAX_FRAMES && TablesOk(src.handle) && TablesOk(dest.handle)
    requires SrcChain(src.handle, src.mem, first, src.acts, 0)
    modifies src`acts, src`act, src`numActs, dest`acts, dest`act, dest`numActs
    ensures |src.acts| == |dest.acts| == MAX_FRAMES && dest.acts[0] == old(dest.acts)[0]
    ensures ok ==> src.act == dest.act == src.numActs == dest.numActs < MAX_FRAMES
    ensures ok ==> Matched(src.handle, src.mem, first, dest.handle, src.acts, dest.acts, src.act)
    ensures ok ==> stackSize == StackSize(dest.acts, src.act)
    ensures !ok ==> forall n: nat, size: nat | n < MAX_FRAMES :: !Unwinds(src.handle, src.mem, first, dest.handle, n, size)
  {
    hide UnwindsAt, Partners, NextPc;
    ok, stackSize := true, 0;
    var more := true;
    while more
      invariant ok && src.act == dest.act == src.numActs == dest.numActs < MAX_FRAMES
      invariant |src.acts| == |dest.acts| == MAX_FRAMES && dest.acts[0] == old(dest.acts)[0]
      invariant SrcChain(src.handle, src.mem, first, src.acts, src.act)
      invariant SitesMatch(dest.handle, src.acts, dest.acts, src.act)
      invariant if src.act == 0 then more else more == !FirstFrame(src.acts[src.act].site.id)
      invariant stackSize == StackSize(dest.acts, src.act)
      decreases MAX_FRAMES - src.act, more
    {
      if src.act + 1 >= MAX_FRAMES {
        NotWithin(src.handle, src.mem, first, dest.handle, src.acts, dest.acts, src.act);
        return false, stackSize;
      }
      ghost var chain, before, k := src.acts, dest.acts, src.act;
      ok := UnwindOne(src, dest, first);
      if !ok {
        NotBeyond(src.handle, src.mem, first, dest.handle, chain, before, k);
        return false, stackSize;
      }
      StackSizeSame(before, dest.acts, k);
      stackSize := stackSize + dest.acts[dest.act].site.frameSize;
      more := !FirstFrame(src.acts[src.act].site.id);
    }
  }

  lemma NotWithin(hs: Handle, mem: Memory, first: Activation, hd: Handle, acts: seq<Activation>, sites: seq<Activation>, k: nat)
    requires TablesOk(hs) && SrcChain(hs, mem, first, acts, k) && k < |sites| && SitesMatch(hd, acts, sites, k)
    requires k > 0 ==> !FirstFrame(acts[k].site.id)
    ensures forall n: nat, size: nat | n <= k :: !Unwinds(hs, mem, first, hd, n, size)
  {
    hide SrcChain, SitesMatch, Matched;
    forall n: nat, size: nat | n <= k
      ensures !Unwinds(hs, mem, first, hd, n, size)
    {
      if Unwinds(hs, mem, first, hd, n, size) {
        var src, dest :| Matched(hs, mem, first, hd, src, dest, n) && Needs(dest, n, size);
        NotYet(hs, mem, first, hd, acts, sites, k, src, dest, n);
      }
    }
  }

  lemma NotBeyond(hs: Handle, mem: Memory, first: Activation, hd: Handle, acts: seq<Activation>, sites: seq<Activation>, k: nat)
    requires TablesOk(hs) && SrcChain(hs, mem, first, acts, k) && k < |sites| && SitesMatch(hd, acts, sites, k)
    requires k > 0 ==> !FirstFrame(acts[k].site.id)
    requires !Partners(hs, hd, NextPc(hs, mem, acts[k]))
    ensures forall n: nat, size: nat :: !Unwinds(hs, mem, first, hd, n, size)
  {
    hide SitesMatch, Matched, Partners, NextPc, UnwindsAt;
    NotWithin(hs, mem, first, hd, acts, sites, k);
    forall n: nat, size: nat
      ensures !Unwinds(hs, mem, first, hd, n, size)
    {
      if Unwinds(hs, mem, first, hd, n, size) {
        var src, dest :| Matched(hs, mem, first, hd, src, dest, n) && Needs(dest, n, size);
        Unknown(hs, mem, first, hd, acts, k, src, dest, n);
      }
    }
  }

  function EntrySp(arch: Arch, sp: int): int {
    if arch.spNeedsAlign then arch.alignSp(sp) else sp
  }

  /** The activation of the function being entered, with its stack pointer in place. */
  function Entered(arch: Arch, a: Activation, sp: int): Activation {
    var regs := a.regs[arch.spReg := arch.wordOf(sp)];
    a.(regs := regs, calleeSaved := {}, cfa := arch.addrOf(RegVal(regs, arch.spReg)) + arch.cfaOffsetFuncEntry)
  }

  /** Set the destination stack pointer, aligned if necessary, and the outermost CFA. */
  method PlaceStack(dest: RewriteContext, stackSize: nat)
    requires dest.act == 0 && |dest.acts| > 0
    modifies dest`acts, dest`stack
    ensures dest.stack == EntrySp(dest.handle.arch, dest.stackBase - stackSize)
    ensures dest.acts == old(dest.acts)[0 := Entered(dest.handle.arch, old(dest.acts)[0], dest.stack)]
  {
    var arch := dest.handle.arch;
    dest.stack := dest.stackBase - stackSize;
    if arch.spNeedsAlign {
      dest.stack := arch.alignSp(dest.stack);
    }
    dest.acts := dest.acts[0 := dest.acts[0].(regs := dest.acts[0].regs[arch.spReg := arch.wordOf(dest.stack)])];
    BootstrapFirstFrameFuncEntry(dest);
  }

  lemma MatchSame(hs: Handle, mem: Memory, first: Activation, hd: Handle, src: seq<Activation>, dest: seq<Activation>,
                  src': seq<Activation>, dest': seq<Activation>, n: nat)
    requires Matched(hs, mem, first, hd, src, dest, n) && |src'| == |src| && |dest'| == |dest|
    requires forall i | 0 <= i <= n :: SameFrame(src'[i], src[i])
    requires forall i | 1 <= i <= n :: dest'[i].site == dest[i].site
    ensures Matched(hs, mem, first, hd, src', dest', n) && StackSize(dest', n) == StackSize(dest, n)
  {
    ChainSame(hs, mem, first, src, src', n);
    forall i | 1 <= i <= n
      ensures dest'[i].site in hd.sitesId && dest'[i].site.id == src'[i].site.id && (FirstFrame(src'[i].site.id) ==> i == n)
    {
      assert dest'[i].site == dest[i].site && SameFrame(src'[i], src[i]);
    }
    StackSizeSame(dest, dest', n);
  }

  /** The source can be rewritten: it unwinds to a start function within the frames there is room
      for, and the destination's frames take up less than half of the largest stack. */
  ghost predicate Rewritable(hs: Handle, mem: Memory, first: Activation, hd: Handle) {
    exists n: nat, size: nat :: n + 1 < MAX_FRAMES && size < MAX_STACK_SIZE / 2 && Unwinds(hs, mem, first, hd, n, size)
  }

  /** What a given way to unwind says about all. */
  lemma RewritableIf(hs: Handle, mem: Memory, first: Activation, hd: Handle, src: seq<Activation>, dest: seq<Activation>, n: nat)
    requires TablesOk(hs) && TablesOk(hd) && Matched(hs, mem, first, hd, src, dest, n)
    ensures n < |dest| && (Rewritable(hs, mem, first, hd) <==> n + 1 < MAX_FRAMES && StackSize(dest, n) < MAX_STACK_SIZE / 2)
  {
    hide Matched, TablesOk;
    assert n < |dest| by { MatchSite(hs, mem, first, hd, src, dest, n); }
    assert Needs(dest, n, StackSize(dest, n)) && Unwinds(hs, mem, first, hd, n, StackSize(dest, n));
    if Rewritable(hs, mem, first, hd) {
      var m: nat, size: nat :| m + 1 < MAX_FRAMES && size < MAX_STACK_SIZE / 2 && Unwinds(hs, mem, first, hd, m, size);
      var src', dest' :| Matched(hs, mem, first, hd, src', dest', m) && Needs(dest', m, size);
      MatchUnique(hs, mem, first, hd, src, dest, n, src', dest', m);
    }
  }

  lemma NotRewritable(hs: Handle, mem: Memory, first: Activation, hd: Handle)
    requires forall n: nat, size: nat | n < MAX_FRAMES :: !Unwinds(hs, mem, first, hd, n, size)
    ensures !Rewritable(hs, mem, first, hd)
  {
  }

  /** unwind_and_size: unwind the source down to the start function, look up the destination
      call sites, and place the destination stack. */
  method UnwindAndSize(src: RewriteContext, dest: RewriteContext, ghost first: Activation) returns (ok: bool)
    requires src != dest && src.act == dest.act == 0 && src.numActs == dest.numActs == 0
    requires |src.acts| == |dest.acts| == MAX_FRAMES && TablesOk(src.handle) && TablesOk(dest.handle)
    requires SrcChain(src.handle, src.mem, first, src.acts, 0)
    modifies src`acts, src`act, src`numActs, dest`acts, dest`act, dest`numActs, dest`stack
    ensures ok <==> Rewritable(src.handle, src.mem, first, dest.handle)
    ensures ok ==> |src.acts| == |dest.acts| == MAX_FRAMES && src.act == dest.act == 0
    ensures ok ==> 2 <= src.numActs == dest.numActs < MAX_FRAMES
    ensures ok ==> Matched(src.handle, src.mem, first, dest.handle, src.acts, dest.acts, src.numActs - 1)
    ensures ok ==> StackSize(dest.acts, src.numActs - 1) < MAX_STACK_SIZE / 2
    ensures ok ==> dest.stack == EntrySp(dest.handle.arch, dest.stackBase - StackSize(dest.acts, src.numActs - 1))
    ensures ok ==> dest.acts[0] == Entered(dest.handle.arch, old(dest.acts)[0], dest.stack)
  {
    hide Matched, TablesOk, Unwinds, SrcChain, Rewritable, SaveMap, Popped, StackSize, Handle.SiteInTables;
    var stackSize;
    ok, stackSize := UnwindAll(src, dest, first);
    if !ok {
      NotRewritable(src.handle, src.mem, first, dest.handle);
      return false;
    }
    RewritableIf(src.handle, src.mem, first, dest.handle, src.acts, dest.acts, src.act);
    if src.act + 1 >= MAX_FRAMES || stackSize >= MAX_STACK_SIZE / 2 {
      return false;
    }
    ghost var chain, sites, m := src.acts, dest.acts, src.act;
    MatchSite(src.handle, src.mem, first, dest.handle, chain, sites, m);
    PopFrame(src, false);
    src.numActs, dest.numActs := src.numActs + 1, dest.numActs + 1;
    src.act, dest.act := 0, 0;
    PlaceStack(dest, stackSize);
    MatchSame(src.handle, src.mem, first, dest.handle, chain, sites, src.acts, dest.acts, m);
  }

  lemma MatchSite(hs: Handle, mem: Memory, first: Activation, hd: Handle, src: seq<Activation>, dest: seq<Activation>, n: nat)
    requires Matched(hs, mem, first, hd, src, dest, n)
    ensures 1 <= n < |dest| == |src| && hs.SiteInTables(src[n].site)
  {
    ChainSite(hs, mem, first, src, n, n);
  }

  lemma {:induction false} StackSizeSame(a: seq<Activation>, b: seq<Activation>, n: nat)
    requires n < |a| && n < |b| && forall k | 1 <= k <= n :: a[k].site == b[k].site
    ensures StackSize(a, n) == StackSize(b, n)
  {
    if n > 0 {
      StackSizeSame(a, b, n - 1);
    }
  }
}
