/** rewrite.c: the transformation of one frame, value by value, and the fixups. */
module Rewriting {
  import opened Bytes
  import opened Sequences
  import opened Machine
  import opened Frames
  import opened Pairing
  import opened Transform
  import opened Progress
  import opened Links
  import opened Context
  import opened Data

  /** Both contexts are at activation k of job c; the source is the unwound stack of c. */
  ghost predicate Working(c: Job, src: RewriteContext, dest: RewriteContext, k: nat)
    reads src, dest
  {
    && src != dest && src.act == dest.act == k
    && Follows(c, dest, k) && c.Rewritten(k)
    && src.handle == c.v.h && src.mem == c.v.mem && src.acts == c.v.acts
    && src.stack == c.v.stack && src.stackBase == c.v.base
  }

  /** The links below frame k are complete, and frame k holds its return address. */
  ghost predicate Chained(c: Job, s: Store, k: nat)
    requires c.Ok() && c.Rewritten(k)
  {
    Linked(c.p, s, k) && RaAt(c.p, s, k)
  }

  lemma PutKeepsChained(c: Job, s: Store, f: nat, j: nat, bs: seq<byte>, k: nat)
    requires c.Ok() && c.Rewritten(k) && Chained(c, s, k)
    requires c.Record(f, j) && |bs| == c.Dest(f, j).ValSize()
    ensures Chained(c, Put(c, s, f, j, bs), k)
  {
    PutKeepsLinked(c, s, f, j, bs, k);
    PutKeepsLink(c, s, f, j, bs, k);
  }

  /** Everything but the fixups of one alloca has been brought up to record n of frame k. */
  ghost predicate Handled(c: Job, s: Store, fixups: seq<Fixup>, k: nat, n: nat)
    requires c.Ok()
  {
    ValuesOk(c, s, k, n) && ListOk(c, fixups, k, n) && PointersOk(c, s, fixups, k, n)
  }

  /** Every new fixup of activation k that points below the frame's CFA has been flagged. */
  ghost predicate Local(before: seq<Fixup>, after: seq<Fixup>, k: nat, cfa: int, flagged: bool) {
    forall x | x in after && x !in before && x.act == k && x.srcAddr < cfa :: flagged
  }

  lemma PointerSize(c: Job, k: nat, n: nat, x: Fixup)
    requires c.Ok() && Listed(c, k, n, x)
    ensures c.Dest(x.act, x.destLoc - c.offs[x.act]).ValSize() == 8
  {
    var j := x.destLoc - c.offs[x.act];
    assert TypesOk(c.Src(x.act, j), c.Dest(x.act, j));
  }

  lemma ResolvePut(c: Job, s: Store, fixups: seq<Fixup>, i: nat, k: nat, n: nat, m: nat, j: nat)
    requires c.Ok() && c.Rewritten(k) && Chained(c, s, k) && Handled(c, s, fixups, k, n)
    requires i < |fixups| && Done(c, k, n, k, m) && c.InAlloca(k, m, fixups[i].srcAddr)
    requires Listed(c, k, n, fixups[i]) && j == fixups[i].destLoc - c.offs[fixups[i].act]
    requires c.Dest(fixups[i].act, j).ValSize() == 8
    ensures var t := Put(c, s, fixups[i].act, j, c.p.arch.wordOf(c.Moved(k, m, fixups[i].srcAddr)));
            Chained(c, t, k) && Handled(c, t, Without(fixups, i), k, n)
  {
    var x := fixups[i];
    var w := c.p.arch.wordOf(c.Moved(k, m, x.srcAddr));
    PutKeepsChained(c, s, x.act, j, w, k);
    PutSameBut(c, s, x.act, j, w);
    if c.Findable(x.act, j) {
      PutSets(c, s, x.act, j, w);
    }
    ResolveStep(c, s, Put(c, s, x.act, j, w), fixups, i, k, n, m, j);
  }

  /** Overwrite the pointer that waits as fixup number i with the moved address of its target
      in alloca m of the current frame, and take it off the list. */
  method ResolveFixup(dest: RewriteContext, i: nat, stackAddr: int, ghost c: Job, ghost n: nat, ghost m: nat)
    requires Follows(c, dest, dest.act) && c.Rewritten(dest.act) && Chained(c, dest.Contents(), dest.act)
    requires Handled(c, dest.Contents(), dest.stackPointers, dest.act, n)
    requires i < |dest.stackPointers| && Done(c, dest.act, n, dest.act, m)
    requires c.InAlloca(dest.act, m, dest.stackPointers[i].srcAddr)
    requires stackAddr == c.Moved(dest.act, m, dest.stackPointers[i].srcAddr)
    modifies dest`acts, dest`mem, dest`stackPointers
    ensures Follows(c, dest, dest.act) && Chained(c, dest.Contents(), dest.act)
    ensures dest.stackPointers == Without(old(dest.stackPointers), i)
    ensures dest.stackPointers[..i] == old(dest.stackPointers)[..i]
    ensures forall y | y in dest.stackPointers :: y in old(dest.stackPointers)
    ensures Handled(c, dest.Contents(), dest.stackPointers, dest.act, n)
  {
    hide ValuesOk, PointersOk, Linked;
    var x := dest.stackPointers[i];
    assert Listed(c, dest.act, n, x);
    ghost var k, j := dest.act, x.destLoc - c.offs[x.act];
    PointerSize(c, k, n, x);
    RecordAt(c, dest, k, x.act, j);
    ResolvePut(c, dest.Contents(), dest.stackPointers, i, k, n, m, j);
    PutValData(dest, dest.handle.liveVals[x.destLoc], x.act, stackAddr, c, k, j);
    WithoutHas(dest.stackPointers, i);
    dest.stackPointers := Without(dest.stackPointers, i);
  }

  lemma CopyPut(c: Job, s: Store, fixups: seq<Fixup>, k: nat, j: nat)
    requires c.Ok() && c.Record(k, j) && Chained(c, s, k) && Inv(c, s, fixups, k, j) && c.Target(k, j) == 0
    requires |c.Bytes(k, j)| == c.Dest(k, j).ValSize()
    ensures var t := Put(c, s, k, j, c.Bytes(k, j));
            && Chained(c, t, k) && Handled(c, t, fixups, k, j + 1)
            && (!c.Dest(k, j).isAlloca ==> PendingOk(c, fixups, k, j + 1))
  {
    PutKeepsChained(c, s, k, j, c.Bytes(k, j), k);
    PutSameBut(c, s, k, j, c.Bytes(k, j));
    if c.Findable(k, j) {
      PutSets(c, s, k, j, c.Bytes(k, j));
    }
    CopyStep(c, s, Put(c, s, k, j, c.Bytes(k, j)), fixups, k, j);
  }

  /** rewrite_val: handle record j of the current activation. */
  method RewriteVal(src: RewriteContext, srcVal: LiveValue, dest: RewriteContext, destLoc: nat,
                    ghost c: Job, ghost j: nat) returns (needsLocalFixup: bool)
    requires Working(c, src, dest, src.act) && c.Record(src.act, j) && srcVal == c.Src(src.act, j)
    requires destLoc == c.offs[src.act] + j
    requires TypesOk(srcVal, c.Dest(src.act, j))
    requires Inv(c, dest.Contents(), dest.stackPointers, src.act, j) && Chained(c, dest.Contents(), src.act)
    modifies dest`acts, dest`mem, dest`stackPointers
    ensures Working(c, src, dest, src.act) && Chained(c, dest.Contents(), src.act)
    ensures Inv(c, dest.Contents(), dest.stackPointers, src.act, j + 1)
    ensures Local(old(dest.stackPointers), dest.stackPointers, src.act, src.acts[src.act].cfa, needsLocalFixup)
  {
    hide ValuesOk, PointersOk, PendingOk, ListOk, Linked;
    RecordAt(c, dest, src.act, src.act, j);
    var destVal := dest.handle.liveVals[destLoc];
    var stackAddr := PointsToStack(src, srcVal);
    needsLocalFixup := false;
    if stackAddr != 0 {
      needsLocalFixup := AddFixup(src, dest, stackAddr, destLoc, c, j);
    } else {
      CopyPut(c, dest.Contents(), dest.stackPointers, src.act, j);
      PutVal(src, srcVal, dest, destVal, c, j);
      if srcVal.isAlloca {
        ResolveCovered(src, srcVal, dest, destVal, c, j);
      }
    }
  }

  /** Record a fixup for a pointer to the stack, unless it points to a called function's frame;
      say whether it points into its own frame. */
  method AddFixup(src: RewriteContext, dest: RewriteContext, stackAddr: int, destLoc: nat, ghost c: Job, ghost j: nat)
    returns (needsLocalFixup: bool)
    requires src != dest && src.act == dest.act < |dest.acts| && c.Ok() && src.acts == c.v.acts && c.Record(src.act, j)
    requires destLoc == c.offs[src.act] + j && stackAddr == c.Target(src.act, j) != 0
    requires Inv(c, dest.Contents(), dest.stackPointers, src.act, j)
    modifies dest`stackPointers
    ensures Inv(c, dest.Contents(), dest.stackPointers, src.act, j + 1)
    ensures Local(old(dest.stackPointers), dest.stackPointers, src.act, src.acts[src.act].cfa, needsLocalFixup)
  {
    hide ValuesOk, PointersOk, PendingOk, ListOk;
    needsLocalFixup := false;
    if src.act == 0 || stackAddr >= src.acts[src.act - 1].cfa {
      PointerStep(c, dest.Contents(), dest.stackPointers, src.act, j);
      dest.stackPointers := dest.stackPointers + [Fixup(stackAddr, dest.act, destLoc)];
      if stackAddr < src.acts[src.act].cfa {
        needsLocalFixup := true;
      }
    } else {
      GarbageStep(c, dest.Contents(), dest.stackPointers, src.act, j);
    }
  }

  /** No waiting pointer up to i points into alloca j of the current frame. */
  ghost predicate NoneCovered(c: Job, fixups: seq<Fixup>, i: nat, k: nat, j: nat)
    requires c.Ok() && i <= |fixups|
  {
    forall x | x in fixups[..i] :: !c.InAlloca(k, j, x.srcAddr)
  }

  /** The alloca just copied, and the pointers that wait. */
  ghost predicate Covering(c: Job, src: RewriteContext, dest: RewriteContext, j: nat)
    reads src, dest
  {
    && Working(c, src, dest, src.act) && c.Record(src.act, j) && c.Dest(src.act, j).isAlloca
    && Handled(c, dest.Contents(), dest.stackPointers, src.act, j + 1)
    && PendingOk(c, dest.stackPointers, src.act, j) && Chained(c, dest.Contents(), src.act)
  }

  /** Resolve waiting pointer i if it points into the alloca, or go on to the next. */
  method ResolveNext(src: RewriteContext, srcVal: LiveValue, dest: RewriteContext, destVal: LiveValue, i: nat,
                     ghost c: Job, ghost j: nat)
    returns (next: nat)
    requires Covering(c, src, dest, j) && srcVal == c.Src(src.act, j) && destVal == c.Dest(src.act, j)
    requires i < |dest.stackPointers| && NoneCovered(c, dest.stackPointers, i, src.act, j)
    modifies dest`acts, dest`mem, dest`stackPointers
    ensures Covering(c, src, dest, j)
    ensures next <= |dest.stackPointers| && |dest.stackPointers| - next < old(|dest.stackPointers|) - i
    ensures NoneCovered(c, dest.stackPointers, next, src.act, j)
    ensures forall x | x in dest.stackPointers :: x in old(dest.stackPointers)
  {
    hide ValuesOk, PointersOk, Linked, Without, RaAt, FrameOk, Job.FramePaired;
    var x := dest.stackPointers[i];
    var stackAddr := PointsToData(src, srcVal, dest, destVal, x.srcAddr, c, j);
    if stackAddr != 0 {
      ResolveFixup(dest, i, stackAddr, c, j + 1, j);
      next := i;
    } else {
      assert dest.stackPointers[..i + 1] == dest.stackPointers[..i] + [x];
      next := i + 1;
    }
  }

  /** Check if the alloca just copied is pointed to by waiting pointers, and resolve them. */
  method ResolveCovered(src: RewriteContext, srcVal: LiveValue, dest: RewriteContext, destVal: LiveValue,
                        ghost c: Job, ghost j: nat)
    requires Covering(c, src, dest, j) && srcVal == c.Src(src.act, j) && destVal == c.Dest(src.act, j)
    modifies dest`acts, dest`mem, dest`stackPointers
    ensures Working(c, src, dest, src.act) && Chained(c, dest.Contents(), src.act)
    ensures Inv(c, dest.Contents(), dest.stackPointers, src.act, j + 1)
    ensures forall x | x in dest.stackPointers :: x in old(dest.stackPointers)
  {
    hide ValuesOk, PointersOk, Linked, Without, RaAt, FrameOk, Job.FramePaired;
    var i: nat := 0;
    while i < |dest.stackPointers|
      invariant i <= |dest.stackPointers| && Covering(c, src, dest, j)
      invariant NoneCovered(c, dest.stackPointers, i, src.act, j)
      invariant forall x | x in dest.stackPointers :: x in old(dest.stackPointers)
      decreases |dest.stackPointers| - i
    {
      i := ResolveNext(src, srcVal, dest, destVal, i, c, j);
    }
    assert dest.stackPointers[..i] == dest.stackPointers;
  }

  /** Advance past the duplicates of record i. */
  method SkipDuplicates(h: Handle, s: CallSite, i: nat) returns (last: nat)
    requires h.SiteInTables(s) && i < s.numLive
    ensures last + 1 == NextHead(h.Live(s), i)
  {
    last := i;
    while h.liveVals[last + 1 + s.liveOffset].isDuplicate
      invariant i <= last < s.numLive
      invariant NextHead(h.Live(s), i) == NextHead(h.Live(s), last)
      decreases s.numLive - last
    {
      assert last + 1 < s.numLive ==> h.Live(s)[last + 1] == h.liveVals[last + 1 + s.liveOffset];
      last := last + 1;
    }
    assert last + 1 < s.numLive ==> h.Live(s)[last + 1] == h.liveVals[last + 1 + s.liveOffset];
  }

  /** The records of one value: the source record, and the duplicates, which are no allocas. */
  lemma ValueRecords(c: Job, k: nat, j: nat)
    requires c.Ok() && c.Record(k, j)
    ensures c.Src(k, j) == c.v.h.liveVals[Head(c.SrcLive(k), c.p.frames[k].vs, j) + c.v.acts[k].site.liveOffset]
    ensures c.Src(k, j).isAlloca == c.Dest(k, j).isAlloca
    ensures forall g | j < g < NextHead(c.p.frames[k].vs, j) :: !c.Dest(k, g).isAlloca
  {
    assert c.FramePaired(k);
    forall g | j <= g < NextHead(c.p.frames[k].vs, j)
      ensures TypesOk(c.Src(k, g), c.Dest(k, g))
    {
    }
  }

  /** Move from one value to the next in both sites. */
  method NextValue(src: RewriteContext, dest: RewriteContext, i: nat, j: nat, ghost c: Job) returns (i': nat, j': nat)
    requires Working(c, src, dest, src.act) && c.Record(src.act, j)
    requires i == Head(c.SrcLive(src.act), c.p.frames[src.act].vs, j)
    ensures j' == NextHead(c.p.frames[src.act].vs, j)
    ensures j' < |c.p.frames[src.act].vs| ==> i' == Head(c.SrcLive(src.act), c.p.frames[src.act].vs, j')
  {
    ghost var k := src.act;
    var srcSite, destSite := src.acts[src.act].site, dest.acts[dest.act].site;
    assert SiteIs(dest.handle, destSite, c.p.frames[k]) && c.FramePaired(k);
    assert i == c.SrcIndex(k, j);
    var lastSrc := SkipDuplicates(src.handle, srcSite, i);
    var lastDest := SkipDuplicates(dest.handle, destSite, j);
    HeadOfNext(c.SrcLive(k), c.p.frames[k].vs, j, lastDest);
    i', j' := lastSrc + 1, lastDest + 1;
  }

  /** Search the current frame for the allocation that a source address lies in. */
  method FindLocal(src: RewriteContext, dest: RewriteContext, srcAddr: int, ghost c: Job)
    returns (stackAddr: int, ghost m: nat)
    requires Working(c, src, dest, src.act)
    ensures stackAddr == 0 ==> forall j :: !c.InAlloca(src.act, j, srcAddr)
    ensures stackAddr != 0 ==> c.InAlloca(src.act, m, srcAddr) && stackAddr == c.Moved(src.act, m, srcAddr)
  {
    var srcSite, destSite := src.acts[src.act].site, dest.acts[dest.act].site;
    assert SiteIs(dest.handle, destSite, c.p.frames[src.act]);
    ghost var dv := c.p.frames[src.act].vs;
    var i, j := 0, 0;
    m := 0;
    while j < destSite.numLive
      invariant j <= |dv| && (j < |dv| ==> i == Head(c.SrcLive(src.act), dv, j))
      invariant forall g | 0 <= g < j :: !c.InAlloca(src.act, g, srcAddr)
      decreases |dv| - j
    {
      ValueRecords(c, src.act, j);
      RecordAt(c, dest, src.act, src.act, j);
      var srcVal := src.handle.liveVals[i + srcSite.liveOffset];
      var destVal := dest.handle.liveVals[j + destSite.liveOffset];
      m := j;
      i, j := NextValue(src, dest, i, j, c);
      if srcVal.isAlloca && destVal.isAlloca {
        stackAddr := PointsToData(src, srcVal, dest, destVal, srcAddr, c, m);
        if stackAddr != 0 {
          return;
        }
      }
    }
    stackAddr := 0;
  }

  /** fixup_local_pointers: resolve the pointers of the current frame into its own allocations. */
  method FixupLocalPointers(src: RewriteContext, dest: RewriteContext, ghost c: Job)
    requires Working(c, src, dest, src.act) && Chained(c, dest.Contents(), src.act)
    requires Inv(c, dest.Contents(), dest.stackPointers, src.act, |c.p.frames[src.act].vs|)
    modifies dest`acts, dest`mem, dest`stackPointers
    ensures Working(c, src, dest, src.act) && Chained(c, dest.Contents(), src.act)
    ensures Inv(c, dest.Contents(), dest.stackPointers, src.act, |c.p.frames[src.act].vs|)
    ensures forall x, j {:trigger c.InAlloca(src.act, j, x.srcAddr), x in dest.stackPointers} ::
              x in dest.stackPointers && x.act == src.act ==> !c.InAlloca(src.act, j, x.srcAddr)
  {
    hide ValuesOk, PointersOk, Linked, Without;
    ghost var k, n := src.act, |c.p.frames[src.act].vs|;
    var i := 0;
    while i < |dest.stackPointers|
      invariant i <= |dest.stackPointers|
      invariant Working(c, src, dest, k) && Chained(c, dest.Contents(), k)
      invariant Inv(c, dest.Contents(), dest.stackPointers, k, n)
      invariant forall x, j {:trigger c.InAlloca(k, j, x.srcAddr), x in dest.stackPointers[..i]} ::
                  x in dest.stackPointers[..i] && x.act == k ==> !c.InAlloca(k, j, x.srcAddr)
      decreases |dest.stackPointers| - i
    {
      var x := dest.stackPointers[i];
      assert dest.stackPointers[..i + 1] == dest.stackPointers[..i] + [x];
      if x.srcAddr <= src.acts[src.act].cfa && x.act == src.act {
        var stackAddr, m := FindLocal(src, dest, x.srcAddr, c);
        if stackAddr != 0 {
          ResolveFixup(dest, i, stackAddr, c, n, m);
        } else {
          i := i + 1;
        }
      } else {
        forall j | x.act == k
          ensures !c.InAlloca(k, j, x.srcAddr)
        {
          if c.InAlloca(k, j, x.srcAddr) {
            AllocaInFrame(c, k, j, x.srcAddr);
          }
        }
        i := i + 1;
      }
    }
    assert dest.stackPointers[..i] == dest.stackPointers;
  }

  lemma NothingLocal(c: Job, fixups: seq<Fixup>, k: nat)
    requires c.Ok() && c.Rewritten(k)
    requires forall x | x in fixups && x.act == k :: c.v.acts[k].cfa <= x.srcAddr
    ensures forall x, j {:trigger c.InAlloca(k, j, x.srcAddr), x in fixups} ::
              x in fixups && x.act == k ==> !c.InAlloca(k, j, x.srcAddr)
  {
    forall x, j | x in fixups && x.act == k
      ensures !c.InAlloca(k, j, x.srcAddr)
    {
      if c.InAlloca(k, j, x.srcAddr) {
        AllocaInFrame(c, k, j, x.srcAddr);
      }
    }
  }

  lemma SourceRecord(c: Job, k: nat, j: nat, i: nat)
    requires c.Ok() && c.Record(k, j) && i == Head(c.SrcLive(k), c.p.frames[k].vs, j)
    ensures i + c.v.acts[k].site.liveOffset < |c.v.h.liveVals|
    ensures c.v.h.liveVals[i + c.v.acts[k].site.liveOffset] == c.Src(k, j)
    ensures TypesOk(c.Src(k, j), c.Dest(k, j))
  {
    assert i == c.SrcIndex(k, j);
  }

  /** The look-ahead for a duplicate destination record. */
  method DuplicateAfter(dest: RewriteContext, last: nat, ghost c: Job, ghost k: nat) returns (more: bool)
    requires Follows(c, dest, k) && k == dest.act && c.Record(k, last)
    ensures more == (last + 1 < |c.p.frames[k].vs| && c.p.frames[k].vs[last + 1].isDuplicate)
  {
    var site := dest.acts[dest.act].site;
    assert SiteIs(dest.handle, site, c.p.frames[k]);
    assert last + 1 < site.numLive ==> dest.handle.Live(site)[last + 1] == dest.handle.liveVals[last + 1 + site.liveOffset];
    more := dest.handle.liveVals[last + 1 + site.liveOffset].isDuplicate;
  }

  /** Handle one value: its first destination record and all duplicates after it. */
  method RewriteValue(src: RewriteContext, dest: RewriteContext, i: nat, j: nat, ghost c: Job)
    returns (last: nat, needsLocalFixup: bool)
    requires Working(c, src, dest, src.act) && c.Record(src.act, j)
    requires i == Head(c.SrcLive(src.act), c.p.frames[src.act].vs, j)
    requires Inv(c, dest.Contents(), dest.stackPointers, src.act, j) && Chained(c, dest.Contents(), src.act)
    modifies dest`acts, dest`mem, dest`stackPointers
    ensures Working(c, src, dest, src.act) && Chained(c, dest.Contents(), src.act)
    ensures last + 1 == NextHead(c.p.frames[src.act].vs, j)
    ensures Inv(c, dest.Contents(), dest.stackPointers, src.act, last + 1)
    ensures Local(old(dest.stackPointers), dest.stackPointers, src.act, src.acts[src.act].cfa, needsLocalFixup)
  {
    hide ValuesOk, PointersOk, PendingOk, ListOk, Linked;
    ghost var k, dv := src.act, c.p.frames[src.act].vs;
    SourceRecord(c, k, j, i);
    var srcVal := src.handle.liveVals[i + src.acts[src.act].site.liveOffset];
    needsLocalFixup := RewriteVal(src, srcVal, dest, j + dest.acts[dest.act].site.liveOffset, c, j);
    last := j;
    var more := DuplicateAfter(dest, last, c, k);
    while more
      invariant j <= last < |dv| && NextHead(dv, j) == NextHead(dv, last)
      invariant more == (last + 1 < |dv| && dv[last + 1].isDuplicate)
      invariant Working(c, src, dest, k) && Chained(c, dest.Contents(), k)
      invariant Inv(c, dest.Contents(), dest.stackPointers, k, last + 1)
      invariant Local(old(dest.stackPointers), dest.stackPointers, k, src.acts[k].cfa, needsLocalFixup)
      decreases |dv| - last
    {
      last := last + 1;
      HeadOfNext(c.SrcLive(k), dv, j, last);
      SourceRecord(c, k, last, i);
      var b := RewriteVal(src, srcVal, dest, last + dest.acts[dest.act].site.liveOffset, c, last);
      needsLocalFixup := needsLocalFixup || b;
      more := DuplicateAfter(dest, last, c, k);
    }
  }

  /** rewrite_frame: handle every live value of the current activation. */
  method RewriteFrame(src: RewriteContext, dest: RewriteContext, ghost c: Job)
    requires Working(c, src, dest, src.act) && Chained(c, dest.Contents(), src.act)
    requires Inv(c, dest.Contents(), dest.stackPointers, src.act, 0)
    modifies dest`acts, dest`mem, dest`stackPointers
    ensures Working(c, src, dest, src.act) && Chained(c, dest.Contents(), src.act)
    ensures Inv(c, dest.Contents(), dest.stackPointers, src.act + 1, 0)
  {
    hide ValuesOk, PointersOk, PendingOk, Linked;
    ghost var k, dv := src.act, c.p.frames[src.act].vs;
    assert SiteIs(dest.handle, dest.acts[k].site, c.p.frames[k]) && c.FramePaired(k);
    var numLive := dest.acts[dest.act].site.numLive;
    assert numLive == |dv|;
    var needsLocalFixup := false;
    assert Flagged(c, dest.stackPointers, k, false);
    var i, j := 0, 0;
    while j < numLive
      invariant j <= |dv| && (j < |dv| ==> i == Head(c.SrcLive(k), dv, j))
      invariant Working(c, src, dest, k) && Chained(c, dest.Contents(), k)
      invariant Inv(c, dest.Contents(), dest.stackPointers, k, j)
      invariant Flagged(c, dest.stackPointers, k, needsLocalFixup)
      decreases |dv| - j
    {
      var last, b := RewriteValue(src, dest, i, j, c);
      needsLocalFixup := needsLocalFixup || b;
      i, j := NextValue(src, dest, i, j, c);
    }
    if needsLocalFixup {
      FixupLocalPointers(src, dest, c);
    } else {
      NothingLocal(c, dest.stackPointers, k);
    }
    FrameStep(c, dest.Contents(), dest.stackPointers, k);
  }

  /** Fixups of activation k below its CFA exist only if they have been flagged. */
  ghost predicate Flagged(c: Job, fixups: seq<Fixup>, k: nat, flagged: bool)
    requires k < |c.v.acts|
  {
    forall x | x in fixups && x.act == k && x.srcAddr < c.v.acts[k].cfa :: flagged
  }
}
