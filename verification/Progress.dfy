/** What holds between two steps of the rewriting: after all records of the frames below k and
    the first n records of frame k have been handled. */
module Progress {
  import opened Bytes
  import opened Sequences
  import opened Machine
  import opened Frames
  import opened Pairing
  import opened Transform

  predicate Done(c: Job, k: nat, n: nat, f: int, j: int) {
    c.Record(f, j) && (f < k || (f == k && j < n))
  }

  /** Every value that is no stack pointer has reached its place. */
  ghost predicate ValuesOk(c: Job, s: Store, k: nat, n: nat)
    requires c.Ok()
  {
    forall f, j {:trigger c.Target(f, j)} ::
      Done(c, k, n, f, j) && c.Findable(f, j) && c.Target(f, j) == 0 ==> c.Now(s, f, j) == c.Bytes(f, j)
  }

  ghost predicate Listed(c: Job, k: nat, n: nat, x: Fixup)
    requires c.Ok()
  {
    && c.Rewritten(x.act) && c.offs[x.act] <= x.destLoc
    && var j := x.destLoc - c.offs[x.act];
    && Done(c, k, n, x.act, j) && c.Pointer(x.act, j) && x == c.FixupOf(x.act, j)
  }

  /** Every fixup in the list stands for a handled pointer. */
  ghost predicate ListOk(c: Job, fixups: seq<Fixup>, k: nat, n: nat)
    requires c.Ok()
  {
    forall x | x in fixups :: Listed(c, k, n, x)
  }

  ghost predicate Covered(c: Job, k: nat, n: nat, a: int)
    requires c.Ok()
  {
    exists f, j {:trigger c.InAlloca(f, j, a)} :: Done(c, k, n, f, j) && c.InAlloca(f, j, a)
  }

  /** A handled pointer points to the moved address of its target. */
  ghost predicate Resolved(c: Job, s: Store, k: nat, n: nat, f: nat, j: nat)
    requires c.Ok() && c.Record(f, j) && c.Target(f, j) != 0
  {
    && Covered(c, k, n, c.Target(f, j))
    && (c.Findable(f, j) ==>
          forall q, i {:trigger c.InAlloca(q, i, c.Target(f, j))} ::
            Done(c, k, n, q, i) && c.InAlloca(q, i, c.Target(f, j)) ==>
              c.Now(s, f, j) == c.p.arch.wordOf(c.Moved(q, i, c.Target(f, j))))
  }

  /** A handled pointer is either waiting in the list or resolved. */
  ghost predicate PointersOk(c: Job, s: Store, fixups: seq<Fixup>, k: nat, n: nat)
    requires c.Ok()
  {
    forall f, j {:trigger c.Target(f, j)} ::
      Done(c, k, n, f, j) && c.Pointer(f, j) && c.FixupOf(f, j) !in fixups ==> Resolved(c, s, k, n, f, j)
  }

  /** No fixup waits for an alloca that has been handled, unless both are in the current frame
      and the alloca came first. */
  ghost predicate PendingOk(c: Job, fixups: seq<Fixup>, k: nat, n: nat)
    requires c.Ok()
  {
    forall x, f, j {:trigger c.InAlloca(f, j, x.srcAddr), x in fixups} ::
      x in fixups && Done(c, k, n, f, j) && c.InAlloca(f, j, x.srcAddr) ==> f == k && x.act == k
  }

  ghost predicate Inv(c: Job, s: Store, fixups: seq<Fixup>, k: nat, n: nat)
    requires c.Ok()
  {
    && ValuesOk(c, s, k, n) && ListOk(c, fixups, k, n)
    && PointersOk(c, s, fixups, k, n) && PendingOk(c, fixups, k, n)
  }

  // ---------- one write ----------

  /** What putting bytes at a record's place does to the store; records that cannot be found
      again leave it unchanged. */
  ghost function Put(c: Job, s: Store, f: nat, j: nat, bs: seq<byte>): Store
    requires c.Ok() && c.Record(f, j) && |bs| == c.Dest(f, j).ValSize()
  {
    if c.Findable(f, j) then RegisterFits(c, f, j); s.Write(c.p.Home(f, c.Dest(f, j)), bs) else s
  }

  /** Putting one record changes no other. */
  lemma PutKeeps(c: Job, s: Store, f: nat, j: nat, bs: seq<byte>, g: nat, i: nat)
    requires c.Ok() && c.Record(f, j) && |bs| == c.Dest(f, j).ValSize()
    requires c.Record(g, i) && c.Findable(g, i) && (f != g || i != j)
    ensures c.Now(Put(c, s, f, j, bs), g, i) == c.Now(s, g, i)
  {
    if c.Findable(f, j) {
      RegisterFits(c, f, j);
      RegisterFits(c, g, i);
      if f <= g {
        HomesApart(c.p, f, j, g, i);
      } else {
        HomesApart(c.p, g, i, f, j);
      }
      ReadUnwritten(s, c.p.Home(f, c.Dest(f, j)), bs, c.p.Home(g, c.Dest(g, i)), c.Dest(g, i).ValSize());
    }
  }

  lemma PutSets(c: Job, s: Store, f: nat, j: nat, bs: seq<byte>)
    requires c.Ok() && c.Record(f, j) && |bs| == c.Dest(f, j).ValSize() && c.Findable(f, j)
    ensures c.Now(Put(c, s, f, j, bs), f, j) == bs
  {
    RegisterFits(c, f, j);
    ReadWritten(s, c.p.Home(f, c.Dest(f, j)), bs);
  }

  /** Two stores in which all records but (f, j) read the same. */
  ghost predicate SameBut(c: Job, s: Store, t: Store, f: nat, j: nat)
    requires c.Ok()
  {
    forall g, i {:trigger c.Now(t, g, i)} ::
      c.Record(g, i) && c.Findable(g, i) && (g != f || i != j) ==> c.Now(t, g, i) == c.Now(s, g, i)
  }

  lemma PutSameBut(c: Job, s: Store, f: nat, j: nat, bs: seq<byte>)
    requires c.Ok() && c.Record(f, j) && |bs| == c.Dest(f, j).ValSize()
    ensures SameBut(c, s, Put(c, s, f, j, bs), f, j)
  {
    forall g, i | c.Record(g, i) && c.Findable(g, i) && (g != f || i != j)
      ensures c.Now(Put(c, s, f, j, bs), g, i) == c.Now(s, g, i)
    {
      PutKeeps(c, s, f, j, bs, g, i);
    }
  }

  // ---------- handling one record ----------

  /** After a record that is no stack pointer has been copied; if it is an alloca, the fixups
      it covers are still to be resolved. */
  lemma CopyStep(c: Job, s: Store, t: Store, fixups: seq<Fixup>, k: nat, n: nat)
    requires c.Ok() && c.Record(k, n) && Inv(c, s, fixups, k, n)
    requires SameBut(c, s, t, k, n) && c.Target(k, n) == 0
    requires c.Findable(k, n) ==> c.Now(t, k, n) == c.Bytes(k, n)
    ensures ValuesOk(c, t, k, n + 1) && ListOk(c, fixups, k, n + 1) && PointersOk(c, t, fixups, k, n + 1)
    ensures !c.Dest(k, n).isAlloca ==> PendingOk(c, fixups, k, n + 1)
  {
    forall f, j | Done(c, k, n + 1, f, j) && c.Pointer(f, j) && c.FixupOf(f, j) !in fixups
      ensures Resolved(c, t, k, n + 1, f, j)
    {
      assert Done(c, k, n, f, j) && Resolved(c, s, k, n, f, j);
      StillResolved(c, s, t, k, n, f, j);
    }
  }

  lemma StillResolved(c: Job, s: Store, t: Store, k: nat, n: nat, f: nat, j: nat)
    requires c.Ok() && c.Record(k, n) && SameBut(c, s, t, k, n)
    requires Done(c, k, n, f, j) && c.Target(f, j) != 0 && Resolved(c, s, k, n, f, j)
    ensures Resolved(c, t, k, n + 1, f, j)
  {
    var a := c.Target(f, j);
    var q, i :| Done(c, k, n, q, i) && c.InAlloca(q, i, a);
    forall q', i' | Done(c, k, n + 1, q', i') && c.InAlloca(q', i', a)
      ensures q' == q && i' == i
    {
      AllocaUnique(c, q, i, q', i', a);
    }
    assert c.Findable(f, j) ==> c.Now(t, f, j) == c.Now(s, f, j);
  }

  /** After a stack pointer has been put in the list of fixups. */
  lemma PointerStep(c: Job, s: Store, fixups: seq<Fixup>, k: nat, n: nat)
    requires c.Ok() && c.Record(k, n) && Inv(c, s, fixups, k, n) && c.Pointer(k, n)
    ensures Inv(c, s, fixups + [c.FixupOf(k, n)], k, n + 1)
  {
    NoAlloca(c, k, n);
    StillPointers(c, s, fixups, fixups + [c.FixupOf(k, n)], k, n);
    StillPending(c, fixups, k, n);
  }

  lemma NoAlloca(c: Job, k: nat, n: nat)
    requires c.Ok() && c.Record(k, n) && c.Target(k, n) != 0
    ensures !c.Dest(k, n).isAlloca
  {
    assert TypesOk(c.Src(k, n), c.Dest(k, n));
  }

  lemma StillPointers(c: Job, s: Store, fixups: seq<Fixup>, more: seq<Fixup>, k: nat, n: nat)
    requires c.Ok() && c.Record(k, n) && PointersOk(c, s, fixups, k, n) && fixups <= more
    requires c.Pointer(k, n) ==> c.FixupOf(k, n) in more
    ensures PointersOk(c, s, more, k, n + 1)
  {
    forall f, j | Done(c, k, n + 1, f, j) && c.Pointer(f, j) && c.FixupOf(f, j) !in more
      ensures Resolved(c, s, k, n + 1, f, j)
    {
      assert c.FixupOf(f, j) !in fixups;
      assert Resolved(c, s, k, n, f, j);
      StillResolved(c, s, s, k, n, f, j);
    }
  }

  lemma StillPending(c: Job, fixups: seq<Fixup>, k: nat, n: nat)
    requires c.Ok() && c.Record(k, n) && PendingOk(c, fixups, k, n)
    requires c.Pointer(k, n) && !c.Dest(k, n).isAlloca
    ensures PendingOk(c, fixups + [c.FixupOf(k, n)], k, n + 1)
  {
    var x := c.FixupOf(k, n);
    forall y, f, j | y in fixups + [x] && Done(c, k, n + 1, f, j) && c.InAlloca(f, j, y.srcAddr)
      ensures f == k && y.act == k
    {
      if y == x {
        AllocaInFrame(c, f, j, x.srcAddr);
        if f < k {
          SrcCfaMonotonic(c, f, k - 1);
        }
      }
    }
  }

  /** A pointer into a called function is left alone. */
  lemma GarbageStep(c: Job, s: Store, fixups: seq<Fixup>, k: nat, n: nat)
    requires c.Ok() && c.Record(k, n) && Inv(c, s, fixups, k, n)
    requires c.Target(k, n) != 0 && !c.Pointer(k, n)
    ensures Inv(c, s, fixups, k, n + 1)
  {
    NoAlloca(c, k, n);
    StillPointers(c, s, fixups, fixups, k, n);
  }

  // ---------- resolving one fixup ----------

  /** After a fixup covered by a handled alloca (k, m) has been written and removed. */
  lemma ResolveStep(c: Job, s: Store, t: Store, fixups: seq<Fixup>, i: nat, k: nat, n: nat, m: nat, j: nat)
    requires c.Ok() && i < |fixups| && Done(c, k, n, k, m) && c.InAlloca(k, m, fixups[i].srcAddr)
    requires ValuesOk(c, s, k, n) && ListOk(c, fixups, k, n) && PointersOk(c, s, fixups, k, n)
    requires Listed(c, k, n, fixups[i]) && j == fixups[i].destLoc - c.offs[fixups[i].act]
    requires SameBut(c, s, t, fixups[i].act, j)
    requires c.Findable(fixups[i].act, j) ==>
               c.Now(t, fixups[i].act, j) == c.p.arch.wordOf(c.Moved(k, m, fixups[i].srcAddr))
    ensures ValuesOk(c, t, k, n) && ListOk(c, Without(fixups, i), k, n) && PointersOk(c, t, Without(fixups, i), k, n)
  {
    var x, less := fixups[i], Without(fixups, i);
    WithoutHas(fixups, i);
    ResolvedBy(c, t, k, n, m, x, j);
    OthersResolved(c, s, t, fixups, less, k, n, x, j);
  }

  lemma OthersResolved(c: Job, s: Store, t: Store, fixups: seq<Fixup>, less: seq<Fixup>, k: nat, n: nat, x: Fixup, j: nat)
    requires c.Ok() && PointersOk(c, s, fixups, k, n)
    requires Listed(c, k, n, x) && j == x.destLoc - c.offs[x.act] && SameBut(c, s, t, x.act, j)
    requires Resolved(c, t, k, n, x.act, j) && forall y | y in fixups && y != x :: y in less
    ensures PointersOk(c, t, less, k, n)
  {
    forall f, g | Done(c, k, n, f, g) && c.Pointer(f, g) && c.FixupOf(f, g) !in less
      ensures Resolved(c, t, k, n, f, g)
    {
      if f != x.act || g != j {
        assert c.FixupOf(f, g) != x;
        assert c.FixupOf(f, g) !in fixups;
        assert Resolved(c, s, k, n, f, g);
        assert c.Findable(f, g) ==> c.Now(t, f, g) == c.Now(s, f, g);
      }
    }
  }

  lemma ResolvedBy(c: Job, t: Store, k: nat, n: nat, m: nat, x: Fixup, j: nat)
    requires c.Ok() && Done(c, k, n, k, m) && c.InAlloca(k, m, x.srcAddr)
    requires Listed(c, k, n, x) && j == x.destLoc - c.offs[x.act]
    requires c.Findable(x.act, j) ==> c.Now(t, x.act, j) == c.p.arch.wordOf(c.Moved(k, m, x.srcAddr))
    ensures Resolved(c, t, k, n, x.act, j)
  {
    forall q, h | Done(c, k, n, q, h) && c.InAlloca(q, h, x.srcAddr)
      ensures q == k && h == m
    {
      AllocaUnique(c, q, h, k, m, x.srcAddr);
    }
  }

  // ---------- finishing a frame ----------

  lemma FrameStep(c: Job, s: Store, fixups: seq<Fixup>, k: nat)
    requires c.Ok() && c.Rewritten(k)
    requires ValuesOk(c, s, k, |c.p.frames[k].vs|) && ListOk(c, fixups, k, |c.p.frames[k].vs|)
    requires PointersOk(c, s, fixups, k, |c.p.frames[k].vs|)
    requires PendingOk(c, fixups, k, |c.p.frames[k].vs|)
    requires forall x, j {:trigger c.InAlloca(k, j, x.srcAddr), x in fixups} ::
               x in fixups && x.act == k ==> !c.InAlloca(k, j, x.srcAddr)
    ensures Inv(c, s, fixups, k + 1, 0)
  {
    var n := |c.p.frames[k].vs|;
    forall f, j
      ensures Done(c, k + 1, 0, f, j) == Done(c, k, n, f, j)
    {
    }
    forall f, j | Done(c, k + 1, 0, f, j) && c.Pointer(f, j) && c.FixupOf(f, j) !in fixups
      ensures Resolved(c, s, k + 1, 0, f, j)
    {
      assert Resolved(c, s, k, n, f, j);
    }
  }

  /** Nothing has been done when the rewriting reaches frame 1. */
  lemma Start(c: Job, s: Store)
    requires c.Ok()
    ensures Inv(c, s, [], 1, 0)
  {
    forall f, j
      ensures !Done(c, 1, 0, f, j)
    {
    }
  }
}
