/** The return-address and frame-pointer slots: writing them disturbs no live value, and
    writing live values does not disturb them. */
module Links {
  import opened Bytes
  import opened Machine
  import opened Frames
  import opened Transform
  import opened Progress

  ghost predicate RaAt(p: Plan, s: Store, k: nat)
    requires k + 1 < |p.frames|
  {
    ReadBytes(s.mem, p.RaSlot(k), 8) == p.arch.wordOf(p.frames[k + 1].addr)
  }

  lemma PutKeepsSlot(c: Job, s: Store, f: nat, j: nat, bs: seq<byte>, l: nat, r: Reg)
    requires c.Ok() && c.Record(f, j) && |bs| == c.Dest(f, j).ValSize()
    requires c.Rewritten(l) && c.p.arch.Special(r) && c.p.Saves(l, r)
    ensures ReadBytes(Put(c, s, f, j, bs).mem, c.p.SaveSlot(l, r), 8) == ReadBytes(s.mem, c.p.SaveSlot(l, r), 8)
  {
    if c.Findable(f, j) {
      RegisterFits(c, f, j);
      HomeSlotApart(c.p, f, j, l, r);
      ReadUnwritten(s, c.p.Home(f, c.Dest(f, j)), bs, InMem(c.p.SaveSlot(l, r)), 8);
    }
  }

  lemma PutKeepsLink(c: Job, s: Store, f: nat, j: nat, bs: seq<byte>, l: nat)
    requires c.Ok() && c.Record(f, j) && |bs| == c.Dest(f, j).ValSize() && c.Rewritten(l)
    ensures RaAt(c.p, s, l) ==> RaAt(c.p, Put(c, s, f, j, bs), l)
    ensures LinkAt(c.p, s, l) ==> LinkAt(c.p, Put(c, s, f, j, bs), l)
  {
    LinkSlots(c.p, l);
    PutKeepsSlot(c, s, f, j, bs, l, c.p.arch.fbpReg);
    PutKeepsSlot(c, s, f, j, bs, l, c.p.arch.RetReg());
  }

  lemma PutKeepsEntry(c: Job, s: Store, f: nat, j: nat, bs: seq<byte>)
    requires c.Ok() && c.Record(f, j) && |bs| == c.Dest(f, j).ValSize() && EntryLinked(c.p, s)
    ensures EntryLinked(c.p, Put(c, s, f, j, bs))
  {
    if c.Findable(f, j) {
      RegisterFits(c, f, j);
      HomeAboveEntry(c.p, f, j);
      var home := c.p.Home(f, c.Dest(f, j));
      ReadUnwritten(s, home, bs, InMem(c.p.RaSlot(0)), 8);
      if home.InReg? {
        var _ := RegPlaceCases(c.p, c.Dest(f, j).regnum, f);
      }
    }
  }

  lemma PutKeepsLinked(c: Job, s: Store, f: nat, j: nat, bs: seq<byte>, n: nat)
    requires c.Ok() && c.Record(f, j) && |bs| == c.Dest(f, j).ValSize()
    requires 1 <= n < |c.p.frames| && Linked(c.p, s, n)
    ensures Linked(c.p, Put(c, s, f, j, bs), n)
  {
    PutKeepsEntry(c, s, f, j, bs);
    forall l | 1 <= l < n
      ensures LinkAt(c.p, Put(c, s, f, j, bs), l)
    {
      assert LinkAt(c.p, s, l);
      PutKeepsLink(c, s, f, j, bs, l);
    }
  }

  // ---------- writing a slot ----------

  ghost function SetSlot(p: Plan, s: Store, k: nat, r: Reg, w: Word): Store
    requires k < |p.frames| && p.Saves(k, r)
  {
    s.(mem := WriteBytes(s.mem, p.SaveSlot(k, r), w))
  }

  lemma SetSlotKeepsValue(c: Job, s: Store, k: nat, r: Reg, w: Word, f: nat, j: nat)
    requires c.Ok() && c.Rewritten(k) && c.p.arch.Special(r) && c.p.Saves(k, r)
    requires c.Record(f, j) && c.Findable(f, j)
    ensures c.Now(SetSlot(c.p, s, k, r, w), f, j) == c.Now(s, f, j)
  {
    RegisterFits(c, f, j);
    HomeSlotApart(c.p, f, j, k, r);
    var home := c.p.Home(f, c.Dest(f, j));
    ReadUnwritten(s, InMem(c.p.SaveSlot(k, r)), w, home, c.Dest(f, j).ValSize());
  }

  lemma SetSlotKeepsInv(c: Job, s: Store, k: nat, r: Reg, w: Word, fixups: seq<Fixup>, g: nat, n: nat)
    requires c.Ok() && c.Rewritten(k) && c.p.arch.Special(r) && c.p.Saves(k, r) && Inv(c, s, fixups, g, n)
    ensures Inv(c, SetSlot(c.p, s, k, r, w), fixups, g, n)
  {
    var t := SetSlot(c.p, s, k, r, w);
    forall f, j | c.Record(f, j) && c.Findable(f, j)
      ensures c.Now(t, f, j) == c.Now(s, f, j)
    {
      SetSlotKeepsValue(c, s, k, r, w, f, j);
    }
    forall f, j | Done(c, g, n, f, j) && c.Pointer(f, j) && c.FixupOf(f, j) !in fixups
      ensures Resolved(c, t, g, n, f, j)
    {
      assert Resolved(c, s, g, n, f, j);
    }
  }

  lemma SetSlotKeepsSlot(p: Plan, s: Store, k: nat, r: Reg, w: Word, l: nat, q: Reg)
    requires p.Ok() && 1 <= k < |p.frames| - 1 && 1 <= l < |p.frames| - 1
    requires p.Saves(k, r) && p.Saves(l, q) && (k != l || r != q)
    ensures ReadBytes(SetSlot(p, s, k, r, w).mem, p.SaveSlot(l, q), 8) == ReadBytes(s.mem, p.SaveSlot(l, q), 8)
  {
    SaveSlotsApart(p, k, r, l, q);
    ReadOtherWrite(s.mem, p.SaveSlot(k, r), w, p.SaveSlot(l, q), 8);
  }

  /** Writing a slot of frame k keeps the chain below it. */
  lemma SetSlotKeepsLinked(c: Job, s: Store, k: nat, r: Reg, w: Word)
    requires c.Ok() && c.Rewritten(k) && c.p.Saves(k, r) && Linked(c.p, s, k)
    ensures Linked(c.p, SetSlot(c.p, s, k, r, w), k)
  {
    var p, t := c.p, SetSlot(c.p, s, k, r, w);
    forall l | 1 <= l < k
      ensures LinkAt(p, t, l)
    {
      assert LinkAt(p, s, l);
      LinkSlots(p, l);
      SetSlotKeepsSlot(p, s, k, r, w, l, p.arch.fbpReg);
      SetSlotKeepsSlot(p, s, k, r, w, l, p.arch.RetReg());
    }
    SaveSlotInside(p, k, r);
    CfaMonotonic(p, 0, k - 1);
    ReadOtherWrite(s.mem, p.SaveSlot(k, r), w, p.RaSlot(0), 8);
  }

  /** set_return_address for frame k. */
  lemma SetRa(c: Job, s: Store, k: nat, fixups: seq<Fixup>)
    requires c.Ok() && c.Rewritten(k) && Linked(c.p, s, k) && Inv(c, s, fixups, k, 0)
    ensures var t := s.(mem := WriteBytes(s.mem, c.p.RaSlot(k), c.p.arch.wordOf(c.p.frames[k + 1].addr)));
            Linked(c.p, t, k) && Inv(c, t, fixups, k, 0) && RaAt(c.p, t, k)
  {
    LinkSlots(c.p, k);
    var w := c.p.arch.wordOf(c.p.frames[k + 1].addr);
    SetSlotKeepsLinked(c, s, k, c.p.arch.RetReg(), w);
    SetSlotKeepsInv(c, s, k, c.p.arch.RetReg(), w, fixups, k, 0);
    ReadOwnWrite(s.mem, c.p.RaSlot(k), w);
  }

  /** Saving the caller's frame pointer completes frame k's link. */
  lemma SetFbp(c: Job, s: Store, k: nat, fixups: seq<Fixup>)
    requires c.Ok() && c.Rewritten(k) && Linked(c.p, s, k) && Inv(c, s, fixups, k + 1, 0) && RaAt(c.p, s, k)
    ensures var t := s.(mem := WriteBytes(s.mem, c.p.FbpSlot(k), c.p.arch.wordOf(c.p.Fbp(k + 1))));
            Linked(c.p, t, k + 1) && Inv(c, t, fixups, k + 1, 0)
  {
    LinkSlots(c.p, k);
    var w := c.p.arch.wordOf(c.p.Fbp(k + 1));
    SetSlotKeepsLinked(c, s, k, c.p.arch.fbpReg, w);
    SetSlotKeepsInv(c, s, k, c.p.arch.fbpReg, w, fixups, k + 1, 0);
    SetSlotKeepsSlot(c.p, s, k, c.p.arch.fbpReg, w, k, c.p.arch.RetReg());
    ReadOwnWrite(s.mem, c.p.FbpSlot(k), w);
  }
}
