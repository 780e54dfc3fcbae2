/** begin.c and end.c: descriptors of archives and of their members, which may be archives
    themselves, and the reference counts that keep an archive's image while members share it. */
module Archive {
  import opened Sequences

  /** sizeof(struct ar_hdr) */
  const AR_HDR := 60

  /** Length of the magic string at the start of an archive. */
  const SARMAG := 8

  datatype Command = Read | RdWr

  /** What _elf_arhdr makes of the header at an archive's current offset: nothing, if it is
      malformed or cut off. */
  datatype Header = NoHeader | Member(size: nat, isAr: bool)

  class Elf {
    const parent: Elf?
    const base: nat
    /** e_kind is ELF_K_AR */
    const isAr: bool
    const readable: bool
    const writable: bool
    const next: nat
    var count: nat
    var off: nat
    var members: Elf?
    var link: Elf?
    /** The members list, the handles the program holds, and how deep the descriptor is nested. */
    ghost var kids: seq<Elf>
    ghost var handles: nat
    ghost const depth: nat

    constructor (parent: Elf?, base: nat, isAr: bool, readable: bool, writable: bool, next: nat, link: Elf?)
      ensures this.parent == parent && this.base == base && this.isAr == isAr
      ensures this.readable == readable && this.writable == writable
      ensures this.next == next && this.link == link && count == 1 && members == null && off == (if isAr then 8 else 0)
      ensures kids == [] && handles == 1 && depth == if parent == null then 0 else parent.depth + 1
    {
      this.parent, this.base, this.isAr, this.next, this.link := parent, base, isAr, next, link;
      this.readable, this.writable := readable, writable;
      count, off, members, kids, handles := 1, if isAr then SARMAG else 0, null, [], 1;
      depth := if parent == null then 0 else parent.depth + 1;
    }
  }

  ghost function At(s: seq<Elf>, k: int): Elf? {
    if 0 <= k < |s| then s[k] else null
  }

  /** Element k of a members list: it leads to the next, and knows its archive. */
  ghost predicate MemberOk(e: Elf, k: nat)
    requires k < |e.kids|
    reads e`kids, e.kids`link
  {
    e.kids[k].link == At(e.kids, k + 1) && e.kids[k].parent == e
  }

  /** The members list of e, without duplicates. */
  ghost predicate ListOk(e: Elf)
    reads e`members, e`kids, e.kids`link
  {
    && e.members == At(e.kids, 0)
    && (forall k {:trigger MemberOk(e, k)} | 0 <= k < |e.kids| :: MemberOk(e, k))
    && (forall i, j | 0 <= i < |e.kids| && 0 <= j < |e.kids| && e.kids[i].base == e.kids[j].base :: i == j)
  }

  /** One descriptor among the open ones: its count is that of its handles and listed members (and
      of `extra` references about to be dropped), and the archive it came from is still open. */
  ghost predicate NodeOk(e: Elf, open: set<Elf>, extra: nat)
    requires e in open
    reads open
  {
    && (forall k | 0 <= k < |e.kids| :: e.kids[k] in open)
    && (e.parent != null ==> e.parent in open && e in e.parent.kids && e.depth == e.parent.depth + 1)
    && e.count == e.handles + |e.kids| + extra && e.count > 0
    && ListOk(e) && (e.kids != [] ==> e.isAr)
  }

  /** Every open descriptor is right, except that a reference to `dropping` is about to go. */
  ghost predicate World(open: set<Elf>, dropping: Elf?)
    reads open
  {
    forall e {:trigger e in open} | e in open :: NodeOk(e, open, if e == dropping then 1 else 0)
  }

  /** The program's handles and the archives' images. */
  class Library {
    /** Descriptors that have not been released. */
    ghost var open: set<Elf>

    ghost predicate Valid()
      reads this, open
    {
      World(open, null)
    }

    constructor ()
      ensures Valid() && open == {}
    {
      open := {};
    }

    /** elf_begin on a file, or elf_memory: a descriptor of its own. */
    method Begin(isAr: bool, readable: bool, writable: bool) returns (elf: Elf)
      requires Valid()
      modifies this
      ensures Valid() && fresh(elf) && open == old(open) + {elf}
      ensures elf.handles == 1 && elf.count == 1 && elf.parent == null && elf.isAr == isAr
    {
      elf := new Elf(null, 0, isAr, readable, writable, 0, null);
      ghost var before := open;
      open := open + {elf};
      forall e | e in open
        ensures NodeOk(e, open, 0)
      {
        if e in before {
          assert old(NodeOk(e, before, 0));
        }
      }
    }

    /** elf_begin with a reference descriptor: another handle on it, or, if it is an archive, a
        handle on the member at its current offset, which is shared if it is open already.
        `sameFile`: the archive is in memory, or it was opened on the same file descriptor. */
    method BeginRef(cmd: Command, ref: Elf, sameFile: bool, header: Header) returns (elf: Elf?)
      requires Valid() && ref in open
      modifies this, open
      ensures Valid() && old(open) <= open
      ensures elf == null <==>
                || !ref.readable || (cmd.RdWr? && (!ref.writable || ref.isAr))
                || (ref.isAr && (!sameFile || header.NoHeader?))
      ensures elf == null ==> open == old(open) && forall e | e in open :: e.handles == old(e.handles)
      ensures elf != null ==>
                && elf in open && elf.handles == (if elf in old(open) then old(elf.handles) + 1 else 1)
                && (forall e | e in old(open) && e != elf :: e.handles == old(e.handles))
                && (!ref.isAr ==> elf == ref)
                && (ref.isAr ==> elf in ref.kids && elf.base == ref.base + old(ref.off) + 60)
                && (elf !in old(open) ==> elf.isAr == header.isAr && ref.off == old(ref.off) + 60 + header.size + header.size % 2)
      ensures elf == null || elf in old(open) ==> ref.off == old(ref.off)
    {
      if !ref.readable || (cmd.RdWr? && !ref.writable) {
        return null;
      }
      if !ref.isAr {
        Share(ref);
        return ref;
      }
      if cmd.RdWr? || !sameFile || header.NoHeader? {
        return null;
      }
      var base := ref.base + ref.off + AR_HDR;
      assert NodeOk(ref, open, 0);
      elf := FindMember(ref, base);
      if elf != null {
        Share(elf);
      } else {
        elf := AddMember(ref, base, header.size, header.isAr);
      }
    }

    /** One more handle on an open descriptor. */
    method Share(elf: Elf)
      requires Valid() && elf in open
      modifies elf`count, elf`handles
      ensures Valid() && elf.handles == old(elf.handles) + 1
    {
      elf.count := elf.count + 1;
      elf.handles := elf.handles + 1;
      forall e | e in open
        ensures NodeOk(e, open, 0)
      {
        assert old(NodeOk(e, open, 0));
        forall k | 0 <= k < |e.kids|
          ensures MemberOk(e, k)
        {
          assert old(MemberOk(e, k));
        }
      }
    }

    /** The scan of the open members for a duplicate. */
    method FindMember(ref: Elf, base: nat) returns (elf: Elf?)
      requires ListOk(ref)
      ensures elf != null ==> elf in ref.kids && elf.base == base
      ensures elf == null ==> forall k | 0 <= k < |ref.kids| :: ref.kids[k].base != base
    {
      elf := ref.members;
      ghost var k := 0;
      while elf != null
        invariant k <= |ref.kids| && elf == At(ref.kids, k)
        invariant forall j | 0 <= j < k :: ref.kids[j].base != base
        decreases |ref.kids| - k
      {
        assert MemberOk(ref, k);
        if elf.base == base {
          return;
        }
        elf := elf.link;
        k := k + 1;
      }
    }

    /** A member that is not open yet goes to the front of its archive's list, and keeps the
        archive open. */
    method AddMember(ref: Elf, base: nat, size: nat, kind: bool) returns (elf: Elf)
      requires Valid() && ref in open && ref.isAr
      requires forall k | 0 <= k < |ref.kids| :: ref.kids[k].base != base
      modifies this, ref`members, ref`count, ref`off, ref`kids
      ensures Valid() && fresh(elf) && open == old(open) + {elf} && elf.handles == 1
      ensures elf.base == base && ref.kids == [elf] + old(ref.kids) && elf.isAr == kind
      ensures ref.off == old(ref.off) + AR_HDR + size + size % 2
    {
      hide MemberOk, ListOk;
      elf := new Elf(ref, base, kind, true, false, ref.off + AR_HDR + size + size % 2, ref.members);
      assert NodeOk(ref, open, 0) && elf !in ref.kids;
      NoMembers(elf);
      ghost var before := open;
      Prepend(ref, elf);
      open := before + {elf};
      forall e | e in before && e != ref
        ensures NodeOk(e, open, 0)
      {
        assert old(NodeOk(e, before, 0));
      }
    }

    lemma NoMembers(elf: Elf)
      requires elf.kids == [] && elf.members == null
      ensures ListOk(elf)
    {
    }

    /** The parent/child linking. */
    method Prepend(ref: Elf, elf: Elf)
      requires ListOk(ref) && elf != ref && elf !in ref.kids && elf.link == ref.members && elf.parent == ref
      requires forall k | 0 <= k < |ref.kids| :: ref.kids[k].base != elf.base
      modifies ref`members, ref`count, ref`off, ref`kids
      ensures ListOk(ref) && ref.kids == [elf] + old(ref.kids) && ref.count == old(ref.count) + 1 && ref.off == elf.next
    {
      ref.members := elf;
      ref.count := ref.count + 1;
      ref.off := elf.next;
      ref.kids := [elf] + ref.kids;
      forall k | 0 <= k < |ref.kids|
        ensures MemberOk(ref, k)
      {
        if k > 0 {
          assert old(MemberOk(ref, k - 1));
        }
      }
    }

    /** elf_end: the program gives up a handle. */
    method End(elf: Elf) returns (count: nat)
      requires Valid() && elf in open && elf.handles > 0
      modifies this, open
      ensures Valid() && open <= old(open)
      ensures forall e | e in old(open) :: e.handles == if e == elf then old(e.handles) - 1 else old(e.handles)
      ensures forall e | e in old(open) && e.handles > 0 :: e in open
      ensures count == 0 <==> elf !in open
    {
      elf.handles := elf.handles - 1;
      forall e | e in open
        ensures NodeOk(e, open, if e == elf then 1 else 0)
      {
        assert old(NodeOk(e, open, 0));
        forall k | 0 <= k < |e.kids|
          ensures MemberOk(e, k)
        {
          assert old(MemberOk(e, k));
        }
      }
      count := Release(elf);
    }

    /** elf_end from the decrement on: a descriptor without references goes, and with it its
        reference to the archive it came from. */
    method Release(elf: Elf) returns (count: nat)
      requires World(open, elf) && elf in open
      modifies this, open
      ensures World(open, null) && open <= old(open)
      ensures forall e | e in old(open) :: e.handles == old(e.handles)
      ensures forall e | e in old(open) && e.handles > 0 :: e in open
      ensures count == 0 <==> elf !in open
      decreases elf.depth
    {
      ghost var before := open;
      assert NodeOk(elf, before, 1);
      Decrement(elf);
      if elf.count != 0 {
        return elf.count;
      }
      if elf.parent == null {
        DropFile(elf);
      } else {
        DropMember(elf.parent, elf);
        var _ := Release(elf.parent);
      }
      count := 0;
    }

    method Decrement(elf: Elf)
      requires World(open, elf) && elf in open
      modifies elf`count
      ensures elf.count == old(elf.count) - 1 && AllButOne(elf)
      ensures elf.count != 0 ==> World(open, null)
    {
      elf.count := elf.count - 1;
      forall e | e in open && (e != elf || elf.count != 0)
        ensures NodeOk(e, open, 0)
      {
        assert old(NodeOk(e, open, if e == elf then 1 else 0));
        forall k | 0 <= k < |e.kids|
          ensures MemberOk(e, k)
        {
          assert old(MemberOk(e, k));
        }
      }
    }

    ghost predicate AllButOne(elf: Elf)
      reads this, open
    {
      forall e {:trigger e in open} | e in open && e != elf :: NodeOk(e, open, 0)
    }

    /** A descriptor that is no member is freed. */
    method DropFile(elf: Elf)
      requires elf in open && elf.kids == [] && elf.parent == null && AllButOne(elf)
      modifies this`open
      ensures open == old(open) - {elf} && World(open, null)
    {
      ghost var before := open;
      open := open - {elf};
      forall e | e in open
        ensures NodeOk(e, open, 0)
      {
        assert old(NodeOk(e, before, 0));
        forall k | 0 <= k < |e.kids|
          ensures e.kids[k] in open
        {
          assert MemberOk(e, k);
        }
      }
    }

    /** A member leaves the list of its archive and is freed; the archive has one reference more
        than it should until elf_end has been called on it, too. */
    method DropMember(ar: Elf, elf: Elf)
      requires elf in open && elf.kids == [] && elf.parent == ar && AllButOne(elf)
      requires ar in open && elf in ar.kids && elf != ar
      modifies this`open, ar`members, ar`kids, ar.kids`link
      ensures open == old(open) - {elf} && World(open, ar)
      ensures forall e | e in old(open) :: e.handles == old(e.handles)
    {
      ghost var before, kids := open, ar.kids;
      assert NodeOk(ar, before, 0);
      ghost var i: nat :| i < |kids| && kids[i] == elf;
      forall k | 0 <= k < |kids|
        ensures kids[k].parent == ar
      {
        assert MemberOk(ar, k);
      }
      open := open - {elf};
      Unlink(ar, elf, i);
      forall e | e in open
        ensures NodeOk(e, open, if e == ar then 1 else 0)
      {
        assert old(NodeOk(e, before, 0));
        if e == ar {
          ArchiveLeft(ar, kids, i, before);
        } else {
          forall k | 0 <= k < |e.kids|
            ensures MemberOk(e, k) && e.kids[k] in open
          {
            assert old(MemberOk(e, k));
          }
        }
      }
    }

    lemma ArchiveLeft(ar: Elf, kids: seq<Elf>, i: nat, before: set<Elf>)
      requires i < |kids| && ListOk(ar) && ar.kids == Without(kids, i)
      requires forall k | 0 <= k < |kids| :: kids[k] in before
      requires forall j, k | 0 <= j < |kids| && 0 <= k < |kids| && kids[j].base == kids[k].base :: j == k
      ensures forall k | 0 <= k < |ar.kids| :: ar.kids[k] in before - {kids[i]}
    {
      forall k | 0 <= k < |ar.kids|
        ensures ar.kids[k] in before - {kids[i]}
      {
        var o := if k < i then k else k + 1;
        assert ar.kids[k] == kids[o];
        assert o != i && (kids[o].base == kids[i].base ==> o == i);
      }
    }

    /** The walk along the members list up to the pointer to elf. */
    method Unlink(ar: Elf, elf: Elf, ghost i: nat)
      requires ListOk(ar) && i < |ar.kids| && ar.kids[i] == elf
      modifies ar`members, ar`kids, ar.kids`link
      ensures ListOk(ar) && ar.kids == Without(old(ar.kids), i)
    {
      assert MemberOk(ar, i) && ar.kids[0].base == ar.members.base;
      assert ar.members == elf ==> i == 0;
      if ar.members == elf {
        ar.members := elf.link;
      } else {
        var prev := ar.members;
        ghost var k := 0;
        while prev.link != elf
          invariant k < i && prev == ar.kids[k]
          decreases i - k
        {
          assert MemberOk(ar, k) && MemberOk(ar, k + 1);
          prev := prev.link;
          k := k + 1;
        }
        assert MemberOk(ar, k);
        prev.link := elf.link;
      }
      ghost var kids := ar.kids;
      ar.kids := Without(kids, i);
      forall k | 0 <= k < |ar.kids|
        ensures MemberOk(ar, k)
      {
        assert old(MemberOk(ar, if k < i then k else k + 1));
        assert old(MemberOk(ar, i));
      }
    }
  }

  /** The archive n levels up. */
  ghost function Up(e: Elf, n: nat): Elf? {
    if n == 0 then e
    else
      var up := Up(e, n - 1);
      if up == null then null else up.parent
  }

  /** No archive is released while a member is open, however deeply nested; and open members of an
      archive are different members. */
  lemma {:induction false} AncestorsOpen(lib: Library, e: Elf, n: nat)
    requires lib.Valid() && e in lib.open
    ensures Up(e, n) != null ==> Up(e, n) in lib.open && Up(e, n).count > 0
    ensures Up(e, n) != null && n > 0 ==> Up(e, n).isAr && Up(e, n).count >= 1 + Up(e, n).handles
  {
    assert NodeOk(e, lib.open, 0);
    if n > 0 {
      AncestorsOpen(lib, e, n - 1);
      var below := Up(e, n - 1);
      if below != null && below.parent != null {
        assert NodeOk(below, lib.open, 0) && NodeOk(below.parent, lib.open, 0);
      }
    }
  }

  /** A descriptor's count is the number of its handles and listed members, and the members listed
      have different bases. */
  lemma CountsHandlesAndMembers(lib: Library, e: Elf, i: nat, j: nat)
    requires lib.Valid() && e in lib.open
    ensures e.count == e.handles + |e.kids|
    ensures i < j < |e.kids| ==> e.kids[i].base != e.kids[j].base && e.kids[i] in lib.open && e.kids[i].parent == e
  {
    assert NodeOk(e, lib.open, 0);
    if i < j < |e.kids| {
      assert MemberOk(e, i);
    }
  }

  /** When the program has given up all its handles, everything has been released. */
  lemma AllReleased(lib: Library)
    requires lib.Valid() && forall e | e in lib.open :: e.handles == 0
    ensures lib.open == {}
  {
    if lib.open != {} {
      var e := Deepest(lib.open);
      MemberDeeper(lib, e);
    }
  }

  lemma MemberDeeper(lib: Library, e: Elf)
    requires lib.Valid() && e in lib.open && e.handles == 0
    ensures exists d | d in lib.open :: d.depth > e.depth
  {
    assert NodeOk(e, lib.open, 0);
    assert MemberOk(e, 0) && NodeOk(e.kids[0], lib.open, 0);
  }

  lemma {:induction false} Deepest(s: set<Elf>) returns (e: Elf)
    requires s != {}
    ensures e in s && forall d | d in s :: d.depth <= e.depth
  {
    e :| e in s;
    if s != {e} {
      assert s - {e} != {};
      var d := Deepest(s - {e});
      if d.depth > e.depth {
        e := d;
      }
    }
  }
}
