/** What a laid-out object is, field by field and in the numbers of the System V gABI; and that this is
    what the layouts of update.c make. */
module LayoutLaws {
  import opened Arithmetic
  import opened Bytes
  import opened Records
  import opened Layout
  import opened Placement

  // ---------- automatic layout ----------

  /** x is the first place at or after `from` that is a multiple of a, where 0 and 1 ask for nothing. */
  predicate LeastMultiple(x: nat, from: nat, a: nat) {
    if a <= 1 then x == from else from <= x < from + a && x % a == 0
  }

  /** Sizes of the records of typed sections. */
  function RecordSize(c: Class, shtype: nat): nat {
    match shtype
    case 2 => if c.Class32? then 16 else 24             // SYMTAB
    case 4 => if c.Class32? then 12 else 24             // RELA
    case 5 => 4                                         // HASH
    case 6 => if c.Class32? then 8 else 16              // DYNAMIC
    case 9 => if c.Class32? then 8 else 16              // REL
    case 11 => if c.Class32? then 16 else 24            // DYNSYM
    case 18 => 4                                        // SYMTAB_SHNDX
    case 0x6fff_ffff => 2                               // GNU_versym
    case _ => 0
  }

  /** What a buffer takes up in a section of this type: 8 is NOBITS. */
  function Taken(b: Buf, shtype: nat): nat {
    if b.size != 0 && shtype != 8 then |b.image| else b.size
  }

  /** Each buffer starts at the first place after the one before that it is aligned for. */
  predicate BufPlaced(bufs: seq<Buf>, shtype: nat, b: nat)
    requires b < |bufs|
  {
    LeastMultiple(bufs[b].off, if b == 0 then 0 else bufs[b - 1].off + Taken(bufs[b - 1], shtype), bufs[b].align)
  }

  function LastEnd(bufs: seq<Buf>, shtype: nat): nat {
    if bufs == [] then 0 else bufs[|bufs| - 1].off + Taken(bufs[|bufs| - 1], shtype)
  }

  /** a is the largest alignment of the buffers, or 1. */
  predicate LargestAlign(a: nat, bufs: seq<Buf>) {
    && a >= 1 && (forall b | b in bufs :: b.align <= a)
    && (a == 1 || exists b | b in bufs :: b.align == a)
  }

  /** Section s has become r, where everything before it in the file ends at `from`. */
  predicate ScnPlaced(c: Class, s: Scn, r: Scn, from: nat) {
    && r.shdr == s.shdr.(entsize := r.shdr.entsize, offset := r.shdr.offset, size := r.shdr.size, addralign := r.shdr.addralign)
    && r.shdr.entsize == (if s.shdr.entsize != 0 then s.shdr.entsize else RecordSize(c, s.shdr.shtype))
    && LargestAlign(r.shdr.addralign, s.bufs)
    && LeastMultiple(r.shdr.offset, from, r.shdr.addralign)
    && r.shdr.size == LastEnd(r.bufs, s.shdr.shtype) % (if c.Class32? then 0x1_0000_0000 else 0x1_0000_0000_0000_0000)
    && |r.bufs| == |s.bufs|
    && forall b: nat | b < |r.bufs| :: r.bufs[b] == s.bufs[b].(off := r.bufs[b].off) && BufPlaced(r.bufs, s.shdr.shtype, b)
  }

  /** Where the parts before section k end: the header, the program headers, and the sections, of which
      those without bits (type 8) end where they start. */
  function EndBefore(r: Object, k: nat): nat
    requires k <= |r.scns|
  {
    if k == 0 then
      if r.cls.Class32? then 52 + |r.phdrs| * 32 else 64 + |r.phdrs| * 56
    else
      var s := r.scns[k - 1].shdr;
      if k == 1 || s.shtype == 0 then EndBefore(r, k - 1) else s.offset + if s.shtype == 8 then 0 else s.size
  }

  /** Section k of o has become section k of r. */
  predicate PlacedAt(o: Object, r: Object, k: nat)
    requires k < |o.scns| == |r.scns|
  {
    var s, t := o.scns[k], r.scns[k];
    if k == 0 then t == s.(shdr := FirstOf(o, s.shdr.(offset := 0, size := 0, addralign := 0)))
    else if s.shdr.shtype == 0 then t == s
    else ScnPlaced(o.cls, s, t, EndBefore(r, k))
  }

  /** The first section header: it keeps counts that the ELF header has no room for. */
  function FirstOf(o: Object, s: Shdr): Shdr {
    s.(entsize := 0, size := if |o.scns| >= 0xff00 then |o.scns| else s.size,
       info := if |o.phdrs| >= 0xffff then |o.phdrs| else s.info)
  }

  /** The ELF header apart from the places of the two tables. */
  predicate HeaderIs(o: Object, h: Ehdr, native: byte)
    requires |o.ehdr.ident| == 16
  {
    && |h.ident| == 16 && h.ident[7..] == o.ehdr.ident[7..]
    && h.ident[0] == 0x7f && h.ident[1] == 0x45 && h.ident[2] == 0x4c && h.ident[3] == 0x46
    && h.ident[4] == (if o.cls.Class32? then 1 else 2) && h.ident[6] == 1 && h.version == 1
    && h.ident[5] == (if o.ehdr.ident[5] == 0 then native else o.ehdr.ident[5])
    && h.etype == o.ehdr.etype && h.machine == o.ehdr.machine && h.entry == o.ehdr.entry && h.flags == o.ehdr.flags
    && h.shstrndx == o.ehdr.shstrndx
    && h.ehsize == (if o.cls.Class32? then 52 else 64)
    && h.phnum == (if |o.phdrs| >= 0xffff then 0xffff else |o.phdrs|)
    && h.phentsize == (if o.phdrs == [] then 0 else if o.cls.Class32? then 32 else 56)
    && h.shnum == (if |o.scns| >= 0xff00 then 0 else |o.scns|)
    && h.shentsize == (if o.scns == [] then 0 else if o.cls.Class32? then 40 else 64)
  }

  /** r is o with every part in its place, and len the length of its file. */
  ghost predicate LaidOut(o: Object, r: Object, native: byte, len: nat)
    requires |o.ehdr.ident| == 16
  {
    && r.cls == o.cls && r.phdrs == o.phdrs && |r.scns| == |o.scns| && HeaderIs(o, r.ehdr, native)
    && r.ehdr.phoff == (if o.phdrs == [] then 0 else if o.cls.Class32? then 52 else 64)
    && (forall k: nat | k < |o.scns| :: PlacedAt(o, r, k))
    && (if o.scns == [] then r.ehdr.shoff == 0 && len == EndBefore(r, 0)
        else LeastMultiple(r.ehdr.shoff, EndBefore(r, |r.scns|), if o.cls.Class32? then 4 else 8)
             && len == r.ehdr.shoff + |o.scns| * if o.cls.Class32? then 40 else 64)
  }

  lemma AlignsUp(v: nat, a: nat, x: nat)
    ensures LeastMultiple(x, v, a) <==> x == AlignUp(v, a)
  {
    AlignedUp(v, a);
    if a > 1 && LeastMultiple(x, v, a) {
      OneMultiple(x, AlignUp(v, a), a);
    }
  }

  /** Two multiples less than one step apart are the same. */
  lemma OneMultiple(x: nat, y: nat, a: nat)
    requires a > 1 && x % a == 0 && y % a == 0 && x < y + a && y < x + a
    ensures x == y
  {
    var p, q := x / a, y / a;
    assert x == a * p && y == a * q;
    if p > q {
      AtLeastOnce(a, p - q);
      Distribute(a, p, q);
    } else if q > p {
      AtLeastOnce(a, q - p);
      Distribute(a, p, q);
    }
  }

  lemma EntsizeIs(c: Class, shtype: nat)
    ensures ScnEntsize(c, shtype) == RecordSize(c, shtype)
  {
  }

  lemma {:induction false} AlignIs(bufs: seq<Buf>, k: nat, a: nat)
    requires k <= |bufs|
    ensures LargestAlign(a, bufs[..k]) <==> a == AlignAt(bufs, k)
  {
    if k > 0 {
      var m := AlignAt(bufs, k - 1);
      AlignIs(bufs, k - 1, m);
      var b := bufs[k - 1];
      assert bufs[..k] == bufs[..k - 1] + [b];
      assert b in bufs[..k];
      assert LargestAlign(AlignAt(bufs, k), bufs[..k]);
    }
  }

  /** The buffers of a section, as the library places them. */
  lemma {:induction false} BufOffIs(bufs: seq<Buf>, r: seq<Buf>, shtype: nat, b: nat)
    requires |r| == |bufs| && b < |bufs| && forall j: nat | j <= b :: r[j] == bufs[j].(off := r[j].off) && BufPlaced(r, shtype, j)
    ensures r[b].off == BufOff(bufs, shtype == 8, b)
    ensures r[b].off + Taken(r[b], shtype) == LenAt(bufs, shtype == 8, b + 1)
  {
    hide AlignUp, LeastMultiple;
    assert BufPlaced(r, shtype, b);
    if b > 0 {
      BufOffIs(bufs, r, shtype, b - 1);
    }
    AlignsUp(LenAt(bufs, shtype == 8, b), bufs[b].align, r[b].off);
  }

  lemma NoBufs(bufs: seq<Buf>, nobits: bool)
    ensures LenAt(bufs, nobits, 0) == 0
  {
  }

  lemma LaidBufPlaced(bufs: seq<Buf>, shtype: nat, b: nat)
    requires b < |bufs|
    ensures BufPlaced(LaidBufs(bufs, shtype == 8), shtype, b)
  {
    hide LeastMultiple, AlignUp;
    AlignsUp(LenAt(bufs, shtype == 8, b), bufs[b].align, LaidBufs(bufs, shtype == 8)[b].off);
  }

  lemma BufsAre(bufs: seq<Buf>, r: seq<Buf>, shtype: nat)
    requires |r| == |bufs|
    ensures (forall b: nat | b < |r| :: r[b] == bufs[b].(off := r[b].off) && BufPlaced(r, shtype, b))
            <==> r == LaidBufs(bufs, shtype == 8)
    ensures r == LaidBufs(bufs, shtype == 8) ==> LastEnd(r, shtype) == LenAt(bufs, shtype == 8, |bufs|)
  {
    hide BufPlaced, Taken, LenAt, BufOff;
    var l := LaidBufs(bufs, shtype == 8);
    forall b: nat | b < |l|
      ensures l[b] == bufs[b].(off := l[b].off) && BufPlaced(l, shtype, b)
    {
      LaidBufPlaced(bufs, shtype, b);
    }
    if forall b: nat | b < |r| :: r[b] == bufs[b].(off := r[b].off) && BufPlaced(r, shtype, b) {
      forall b: nat | b < |r|
        ensures r[b] == l[b]
      {
        BufOffIs(bufs, r, shtype, b);
      }
      assert r == l;
    }
    NoBufs(bufs, shtype == 8);
    if r == l && r != [] {
      BufOffIs(bufs, r, shtype, |r| - 1);
    }
  }

  /** Places in the file fit their fields. */
  lemma PlacesFit(o: Object, k: nat)
    requires Length(o) < Limit(Wide(o.cls)) && k < |o.scns| && !Skipped(k, o.scns[k])
    ensures Trunc(o.cls, ScnOff(o, k)) == ScnOff(o, k) && Trunc(o.cls, ScnAlign(o.scns[k])) == ScnAlign(o.scns[k])
    ensures !Nobits(o.scns[k]) ==> Trunc(o.cls, DataLen(o.scns[k])) == DataLen(o.scns[k])
  {
    LengthBounds(o);
    ScnBounds(o, k);
    AlignPositive(o.scns[k].bufs, |o.scns[k].bufs|);
    AtLeastAlign(OffAt(o, k), ScnAlign(o.scns[k]));
    TruncSmall(o.cls, ScnOff(o, k));
    TruncSmall(o.cls, ScnAlign(o.scns[k]));
    if !Nobits(o.scns[k]) {
      TruncSmall(o.cls, DataLen(o.scns[k]));
    }
  }

  lemma AtLeastAlign(v: nat, a: nat)
    requires v > 0 && a > 0
    ensures AlignUp(v, a) >= a
  {
    AlignedUp(v, a);
    var q := AlignUp(v, a) / a;
    assert AlignUp(v, a) == a * q;
    AtLeastOnce(a, q);
  }

  /** One section. */
  lemma ScnIs(o: Object, k: nat, t: Scn)
    requires Length(o) < Limit(Wide(o.cls)) && k < |o.scns| && !Skipped(k, o.scns[k])
    ensures ScnPlaced(o.cls, o.scns[k], t, OffAt(o, k)) <==> t == LaidScn(o, k)
  {
    hide LeastMultiple, AlignUp, LargestAlign, BufPlaced, LenAt, BufOff, AlignAt, Length;
    var s := o.scns[k];
    PlacesFit(o, k);
    EntsizeIs(o.cls, s.shdr.shtype);
    AlignIs(s.bufs, |s.bufs|, t.shdr.addralign);
    assert s.bufs[..|s.bufs|] == s.bufs;
    AlignsUp(OffAt(o, k), ScnAlign(s), t.shdr.offset);
    if |t.bufs| == |s.bufs| {
      BufsAre(s.bufs, t.bufs, s.shdr.shtype);
    }
  }

  lemma {:induction false} EndIs(o: Object, r: Object, k: nat)
    requires Length(o) < Limit(Wide(o.cls)) && r.cls == o.cls && |r.phdrs| == |o.phdrs| && k <= |o.scns| == |r.scns|
    requires forall j | 0 <= j < k :: r.scns[j] == LaidScn(o, j)
    ensures EndBefore(r, k) == OffAt(o, k)
  {
    hide AlignUp, LenAt, ScnOff, AlignAt, Length;
    if k == 0 {
      TableEndIs(o);
    } else {
      EndIs(o, r, k - 1);
      if !Skipped(k - 1, o.scns[k - 1]) {
        PlacesFit(o, k - 1);
      }
    }
  }

  lemma TableEndIs(o: Object)
    ensures TableEnd(o) == if o.cls.Class32? then 52 + |o.phdrs| * 32 else 64 + |o.phdrs| * 56
    ensures o.phdrs != [] ==> PhOff(o) == if o.cls.Class32? then 52 else 64
  {
  }

  lemma FirstIs(o: Object)
    requires o.scns != []
    ensures LaidScn(o, 0) == o.scns[0].(shdr := FirstOf(o, o.scns[0].shdr.(offset := 0, size := 0, addralign := 0)))
    ensures UserScn(o, 0) == o.scns[0].(shdr := FirstOf(o, o.scns[0].shdr))
  {
  }

  /** Section k is placed exactly if it is what the layout makes of it, those before it being so. */
  lemma PlacedIs(o: Object, r: Object, k: nat)
    requires Length(o) < Limit(Wide(o.cls)) && r.cls == o.cls && |r.phdrs| == |o.phdrs| && k < |o.scns| == |r.scns|
    requires forall j | 0 <= j < k :: r.scns[j] == LaidScn(o, j)
    ensures PlacedAt(o, r, k) <==> r.scns[k] == LaidScn(o, k)
  {
    hide ScnPlaced, EndBefore, FirstOf, FirstShdr, Length, OffAt, ScnOff;
    EndIs(o, r, k);
    if k == 0 {
      FirstIs(o);
    } else if !Skipped(k, o.scns[k]) {
      ScnIs(o, k, r.scns[k]);
    }
  }

  lemma {:induction false} AllPlacedIs(o: Object, r: Object, n: nat)
    requires Length(o) < Limit(Wide(o.cls)) && r.cls == o.cls && |r.phdrs| == |o.phdrs| && n <= |o.scns| == |r.scns|
    ensures (forall k: nat | k < n :: PlacedAt(o, r, k)) <==> forall k | 0 <= k < n :: r.scns[k] == LaidScn(o, k)
  {
    hide PlacedAt, LaidScn, Length, Limit, Wide;
    if n > 0 {
      AllPlacedIs(o, r, n - 1);
      if forall k | 0 <= k < n - 1 :: r.scns[k] == LaidScn(o, k) {
        PlacedIs(o, r, n - 1);
      }
    }
  }

  lemma HeaderOf(o: Object, h: Ehdr, native: byte)
    requires o.Ok()
    ensures HeaderIs(o, h, native) <==> h == CountedEhdr(o, native).(phoff := h.phoff, shoff := h.shoff)
  {
    var c := CountedEhdr(o, native);
    if HeaderIs(o, h, native) {
      assert h.ident == h.ident[..7] + h.ident[7..];
      assert h.ident[..7] == c.ident[..7];
      assert c.ident == c.ident[..7] + c.ident[7..];
    }
  }

  /** As long as the file's length fits the class, the laid-out object is the one that automatic
      layout makes, and no other. */
  lemma AutoLayout(o: Object, r: Object, native: byte, len: nat)
    requires o.Ok() && Length(o) < Limit(Wide(o.cls))
    ensures LaidOut(o, r, native, len) <==> r == Laid(o, native) && len == Length(o)
  {
    hide HeaderIs, CountedEhdr, PlacedAt, LaidScn, LeastMultiple, OffAt, EndBefore, AlignUp;
    LengthBounds(o);
    TableEndIs(o);
    HeaderOf(o, r.ehdr, native);
    TruncSmall(o.cls, PhOff(o));
    TruncSmall(o.cls, ShOff(o));
    if r.cls == o.cls && |r.phdrs| == |o.phdrs| && |r.scns| == |o.scns| {
      AllPlacedIs(o, r, |o.scns|);
      assert (forall k | 0 <= k < |o.scns| :: r.scns[k] == LaidScn(o, k)) <==> r.scns == LaidScns(o);
      if r.scns == LaidScns(o) {
        EndIs(o, r, |o.scns|);
        EndIs(o, r, 0);
        AlignsUp(OffAt(o, |o.scns|), AddrSize(o.cls), r.ehdr.shoff);
      }
    }
  }

  // ---------- layout by the program ----------

  /** Where a section ends in the file; the sum of 64 bits wraps around. */
  function FileEnd(s: Shdr): nat {
    if s.shtype == 8 then s.offset else (s.offset + s.size) % 0x1_0000_0000_0000_0000
  }

  predicate IsSection(o: Object, k: nat) {
    0 < k < |o.scns| && o.scns[k].shdr.shtype != 0
  }

  /** The length of the file is the largest of the ends of its parts. */
  ghost predicate LargestEnd(o: Object, len: nat) {
    var header := if o.cls.Class32? then 52 else 64;
    var phEnd := o.ehdr.phoff + |o.phdrs| * if o.cls.Class32? then 32 else 56;
    var shEnd := o.ehdr.shoff + |o.scns| * if o.cls.Class32? then 40 else 64;
    && len >= header && (o.phdrs != [] ==> len >= phEnd) && (o.scns != [] ==> len >= shEnd)
    && (forall k: nat | IsSection(o, k) :: FileEnd(o.scns[k].shdr) <= len)
    && (|| len == header || (o.phdrs != [] && len == phEnd) || (o.scns != [] && len == shEnd)
        || exists k: nat :: IsSection(o, k) && FileEnd(o.scns[k].shdr) == len)
  }

  /** Of the sections only their record sizes change, and the first one's counts. */
  predicate KeptAt(o: Object, r: Object, k: nat)
    requires k < |o.scns| == |r.scns|
  {
    var s := o.scns[k];
    r.scns[k] == if k == 0 then s.(shdr := FirstOf(o, s.shdr))
                 else if s.shdr.shtype == 0 || s.shdr.entsize != 0 then s
                 else s.(shdr := s.shdr.(entsize := RecordSize(o.cls, s.shdr.shtype)))
  }

  ghost predicate UserLaidOut(o: Object, r: Object, native: byte, len: nat)
    requires |o.ehdr.ident| == 16
  {
    && r.cls == o.cls && r.phdrs == o.phdrs && |r.scns| == |o.scns| && HeaderIs(o, r.ehdr, native)
    && r.ehdr.phoff == o.ehdr.phoff && r.ehdr.shoff == o.ehdr.shoff
    && (forall k: nat | k < |o.scns| :: KeptAt(o, r, k))
    && LargestEnd(o, len)
  }

  lemma KeptIs(o: Object, r: Object, k: nat)
    requires k < |o.scns| == |r.scns|
    ensures KeptAt(o, r, k) <==> r.scns[k] == UserScn(o, k)
  {
    hide FirstOf, FirstShdr, ScnEntsize, RecordSize;
    EntsizeIs(o.cls, o.scns[k].shdr.shtype);
    if k == 0 {
      FirstIs(o);
    }
  }

  /** The running maximum is at or beyond the end of every section so far, and is one of the ends, or
      that of the header and the program headers. */
  lemma {:induction false} RunningEnd(o: Object, k: nat)
    requires k <= |o.scns|
    ensures UserTableEnd(o) <= UserOffAt(o, k) && forall j: nat | IsSection(o, j) && j < k :: FileEnd(o.scns[j].shdr) <= UserOffAt(o, k)
    ensures UserOffAt(o, k) == UserTableEnd(o) || exists j: nat :: IsSection(o, j) && FileEnd(o.scns[j].shdr) == UserOffAt(o, k)
  {
    if k > 0 {
      RunningEnd(o, k - 1);
      assert IsSection(o, k - 1) ==> FileEnd(o.scns[k - 1].shdr) == End(o.scns[k - 1]);
    }
  }

  lemma LengthIs(o: Object, len: nat)
    ensures LargestEnd(o, len) <==> len == UserLength(o)
  {
    hide UserOffAt;
    RunningEnd(o, |o.scns|);
    assert LargestEnd(o, UserLength(o));
  }

  lemma CountedKeeps(o: Object, native: byte)
    requires o.Ok()
    ensures CountedEhdr(o, native).phoff == o.ehdr.phoff && CountedEhdr(o, native).shoff == o.ehdr.shoff
  {
  }

  /** The same for a layout by the program. */
  lemma UserLayout(o: Object, r: Object, native: byte, len: nat)
    requires o.Ok()
    ensures UserLaidOut(o, r, native, len) <==> r == UserLaid(o, native) && len == UserLength(o)
  {
    hide HeaderIs, CountedEhdr, KeptAt, UserScn, LargestEnd, UserLength;
    HeaderOf(o, r.ehdr, native);
    CountedKeeps(o, native);
    LengthIs(o, len);
    if |r.scns| == |o.scns| {
      forall k: nat | k < |o.scns|
        ensures KeptAt(o, r, k) <==> r.scns[k] == UserScn(o, k)
      {
        KeptIs(o, r, k);
      }
      assert (forall k | 0 <= k < |o.scns| :: r.scns[k] == UserScn(o, k)) <==> r.scns == UserScns(o);
    }
  }

  // ---------- what is accepted ----------

  /** A known version and byte order, and buffers that can be translated. */
  ghost predicate Acceptable(o: Object)
    requires |o.ehdr.ident| == 16
  {
    && o.ehdr.version <= 1 && o.ehdr.ident[5] <= 2
    && forall k: nat, b: nat | IsSection(o, k) && b < |o.scns[k].bufs| :: o.scns[k].bufs[b].valid
  }

  lemma LayableIs(o: Object)
    requires o.Ok()
    ensures Layable(o) <==> Acceptable(o)
  {
    assert forall k: nat | k < |o.scns| :: IsSection(o, k) <==> !Skipped(k, o.scns[k]);
  }

  predicate Disjoint(s: Shdr, t: Shdr) {
    || s.offset + (if s.shtype == 8 then 0 else s.size) <= t.offset
    || t.offset + (if t.shtype == 8 then 0 else t.size) <= s.offset
  }

  /** A program's layout is all right if every section has room for its buffers, and no two overlap,
      unless that is allowed. */
  ghost predicate UserAcceptable(o: Object, overlap: bool)
    requires |o.ehdr.ident| == 16
  {
    && Acceptable(o)
    && (forall k: nat, b: nat | IsSection(o, k) && b < |o.scns[k].bufs| ::
          o.scns[k].bufs[b].off + Taken(o.scns[k].bufs[b], o.scns[k].shdr.shtype) <= o.scns[k].shdr.size)
    && (!overlap ==> forall j: nat, k: nat | j < k && IsSection(o, j) && IsSection(o, k) :: Disjoint(o.scns[j].shdr, o.scns[k].shdr))
  }

  lemma {:induction false} BufsFit(bufs: seq<Buf>, shtype: nat, k: nat, size: nat)
    requires k <= |bufs|
    ensures UserLenAt(bufs, shtype == 8, k) <= size <==> forall b: nat | b < k :: bufs[b].off + Taken(bufs[b], shtype) <= size
  {
    if k > 0 {
      BufsFit(bufs, shtype, k - 1, size);
    }
  }

  /** Where no end wraps around, or overlaps are allowed, exactly such layouts are accepted. */
  lemma UserAccepted(o: Object, overlap: bool)
    requires o.Ok() && (overlap || NoneWraps(o))
    ensures UserOk(o, overlap) <==> UserAcceptable(o, overlap)
  {
    hide UserOffAt, UserLenAt;
    forall k: nat | k < |o.scns|
      ensures IsSection(o, k) <==> !Skipped(k, o.scns[k])
      ensures UserLenAt(o.scns[k].bufs, Nobits(o.scns[k]), |o.scns[k].bufs|) <= o.scns[k].shdr.size
              <==> forall b: nat | b < |o.scns[k].bufs| ::
                     o.scns[k].bufs[b].off + Taken(o.scns[k].bufs[b], o.scns[k].shdr.shtype) <= o.scns[k].shdr.size
    {
      BufsFit(o.scns[k].bufs, o.scns[k].shdr.shtype, |o.scns[k].bufs|, o.scns[k].shdr.size);
    }
    if !overlap {
      UserLayoutAccepted(o);
      forall j: nat, k: nat | j < k && IsSection(o, j) && IsSection(o, k)
        ensures Disjoint(o.scns[j].shdr, o.scns[k].shdr) <==> !Overlap(o.scns[k], o.scns[j])
      {
        NoWrapEnd(o.scns[j]);
        NoWrapEnd(o.scns[k]);
      }
    }
  }
}
