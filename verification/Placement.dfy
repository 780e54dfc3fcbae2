/** What update.c's two layouts guarantee about the file, and strptr.c, which works the offsets out
    again. */
module Placement {
  import opened Arithmetic
  import opened Bytes
  import opened ElfConstants
  import opened Records
  import opened Layout

  // ---------- example objects ----------

  function Section(offset: nat, size: nat): Scn {
    Scn(Shdr(0, 1, 0, 0, offset, size, 0, 0, 0, 1), [])
  }

  const NULL_SECTION := Scn(Shdr(0, SHT_NULL, 0, 0, 0, 0, 0, 0, 0, 0), [])

  const EXAMPLE_EHDR := Ehdr([0, 0, 0, 0, 0, 0, 0, 0, 0, 0, 0, 0, 0, 0, 0, 0], 0, 0, 0, 0, 0, 0, 0, 0, 0, 0, 0, 0, 0)

  // ---------- automatic layout: disjoint, increasing ranges ----------

  lemma {:induction false} OffMonotonic(o: Object, j: nat, k: nat)
    requires j <= k <= |o.scns|
    ensures OffAt(o, j) <= OffAt(o, k)
  {
    if j < k {
      OffMonotonic(o, j, k - 1);
      AlignedUp(OffAt(o, k - 1), ScnAlign(o.scns[k - 1]));
    }
  }

  lemma LengthBounds(o: Object)
    ensures EhdrSize(o.cls) <= TableEnd(o) <= OffAt(o, |o.scns|) <= Length(o)
    ensures o.scns != [] ==> OffAt(o, |o.scns|) <= ShOff(o) <= Length(o)
    ensures o.phdrs != [] ==> EhdrSize(o.cls) <= PhOff(o) <= TableEnd(o)
  {
    OffMonotonic(o, 0, |o.scns|);
    AlignedUp(OffAt(o, |o.scns|), AddrSize(o.cls));
    AlignedUp(EhdrSize(o.cls), AddrSize(o.cls));
  }

  lemma ScnBounds(o: Object, k: nat)
    requires k < |o.scns| && !Skipped(k, o.scns[k])
    ensures TableEnd(o) <= OffAt(o, k) <= ScnOff(o, k) <= OffAt(o, k + 1) <= OffAt(o, |o.scns|)
    ensures !Nobits(o.scns[k]) ==> ScnOff(o, k) + DataLen(o.scns[k]) == OffAt(o, k + 1)
  {
    OffMonotonic(o, 0, k);
    OffMonotonic(o, k + 1, |o.scns|);
    AlignedUp(OffAt(o, k), ScnAlign(o.scns[k]));
  }

  /** A section the library places, and that takes up room in the file. */
  predicate InFile(o: Object, k: nat) {
    k < |o.scns| && !Skipped(k, o.scns[k]) && !Nobits(o.scns[k])
  }

  /** As long as the file's length fits the class, header, program header table, the sections in
      order, and the section header table follow each other without overlap. */
  lemma AutoLayoutOrdered(o: Object, native: byte, j: nat, k: nat)
    requires o.Ok() && Length(o) < Limit(Wide(o.cls)) && InFile(o, j) && InFile(o, k)
    ensures var r := Laid(o, native);
            && (o.phdrs != [] ==> EhdrSize(o.cls) <= r.ehdr.phoff
                                  && r.ehdr.phoff + |o.phdrs| * PhdrSize(o.cls) <= r.scns[k].shdr.offset)
            && EhdrSize(o.cls) <= r.scns[k].shdr.offset
            && r.scns[k].shdr.offset + r.scns[k].shdr.size <= r.ehdr.shoff
            && r.ehdr.shoff + |o.scns| * ShdrSize(o.cls) == Length(o)
            && (j < k ==> r.scns[j].shdr.offset + r.scns[j].shdr.size <= r.scns[k].shdr.offset)
  {
    LengthBounds(o);
    Stored(o, native, j);
    Stored(o, native, k);
    if j < k {
      OffMonotonic(o, j + 1, k);
    }
    if o.phdrs != [] {
      TruncSmall(o.cls, PhOff(o));
    }
    TruncSmall(o.cls, ShOff(o));
  }

  /** What is stored for a section is what was worked out for it. */
  lemma Stored(o: Object, native: byte, k: nat)
    requires o.Ok() && Length(o) < Limit(Wide(o.cls)) && k < |o.scns| && !Skipped(k, o.scns[k])
    ensures var r := Laid(o, native);
            && r.scns[k].shdr.offset == ScnOff(o, k)
            && (!Nobits(o.scns[k]) ==> r.scns[k].shdr.size == DataLen(o.scns[k]))
            && TableEnd(o) <= ScnOff(o, k)
            && (!Nobits(o.scns[k]) ==> ScnOff(o, k) + DataLen(o.scns[k]) == OffAt(o, k + 1) <= OffAt(o, |o.scns|))
            && ScnOff(o, k) >= OffAt(o, k)
  {
    LengthBounds(o);
    ScnBounds(o, k);
    TruncSmall(o.cls, ScnOff(o, k));
    if !Nobits(o.scns[k]) {
      TruncSmall(o.cls, DataLen(o.scns[k]));
    }
  }

  lemma {:induction false} LenMonotonic(bufs: seq<Buf>, nobits: bool, j: nat, k: nat)
    requires j <= k <= |bufs|
    ensures LenAt(bufs, nobits, j) <= LenAt(bufs, nobits, k)
  {
    if j < k {
      LenMonotonic(bufs, nobits, j, k - 1);
      AlignedUp(LenAt(bufs, nobits, k - 1), bufs[k - 1].align);
    }
  }

  /** The buffers of a section follow each other inside it. */
  lemma BuffersOrdered(bufs: seq<Buf>, nobits: bool, a: nat, b: nat)
    requires a < |bufs| && b < |bufs|
    ensures var r := LaidBufs(bufs, nobits);
            && r[b].off + FileSize(bufs[b], nobits) <= LenAt(bufs, nobits, |bufs|)
            && (a < b ==> r[a].off + FileSize(bufs[a], nobits) <= r[b].off)
  {
    LenMonotonic(bufs, nobits, b + 1, |bufs|);
    if a < b {
      LenMonotonic(bufs, nobits, a + 1, b);
      AlignedUp(LenAt(bufs, nobits, b), bufs[b].align);
    }
  }

  // ---------- automatic layout: alignment ----------

  predicate PowerOfTwo(a: nat) {
    a == 1 || (a > 1 && a % 2 == 0 && PowerOfTwo(a / 2))
  }

  predicate Aligned(x: nat, a: nat) {
    a > 1 ==> x % a == 0
  }

  lemma {:induction false} PowersDivide(a: nat, b: nat)
    requires PowerOfTwo(a) && PowerOfTwo(b) && a <= b
    ensures b % a == 0
  {
    if a > 1 {
      PowersDivide(a / 2, b / 2);
      var q := (b / 2) / (a / 2);
      assert b / 2 == (a / 2) * q;
      assert b == a * q;
      MulMod(q, a);
    }
  }

  lemma DividesTrans(x: nat, b: nat, a: nat)
    requires a > 0 && b > 0 && x % b == 0 && b % a == 0
    ensures x % a == 0
  {
    var q, p := x / b, b / a;
    assert x == b * q && b == a * p;
    assert x == a * (p * q);
    MulMod(p * q, a);
  }

  lemma {:induction false} MaxAlignPower(bufs: seq<Buf>, k: nat)
    requires k <= |bufs| && forall j | 0 <= j < |bufs| :: bufs[j].align == 0 || PowerOfTwo(bufs[j].align)
    ensures PowerOfTwo(AlignAt(bufs, k)) && forall j | 0 <= j < k :: bufs[j].align <= AlignAt(bufs, k)
  {
    if k > 0 {
      MaxAlignPower(bufs, k - 1);
    }
  }

  /** Section s is number k of an object that automatic layout accepts and whose file fits. */
  predicate LaysOut(o: Object, k: nat, s: Scn) {
    && o.Ok() && Layable(o) && Length(o) < Limit(Wide(o.cls))
    && k < |o.scns| && !Skipped(k, s) && o.scns[k] == s
  }

  /** Buffer b of section k is aligned in the file, not only within the section. */
  predicate AlignedInFile(o: Object, native: byte, k: nat, b: nat)
    requires o.Ok() && k < |o.scns| && !Skipped(k, o.scns[k]) && b < |o.scns[k].bufs|
  {
    var s := Laid(o, native).scns[k];
    Aligned(s.shdr.offset + s.bufs[b].off, s.bufs[b].align)
  }

  /** Whatever the alignments, a buffer is aligned in every file that can hold its section exactly
      if its alignment divides the section's, which is the largest of its buffers'. */
  lemma BufferAlignedExactly(c: Class, native: byte, s: Scn, b: nat)
    requires s.shdr.shtype != SHT_NULL && BufsValid(s.bufs) && b < |s.bufs|
    requires EhdrSize(c) + 2 * ScnAlign(s) + DataLen(s) + 4 * ShdrSize(c) < Limit(Wide(c))
    ensures (forall o: Object, k: nat {:trigger LaysOut(o, k, s)} | o.cls == c && LaysOut(o, k, s) :: AlignedInFile(o, native, k, b))
            <==> Aligned(ScnAlign(s), s.bufs[b].align)
  {
    if Aligned(ScnAlign(s), s.bufs[b].align) {
      forall o: Object, k: nat | o.cls == c && LaysOut(o, k, s)
        ensures AlignedInFile(o, native, k, b)
      {
        DivisorAligned(o, native, k, b);
      }
    } else {
      AlignPositive(s.bufs, |s.bufs|);
      var x := Misplaced(s.bufs[b].align, ScnAlign(s), EhdrSize(c));
      var o := PaddedTo(c, x, s);
      PaddedLaysOut(c, x, s);
      assert LaysOut(o, 2, s);
      BufferFollowsSection(o, native, 2, b);
      assert !AlignedInFile(o, native, 2, b);
    }
  }

  /** A buffer is aligned in the file exactly if its section's offset is. */
  lemma BufferFollowsSection(o: Object, native: byte, k: nat, b: nat)
    requires o.Ok() && Length(o) < Limit(Wide(o.cls)) && k < |o.scns| && !Skipped(k, o.scns[k])
    requires b < |o.scns[k].bufs|
    ensures AlignedInFile(o, native, k, b) <==> Aligned(ScnOff(o, k), o.scns[k].bufs[b].align)
  {
    var a, x, y := o.scns[k].bufs[b].align, ScnOff(o, k), BufOff(o.scns[k].bufs, Nobits(o.scns[k]), b);
    Stored(o, native, k);
    AlignedUp(LenAt(o.scns[k].bufs, Nobits(o.scns[k]), b), a);
    if a > 1 {
      if x % a == 0 {
        SumAligned(x, y, a);
      }
      if (x + y) % a == 0 {
        RestAligned(x, y, a);
      }
    }
  }

  lemma DivisorAligned(o: Object, native: byte, k: nat, b: nat)
    requires o.Ok() && Length(o) < Limit(Wide(o.cls)) && k < |o.scns| && !Skipped(k, o.scns[k])
    requires b < |o.scns[k].bufs| && Aligned(ScnAlign(o.scns[k]), o.scns[k].bufs[b].align)
    ensures AlignedInFile(o, native, k, b)
  {
    var a, m := o.scns[k].bufs[b].align, ScnAlign(o.scns[k]);
    BufferFollowsSection(o, native, k, b);
    AlignedUp(OffAt(o, k), m);
    AlignPositive(o.scns[k].bufs, |o.scns[k].bufs|);
    if a > 1 {
      DividesTrans(ScnOff(o, k), m, a);
    }
  }

  lemma {:induction false} AlignPositive(bufs: seq<Buf>, k: nat)
    requires k <= |bufs|
    ensures AlignAt(bufs, k) > 0
  {
    if k > 0 {
      AlignPositive(bufs, k - 1);
    }
  }

  /** A multiple of m behind the header that is no multiple of a. */
  lemma Misplaced(a: nat, m: nat, header: nat) returns (x: nat)
    requires m > 0 && !Aligned(m, a)
    ensures header <= x <= header + 2 * m && x % m == 0 && !Aligned(x, a)
  {
    x := AlignUp(header, m);
    AlignedUp(header, m);
    if Aligned(x, a) {
      SumAligned(x, m, m);
      if (x + m) % a == 0 {
        RestAligned(m, x, a);
      }
      x := x + m;
    }
  }

  /** An object whose padding section makes section 2 start at x. */
  function PaddedTo(c: Class, x: nat, s: Scn): Object
    requires x >= EhdrSize(c)
  {
    var pad := Buf(seq(x - EhdrSize(c), _ => 0), x - EhdrSize(c), 1, 0, true, true);
    Object(c, EXAMPLE_EHDR, [], [NULL_SECTION, Section(0, 0).(bufs := [pad]), s])
  }

  lemma PaddedLaysOut(c: Class, x: nat, s: Scn)
    requires s.shdr.shtype != SHT_NULL && BufsValid(s.bufs) && EhdrSize(c) <= x && ScnAlign(s) > 0 && x % ScnAlign(s) == 0
    requires x + DataLen(s) + 4 * ShdrSize(c) < Limit(Wide(c))
    ensures LaysOut(PaddedTo(c, x, s), 2, s) && ScnOff(PaddedTo(c, x, s), 2) == x
  {
    var o := PaddedTo(c, x, s);
    var pad := o.scns[1].bufs;
    assert LenAt(pad, false, 0) == 0 && LenAt(pad, false, 1) == x - EhdrSize(c) && AlignAt(pad, 1) == 1;
    assert OffAt(o, 1) == EhdrSize(c) && OffAt(o, 2) == x;
    AlignedAlready(x, ScnAlign(s));
    AlignedUp(OffAt(o, 3), AddrSize(c));
    assert Length(o) < Limit(Wide(c));
  }

  lemma AlignedAlready(x: nat, a: nat)
    requires a > 0 && x % a == 0
    ensures AlignUp(x, a) == x
  {
    if a > 1 {
      var q := x / a;
      assert x + (a - 1) == a * q + (a - 1);
      ModUnique(x + (a - 1), a, q, a - 1);
    }
  }

  lemma RestAligned(x: nat, y: nat, a: nat)
    requires a > 0 && (x + y) % a == 0 && y % a == 0
    ensures x % a == 0
  {
    var p, q := (x + y) / a, y / a;
    assert x == a * (p - q);
    ModUnique(x, a, p - q, 0);
  }

  lemma SumAligned(x: nat, y: nat, a: nat)
    requires a > 0 && x % a == 0 && y % a == 0
    ensures (x + y) % a == 0
  {
    var p, q := x / a, y / a;
    assert x + y == a * (p + q);
    MulMod(p + q, a);
  }

  /** With alignments that are powers of two (or 0, for none), every buffer ends up aligned in the
      file, not only within its section. */
  lemma BuffersAligned(o: Object, native: byte, k: nat, b: nat)
    requires o.Ok() && Length(o) < Limit(Wide(o.cls)) && k < |o.scns| && !Skipped(k, o.scns[k])
    requires b < |o.scns[k].bufs|
    requires forall j | 0 <= j < |o.scns[k].bufs| :: o.scns[k].bufs[j].align == 0 || PowerOfTwo(o.scns[k].bufs[j].align)
    ensures AlignedInFile(o, native, k, b)
  {
    var bufs := o.scns[k].bufs;
    MaxAlignPower(bufs, |bufs|);
    if bufs[b].align > 1 {
      PowersDivide(bufs[b].align, ScnAlign(o.scns[k]));
    }
    DivisorAligned(o, native, k, b);
  }

  /** Other alignments do not mix: with 2 and 3 in one section, here the second of a 32-bit file,
      the buffer aligned to 2 ends up at an odd offset. */
  lemma OddAlignments()
    ensures var bufs := [Buf([0], 1, 2, 0, true, true), Buf([0], 1, 3, 0, true, true)];
            var o := Object(Class32, EXAMPLE_EHDR, [],
                            [NULL_SECTION, Section(0, 0).(bufs := [Buf([0, 0, 0], 3, 1, 0, true, true)]), Section(0, 0).(bufs := bufs)]);
            && o.Ok() && Layable(o) && Length(o) < TWO_32
            && Laid(o, 1).scns[2].shdr.offset + Laid(o, 1).scns[2].bufs[0].off == 57
  {
    var bufs := [Buf([0], 1, 2, 0, true, true), Buf([0], 1, 3, 0, true, true)];
    var three := [Buf([0, 0, 0], 3, 1, 0, true, true)];
    var o := Object(Class32, EXAMPLE_EHDR, [],
                    [NULL_SECTION, Section(0, 0).(bufs := three), Section(0, 0).(bufs := bufs)]);
    assert LenAt(three, false, 1) == 3 && AlignAt(three, 1) == 1;
    assert OffAt(o, 1) == 52 && OffAt(o, 2) == 55;
    assert AlignAt(bufs, 1) == 2 && AlignAt(bufs, 2) == 3;
    assert ScnOff(o, 2) == 57;
    assert LenAt(bufs, false, 0) == 0 && BufOff(bufs, false, 0) == 0;
    assert LenAt(bufs, false, 1) == 1 && BufOff(bufs, false, 1) == 3 && LenAt(bufs, false, 2) == 4;
    assert OffAt(o, 3) == 61 && ShOff(o) == 64 && Length(o) == 184;
  }

  // ---------- a second layout ----------

  lemma {:induction false} SameLen(bufs: seq<Buf>, nobits: bool, k: nat)
    requires k <= |bufs|
    ensures LenAt(LaidBufs(bufs, nobits), nobits, k) == LenAt(bufs, nobits, k)
    ensures AlignAt(LaidBufs(bufs, nobits), k) == AlignAt(bufs, k)
  {
    if k > 0 {
      SameLen(bufs, nobits, k - 1);
    }
  }

  lemma SameBufs(bufs: seq<Buf>, nobits: bool)
    ensures LaidBufs(LaidBufs(bufs, nobits), nobits) == LaidBufs(bufs, nobits)
  {
    var r := LaidBufs(bufs, nobits);
    forall k | 0 <= k < |bufs|
      ensures LaidBuf(r, nobits, k) == r[k]
    {
      SameLen(bufs, nobits, k);
    }
  }

  lemma {:induction false} SameOff(o: Object, native: byte, k: nat)
    requires o.Ok() && k <= |o.scns|
    ensures OffAt(Laid(o, native), k) == OffAt(o, k)
  {
    if k > 0 {
      SameOff(o, native, k - 1);
      SameScn(o, native, k - 1);
    }
  }

  lemma SameScn(o: Object, native: byte, k: nat)
    requires o.Ok() && k < |o.scns|
    ensures var s, t := o.scns[k], Laid(o, native).scns[k];
            && (Skipped(k, s) <==> Skipped(k, t)) && (Nobits(s) <==> Nobits(t))
            && (!Skipped(k, s) ==> DataLen(t) == DataLen(s) && ScnAlign(t) == ScnAlign(s)
                                   && LaidBufs(t.bufs, Nobits(t)) == t.bufs)
  {
    SameLen(o.scns[k].bufs, Nobits(o.scns[k]), |o.scns[k].bufs|);
    SameBufs(o.scns[k].bufs, Nobits(o.scns[k]));
  }

  /** Laying out what has been laid out changes nothing. */
  lemma LayoutTwice(o: Object, native: byte)
    requires o.Ok()
    ensures Laid(o, native).Ok() && Laid(Laid(o, native), native) == Laid(o, native)
    ensures Length(Laid(o, native)) == Length(o)
  {
    var r := Laid(o, native);
    SameOff(o, native, |o.scns|);
    forall k | 0 <= k < |o.scns|
      ensures LaidScn(r, k) == r.scns[k]
    {
      SameOff(o, native, k);
      SameScn(o, native, k);
    }
    assert LaidScns(r) == r.scns;
    assert LaidIdent(r, native) == r.ehdr.ident;
    assert r.cls == o.cls && PhOff(r) == PhOff(o) && ShOff(r) == ShOff(o);
    assert CountedEhdr(r, native) == r.ehdr;
  }

  // ---------- user layout ----------

  lemma {:induction false} UserOffBounds(o: Object, j: nat, k: nat)
    requires j < k <= |o.scns| && !Skipped(j, o.scns[j])
    ensures End(o.scns[j]) <= UserOffAt(o, k)
  {
    if j + 1 < k {
      UserOffBounds(o, j, k - 1);
    }
  }

  /** The section's end does not wrap around. */
  predicate NoWrap(s: Scn) {
    s.shdr.offset < TWO_64 && (Nobits(s) || s.shdr.offset + s.shdr.size < TWO_64)
  }

  /** 32-bit headers cannot wrap. */
  lemma Class32NoWrap(s: Scn)
    requires ShdrFits(Class32, s.shdr)
    ensures NoWrap(s)
  {
    assert ShdrFields(s.shdr)[4] < Limit(ShdrFormat(Class32)[4]) && ShdrFields(s.shdr)[5] < Limit(ShdrFormat(Class32)[5]);
  }

  /** Layout by the program, without the overlap flag: if it succeeds the extents of any two
      sections are disjoint, each holds its buffers, and the file is long enough; although the
      scan for an overlap is skipped for a section that starts at or after everything before. */
  lemma UserLayoutDisjoint(o: Object, j: nat, k: nat, b: nat)
    requires o.Ok() && UserOk(o, false) && j < k < |o.scns|
    requires !Skipped(j, o.scns[j]) && !Skipped(k, o.scns[k]) && NoWrap(o.scns[j]) && NoWrap(o.scns[k])
    ensures var s, t := o.scns[j].shdr, o.scns[k].shdr;
            && (Nobits(o.scns[j]) || Nobits(o.scns[k]) || s.offset + s.size <= t.offset || t.offset + t.size <= s.offset)
            && (!Nobits(o.scns[k]) ==> t.offset + t.size <= UserLength(o))
            && (b < |o.scns[k].bufs| ==> o.scns[k].bufs[b].off + FileSize(o.scns[k].bufs[b], Nobits(o.scns[k])) <= t.size)
  {
    assert ScnPasses(o, false, k);
    UserOffBounds(o, j, k);
    UserOffBounds(o, k, |o.scns|);
    NoWrapEnd(o.scns[j]);
    NoWrapEnd(o.scns[k]);
    if b < |o.scns[k].bufs| {
      UserLenBounds(o.scns[k].bufs, Nobits(o.scns[k]), b, |o.scns[k].bufs|);
    }
  }

  lemma NoWrapEnd(s: Scn)
    requires NoWrap(s)
    ensures End(s) == s.shdr.offset + if Nobits(s) then 0 else s.shdr.size
  {
  }

  lemma {:induction false} UserLenBounds(bufs: seq<Buf>, nobits: bool, b: nat, k: nat)
    requires b < k <= |bufs|
    ensures bufs[b].off + FileSize(bufs[b], nobits) <= UserLenAt(bufs, nobits, k)
  {
    if b + 1 < k {
      UserLenBounds(bufs, nobits, b, k - 1);
    }
  }

  lemma {:induction false} UserOffSmall(o: Object, k: nat)
    requires k <= |o.scns| && UserTableEnd(o) < TWO_64
    requires forall j | 0 <= j < k && Nobits(o.scns[j]) :: o.scns[j].shdr.offset < TWO_64
    ensures UserOffAt(o, k) < TWO_64
  {
    if k > 0 {
      UserOffSmall(o, k - 1);
    }
  }

  /** What layout by the program reserves for a section reaches to its end exactly if that end does
      not wrap around; in a 32-bit object it never does. */
  lemma UserExtentReserved(o: Object, k: nat)
    requires k < |o.scns| && !Skipped(k, o.scns[k]) && !Nobits(o.scns[k]) && UserTableEnd(o) < TWO_64
    requires forall j | 0 <= j < |o.scns| :: o.scns[j].shdr.offset < TWO_64
    ensures o.scns[k].shdr.offset + o.scns[k].shdr.size <= UserOffAt(o, |o.scns|) <==> NoWrap(o.scns[k])
    ensures ShdrFits(Class32, o.scns[k].shdr) ==> NoWrap(o.scns[k])
  {
    UserOffSmall(o, |o.scns|);
    UserOffBounds(o, k, |o.scns|);
    if NoWrap(o.scns[k]) {
      NoWrapEnd(o.scns[k]);
    }
    if ShdrFits(Class32, o.scns[k].shdr) {
      Class32NoWrap(o.scns[k]);
    }
  }

  function Example(scns: seq<Scn>): Object {
    Object(Class64, EXAMPLE_EHDR, [], [NULL_SECTION] + scns)
  }

  /** A 64-bit end wraps around to 0, and hides that the two sections overlap. */
  lemma UserLayoutWraps()
    ensures var o := Example([Section(100, TWO_64 - 100), Section(200, 10)]);
            var s, t := o.scns[1].shdr, o.scns[2].shdr;
            && o.Ok() && UserOk(o, false) && !NoWrap(o.scns[1])
            && t.offset < s.offset + s.size && s.offset < t.offset + t.size
  {
    var o := Example([Section(100, TWO_64 - 100), Section(200, 10)]);
    assert (100 + (TWO_64 - 100)) % TWO_64 == 0;
    assert End(o.scns[1]) == 0 && End(o.scns[2]) == 210;
  }

  /** Sections that are not laid out take up nothing, and the ends of the others do not wrap. */
  predicate NoneWraps(o: Object) {
    forall k | 0 <= k < |o.scns| :: if Skipped(k, o.scns[k]) then End(o.scns[k]) == 0 else NoWrap(o.scns[k])
  }

  predicate HoldsBuffers(s: Scn) {
    BufsValid(s.bufs) && UserLenAt(s.bufs, Nobits(s), |s.bufs|) <= s.shdr.size
  }

  /** A program's layout is accepted exactly if the sections hold their buffers and no two overlap.
      Where the headers are does not matter, nor that the scan is mostly skipped. */
  lemma UserLayoutAccepted(o: Object)
    requires o.Ok() && NoneWraps(o)
    ensures UserOk(o, false) <==>
            && o.ehdr.version <= EV_CURRENT && o.ehdr.ident[EI_DATA] <= 2
            && (forall k | 0 <= k < |o.scns| && !Skipped(k, o.scns[k]) :: HoldsBuffers(o.scns[k]))
            && (forall j, k | 0 <= j < k < |o.scns| && !Skipped(j, o.scns[j]) && !Skipped(k, o.scns[k]) ::
                  !Overlap(o.scns[k], o.scns[j]))
  {
    forall k | 0 <= k < |o.scns| && !Skipped(k, o.scns[k])
      ensures ScnPasses(o, false, k) <==>
              HoldsBuffers(o.scns[k]) && forall j | 0 <= j < k && !Skipped(j, o.scns[j]) :: !Overlap(o.scns[k], o.scns[j])
    {
      PassesExactly(o, k);
    }
  }

  lemma PassesExactly(o: Object, k: nat)
    requires NoneWraps(o) && k < |o.scns| && !Skipped(k, o.scns[k])
    ensures ScnPasses(o, false, k) <==>
            HoldsBuffers(o.scns[k]) && forall j | 0 <= j < k && !Skipped(j, o.scns[j]) :: !Overlap(o.scns[k], o.scns[j])
  {
    forall j | 0 <= j < k && !Skipped(j, o.scns[j])
      ensures End(o.scns[j]) <= UserOffAt(o, k)
    {
      UserOffBounds(o, j, k);
    }
  }

  /** So the headers are not protected: whatever is accepted is accepted with the program header
      table and the section header table anywhere, on a section for instance. */
  lemma UserLayoutOnHeader(o: Object, phoff: nat, shoff: nat)
    requires o.Ok() && NoneWraps(o)
    ensures var h := o.(ehdr := o.ehdr.(phoff := phoff, shoff := shoff));
            h.Ok() && (UserOk(h, false) <==> UserOk(o, false))
  {
    UserLayoutAccepted(o);
    UserLayoutAccepted(o.(ehdr := o.ehdr.(phoff := phoff, shoff := shoff)));
  }

  /** A section may sit on the ELF header. */
  lemma SectionOnHeader()
    ensures var o := Example([Section(0, 10)]);
            o.Ok() && NoneWraps(o) && UserOk(o, false)
  {
    var o := Example([Section(0, 10)]);
    assert End(o.scns[0]) == 0 && End(o.scns[1]) == 10;
  }

  // ---------- strptr.c ----------

  datatype Place = Found(buf: nat, pos: nat) | BadOffset

  /** elf_strptr's search for the buffer that holds an offset of the section. */
  method FindBuffer(bufs: seq<Buf>, offset: nat, layout: bool) returns (r: Place)
    requires layout ==> forall k | 0 <= k < |bufs| :: |bufs[k].image| == bufs[k].size
    ensures r.Found? ==>
              && r.buf < |bufs| && r.pos < bufs[r.buf].size
              && offset == (if layout then LaidBufs(bufs, false)[r.buf].off else bufs[r.buf].off) + r.pos
    ensures r.BadOffset? ==>
              forall k | 0 <= k < |bufs| ::
                var off := if layout then LaidBufs(bufs, false)[k].off else bufs[k].off;
                offset < off || off + bufs[k].size <= offset
  {
    var n := 0;
    for k := 0 to |bufs|
      invariant layout ==> n == LenAt(bufs, false, k)
      invariant forall j | 0 <= j < k ::
                  var off := if layout then LaidBufs(bufs, false)[j].off else bufs[j].off;
                  offset < off || off + bufs[j].size <= offset
    {
      if layout {
        n := AlignUp(n, bufs[k].align);
        if offset < n {
          LaterBuffers(bufs, k, offset);
          return BadOffset;
        }
        if offset - n < bufs[k].size {
          return Found(k, offset - n);
        }
        n := n + bufs[k].size;
      } else {
        n := bufs[k].off;
        if offset >= n && offset - n < bufs[k].size {
          return Found(k, offset - n);
        }
      }
    }
    r := BadOffset;
  }

  lemma LaterBuffers(bufs: seq<Buf>, k: nat, offset: nat)
    requires k < |bufs| && offset < BufOff(bufs, false, k)
    ensures forall j | k <= j < |bufs| :: offset < LaidBufs(bufs, false)[j].off
  {
    forall j | k <= j < |bufs|
      ensures offset < LaidBufs(bufs, false)[j].off
    {
      BuffersOrdered(bufs, false, k, j);
    }
  }
}
