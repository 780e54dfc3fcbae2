/** update.c: _elf32_layout and _elf64_layout, which rewrite the headers of an ELF object in place. */
module Update {
  import opened Bytes
  import opened ElfConstants
  import opened Records
  import opened Layout
  import opened LayoutLaws
  import opened Placement

  /** The object after the loop over its sections, before the counts are stored. */
  function PassedScn(o: Object, layout: bool, k: nat): Scn
    requires k < |o.scns|
  {
    var s := o.scns[k];
    if k == 0 then
      var first := WithInfo(o, s.shdr).(entsize := 0);
      s.(shdr := if layout then first.(offset := 0, size := 0, addralign := 0) else first)
    else if layout then LaidScn(o, k) else UserScn(o, k)
  }

  function WithInfo(o: Object, s: Shdr): Shdr {
    if |o.phdrs| >= PN_XNUM then s.(info := |o.phdrs|) else s
  }

  function Before(o: Object, layout: bool, k: nat): nat
    requires k <= |o.scns|
  {
    if layout then OffAt(o, k) else UserOffAt(o, k)
  }

  /** Sections 0 to k - 1 have been laid out, or checked. */
  predicate Passes(o: Object, layout: bool, overlap: bool, k: nat)
    requires k <= |o.scns|
  {
    forall j | 0 <= j < k && !Skipped(j, o.scns[j]) :: if layout then BufsValid(o.scns[j].bufs) else ScnPasses(o, overlap, j)
  }

  class Elf {
    const cls: Class
    /** Byte order of the machine, for an object that names none. */
    const native: byte
    /** ELF_F_LAYOUT is not set: the library places everything. */
    var layout: bool
    /** ELF_F_LAYOUT_OVERLAP */
    var overlap: bool
    var ehdr: Ehdr
    var phdrs: seq<Phdr>
    var scns: seq<Scn>

    ghost function Value(): Object
      reads this
    {
      Object(cls, ehdr, phdrs, scns)
    }

    constructor (cls: Class, native: byte, o: Object, layout: bool, overlap: bool)
      requires o.cls == cls
      ensures Value() == o && this.native == native && this.layout == layout && this.overlap == overlap
    {
      this.cls, this.native, this.layout, this.overlap := cls, native, layout, overlap;
      ehdr, phdrs, scns := o.ehdr, o.phdrs, o.scns;
    }

    /** _elf32_layout and _elf64_layout: -1 on error, else the length of the file. */
    method LayOut() returns (len: int)
      requires Value().Ok()
      modifies this`ehdr, this`scns
      ensures len == -1 || len >= 0
      ensures layout ==> (len >= 0 <==> old(Layable(Value())))
      ensures layout ==> (len >= 0 <==> old(Acceptable(Value())))
      ensures layout && len >= 0 ==> Value() == Laid(old(Value()), native) && len == Length(old(Value()))
      ensures layout && 0 <= len < Limit(Wide(cls)) ==> LaidOut(old(Value()), Value(), native, len)
      ensures !layout ==> (len >= 0 <==> old(UserOk(Value(), overlap)))
      ensures !layout && (overlap || old(NoneWraps(Value()))) ==> (len >= 0 <==> old(UserAcceptable(Value(), overlap)))
      ensures !layout && len >= 0 ==> Value() == UserLaid(old(Value()), native) && len == UserLength(old(Value()))
      ensures !layout && len >= 0 ==> UserLaidOut(old(Value()), Value(), native, len)
    {
      hide Laid, UserLaid, Length, UserLength, LaidOut, UserLaidOut, Layable, Acceptable, UserOk, UserAcceptable, NoneWraps;
      ghost var o := Value();
      len := LayParts();
      LayableIs(o);
      if overlap || NoneWraps(o) {
        UserAccepted(o, overlap);
      }
      if layout && 0 <= len < Limit(Wide(cls)) {
        AutoLayout(o, Value(), native, len);
      } else if !layout && len >= 0 {
        UserLayout(o, Value(), native, len);
      }
    }

    /** The header, the sections and the tables, one after the other. */
    method LayParts() returns (len: int)
      requires Value().Ok()
      modifies this`ehdr, this`scns
      ensures len == -1 || len >= 0
      ensures layout ==> (len >= 0 <==> old(Layable(Value())))
      ensures layout && len >= 0 ==> Value() == Laid(old(Value()), native) && len == Length(old(Value()))
      ensures !layout ==> (len >= 0 <==> old(UserOk(Value(), overlap)))
      ensures !layout && len >= 0 ==> Value() == UserLaid(old(Value()), native) && len == UserLength(old(Value()))
    {
      hide Laid, UserLaid, Length, UserLength, BufsValid, PassedScn;
      ghost var o := Value();
      var version, encoding := ehdr.version, ehdr.ident[EI_DATA];
      if version == 0 {
        version := EV_CURRENT;
      }
      if version != EV_CURRENT {
        return -1;
      }
      if encoding == 0 {
        encoding := native;
      } else if encoding > 2 {
        return -1;
      }
      ehdr := ehdr.(ehsize := EhdrSize(cls));
      var off := PlaceTable();
      var ok;
      ok, off := PassScns(off, o);
      if !ok {
        return -1;
      }
      len := Finish(off, version, encoding, o);
    }

    /** The loop over the sections. */
    method PassScns(before: nat, ghost o: Object) returns (ok: bool, off: nat)
      requires |scns| == |o.scns| && before == Before(o, layout, 0) && o.cls == cls
      requires forall j | 0 <= j < |scns| ::
                 scns[j] == if j == 0 then o.scns[0].(shdr := WithInfo(o, o.scns[0].shdr)) else o.scns[j]
      modifies this`scns
      ensures ok <==> Passes(o, layout, overlap, |o.scns|)
      ensures ok ==> off == Before(o, layout, |o.scns|) && |scns| == |o.scns|
                     && forall j | 0 <= j < |scns| :: scns[j] == PassedScn(o, layout, j)
    {
      hide PassedScn, BufsValid, ScnPasses, OffAt, UserOffAt;
      ok, off := true, before;
      var k := 0;
      while k < |scns|
        invariant k <= |scns| == |o.scns| && off == Before(o, layout, k)
        invariant Passes(o, layout, overlap, k)
        invariant forall j | 0 <= j < k :: scns[j] == PassedScn(o, layout, j)
        invariant forall j | k <= j < |scns| ::
                    scns[j] == if j == 0 then o.scns[0].(shdr := WithInfo(o, o.scns[0].shdr)) else o.scns[j]
      {
        ok, off := PassScn(k, off, o);
        if !ok {
          return;
        }
        k := k + 1;
      }
      ok := true;
    }

    /** The ELF header once the program header table has its place. */
    static function TableEhdr(o: Object, layout: bool): Ehdr {
      o.ehdr.(ehsize := EhdrSize(o.cls), phoff := if layout then Trunc(o.cls, PhOff(o)) else o.ehdr.phoff,
              phnum := if |o.phdrs| >= PN_XNUM then PN_XNUM else |o.phdrs|,
              phentsize := if o.phdrs == [] then 0 else PhdrSize(o.cls))
    }

    method PlaceTable() returns (off: nat)
      requires Value().Ok() && ehdr.ehsize == EhdrSize(cls)
      modifies this`ehdr, this`scns
      ensures off == if layout then TableEnd(old(Value())) else UserTableEnd(old(Value()))
      ensures ehdr == TableEhdr(old(Value()), layout)
      ensures |scns| == old(|scns|) && forall j | 0 <= j < |scns| ::
                scns[j] == if j == 0 then old(scns[0]).(shdr := WithInfo(old(Value()), old(scns[0]).shdr)) else old(scns)[j]
    {
      off := EhdrSize(cls);
      var phnum, entsize := |phdrs|, 0;
      if phnum != 0 {
        entsize := PhdrSize(cls);
        if layout {
          off := AlignUp(off, AddrSize(cls));
          ehdr := ehdr.(phoff := Trunc(cls, off));
          off := off + phnum * entsize;
        } else {
          off := Max(off, ehdr.phoff + phnum * entsize);
        }
      } else if layout {
        ehdr := ehdr.(phoff := 0);
        TruncSmall(cls, 0);
      }
      if phnum >= PN_XNUM {
        scns := scns[0 := scns[0].(shdr := scns[0].shdr.(info := phnum))];
        phnum := PN_XNUM;
      }
      ehdr := ehdr.(phnum := phnum, phentsize := entsize);
    }

    /** The body of the loop over the sections. */
    method PassScn(k: nat, off: nat, ghost o: Object) returns (ok: bool, next: nat)
      requires k < |scns| == |o.scns| && off == Before(o, layout, k) && o.cls == cls
      requires forall j | 0 <= j < k :: scns[j] == PassedScn(o, layout, j)
      requires scns[k] == if k == 0 then o.scns[0].(shdr := WithInfo(o, o.scns[0].shdr)) else o.scns[k]
      modifies this`scns
      ensures !Skipped(k, o.scns[k]) ==>
                (ok <==> if layout then BufsValid(o.scns[k].bufs) else ScnPasses(o, overlap, k))
      ensures Skipped(k, o.scns[k]) ==> ok
      ensures ok ==> next == Before(o, layout, k + 1) && scns == old(scns)[k := PassedScn(o, layout, k)]
    {
      var s, shdr := scns[k], scns[k].shdr;
      ok, next := true, off;
      if k == 0 {
        shdr := shdr.(entsize := 0);
        if layout {
          shdr := shdr.(offset := 0, size := 0, addralign := 0);
        }
        scns := scns[0 := s.(shdr := shdr)];
        return;
      }
      if shdr.shtype == SHT_NULL {
        return;
      }
      var bufs, len, align := DataLayout(s.bufs, shdr.shtype == SHT_NOBITS, layout);
      if len == -1 {
        return false, next;
      }
      if shdr.entsize == 0 {
        var entsize := ScnEntsize(cls, shdr.shtype);
        if entsize > 1 {
          shdr := shdr.(entsize := entsize);
        }
      }
      if layout {
        next := AlignUp(next, align);
        assert next == ScnOff(o, k);
        shdr := shdr.(offset := Trunc(cls, next), size := Trunc(cls, len), addralign := Trunc(cls, align));
        if shdr.shtype != SHT_NOBITS {
          next := next + len;
        }
        assert next == OffAt(o, k + 1);
      } else if len > shdr.size {
        return false, next;
      } else {
        ok, next := CheckPlace(k, next, o);
        if !ok {
          return;
        }
      }
      scns := scns[k := Scn(shdr, bufs)];
    }

    /** A section the program placed: where it ends, and whether it meets an earlier one. */
    method CheckPlace(k: nat, off: nat, ghost o: Object) returns (ok: bool, next: nat)
      requires 0 < k < |scns| == |o.scns| && scns[k].shdr == o.scns[k].shdr
      requires off == UserOffAt(o, k) && o.scns[k].shdr.shtype != SHT_NULL
      requires forall j | 0 <= j < k :: scns[j] == PassedScn(o, false, j)
      ensures ok <==> overlap || o.scns[k].shdr.offset >= off || forall j | 0 <= j < k :: !Overlap(o.scns[k], o.scns[j])
      ensures next == UserOffAt(o, k + 1)
    {
      var shdr := scns[k].shdr;
      var end := shdr.offset;
      if shdr.shtype != SHT_NOBITS {
        end := (end + shdr.size) % TWO_64;
      }
      next := if off < end then end else off;
      if !overlap && shdr.offset < off {
        var clash := Clashes(k, shdr.offset, end, o);
        return !clash, next;
      }
      ok := true;
    }

    /** The scan for an earlier section that section k overlaps. */
    method Clashes(k: nat, offset: nat, end1: nat, ghost o: Object) returns (clash: bool)
      requires 0 < k < |scns| == |o.scns| && o.scns[k].shdr.offset == offset && End(o.scns[k]) == end1
      requires forall j | 0 <= j < k :: scns[j] == PassedScn(o, false, j)
      ensures clash <==> exists j | 0 <= j < k :: Overlap(o.scns[k], o.scns[j])
    {
      var j := 0;
      clash := false;
      while j < k
        invariant j <= k && !clash && forall i | 0 <= i < j :: !Overlap(o.scns[k], o.scns[i])
      {
        var t := scns[j].shdr;
        var end2 := t.offset;
        if t.shtype != SHT_NOBITS {
          end2 := (end2 + t.size) % TWO_64;
        }
        assert t.offset == o.scns[j].shdr.offset && end2 == End(o.scns[j]);
        if end1 > t.offset && end2 > offset {
          assert Overlap(o.scns[k], o.scns[j]);
          return true;
        }
        j := j + 1;
      }
    }

    /** The section header table, the counts and e_ident. */
    method Finish(before: nat, version: nat, encoding: byte, ghost o: Object) returns (len: nat)
      requires o.Ok() && o.cls == cls && o.phdrs == phdrs && |scns| == |o.scns|
      requires before == Before(o, layout, |scns|) && version == EV_CURRENT && encoding == OutEncoding(o, native)
      requires forall j | 0 <= j < |scns| :: scns[j] == PassedScn(o, layout, j)
      requires ehdr == TableEhdr(o, layout)
      modifies this`ehdr, this`scns
      ensures Value() == if layout then Laid(o, native) else UserLaid(o, native)
      ensures len == if layout then Length(o) else UserLength(o)
    {
      var off, shnum, entsize := before, |scns|, 0;
      if shnum != 0 {
        entsize := ShdrSize(cls);
        if layout {
          off := AlignUp(off, AddrSize(cls));
          ehdr := ehdr.(shoff := Trunc(cls, off));
          off := off + shnum * entsize;
        } else {
          off := Max(off, ehdr.shoff + shnum * entsize);
        }
      } else if layout {
        ehdr := ehdr.(shoff := 0);
        TruncSmall(cls, 0);
      }
      if shnum >= SHN_LORESERVE {
        scns := scns[0 := scns[0].(shdr := scns[0].shdr.(size := shnum))];
        shnum := 0;
      }
      ehdr := ehdr.(shnum := shnum, shentsize := entsize);
      ehdr := ehdr.(ident := [0x7f, 0x45, 0x4c, 0x46, ClassByte(cls), encoding, version] + ehdr.ident[7..], version := version);
      len := off;
      if layout {
        assert scns == LaidScns(o);
      } else {
        assert scns == UserScns(o);
      }
    }
  }
}
