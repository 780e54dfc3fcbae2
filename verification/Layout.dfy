/** update.c, first half: where the parts of an ELF file go, placed by the library or, under
    ELF_F_LAYOUT, by the program.  size_t arithmetic is unbounded except where a section's end is
    computed; header fields have the width of their class. */
module Layout {
  import opened Arithmetic
  import opened Bytes
  import opened ElfConstants
  import opened Records

  /** A data buffer of a section: the bytes its translation has in the file, its size in memory
      and its alignment.  `valid`: its version is known, and it can be translated.  A buffer of
      unknown type is taken for bytes, and the type of one that is empty or has no place in the file
      is not looked at, so those can be.  `present`: its d_buf is not NULL. */
  datatype Buf = Buf(image: seq<byte>, size: nat, align: nat, off: nat, valid: bool, present: bool)

  datatype Scn = Scn(shdr: Shdr, bufs: seq<Buf>)

  datatype Object = Object(cls: Class, ehdr: Ehdr, phdrs: seq<Phdr>, scns: seq<Scn>)
  {
    /** What a caller may hand to elf_update: counts that fit, and a first section where extended
        numbering of the program headers needs one. */
    predicate Ok() {
      && |ehdr.ident| == EI_NIDENT && |phdrs| < TWO_32 && |scns| < TWO_32
      && (|phdrs| >= PN_XNUM ==> cls.Class32? && scns != [])
    }
  }

  // ---------- pieces of arithmetic ----------

  /** The align macro. */
  function AlignUp(v: nat, a: nat): nat {
    if a > 1 then v + (a - 1) - (v + (a - 1)) % a else v
  }

  lemma AlignedUp(v: nat, a: nat)
    ensures v <= AlignUp(v, a) && (a > 1 ==> AlignUp(v, a) < v + a)
    ensures a > 0 ==> AlignUp(v, a) % a == 0
  {
    if a > 1 {
      var x := v + (a - 1);
      assert x - x % a == a * (x / a);
      MulMod(x / a, a);
    }
  }

  function Max(a: nat, b: nat): nat {
    if a > b then a else b
  }

  /** A header field of the class's word size. */
  function Trunc(c: Class, v: nat): nat {
    v % Limit(Wide(c))
  }

  lemma TruncSmall(c: Class, v: nat)
    requires v < Limit(Wide(c))
    ensures Trunc(c, v) == v
  {
  }

  // ---------- one section's buffers: scn_data_layout ----------

  /** What a buffer takes up; a NOBITS section's buffers are not translated. */
  function FileSize(b: Buf, nobits: bool): nat {
    if b.size != 0 && !nobits then |b.image| else b.size
  }

  /** Length of the first k buffers, each aligned. */
  function LenAt(bufs: seq<Buf>, nobits: bool, k: nat): nat
    requires k <= |bufs|
    decreases k, 0
  {
    if k == 0 then 0 else BufOff(bufs, nobits, k - 1) + FileSize(bufs[k - 1], nobits)
  }

  function BufOff(bufs: seq<Buf>, nobits: bool, k: nat): nat
    requires k < |bufs|
    decreases k, 1
  {
    AlignUp(LenAt(bufs, nobits, k), bufs[k].align)
  }

  function AlignAt(bufs: seq<Buf>, k: nat): nat
    requires k <= |bufs|
  {
    if k == 0 then 1 else Max(AlignAt(bufs, k - 1), bufs[k - 1].align)
  }

  function LaidBuf(bufs: seq<Buf>, nobits: bool, k: nat): Buf
    requires k < |bufs|
  {
    bufs[k].(off := BufOff(bufs, nobits, k))
  }

  function LaidBufs(bufs: seq<Buf>, nobits: bool): (r: seq<Buf>)
    ensures |r| == |bufs|
  {
    seq(|bufs|, k requires 0 <= k < |bufs| => LaidBuf(bufs, nobits, k))
  }

  /** Length a program's own offsets give a section. */
  function UserLenAt(bufs: seq<Buf>, nobits: bool, k: nat): nat
    requires k <= |bufs|
  {
    if k == 0 then 0 else Max(UserLenAt(bufs, nobits, k - 1), bufs[k - 1].off + FileSize(bufs[k - 1], nobits))
  }

  predicate BufsValid(bufs: seq<Buf>) {
    forall k | 0 <= k < |bufs| :: bufs[k].valid
  }

  method DataLayout(bufs: seq<Buf>, nobits: bool, layout: bool) returns (r: seq<Buf>, len: int, align: nat)
    ensures len == -1 <==> !BufsValid(bufs)
    ensures len >= -1
    ensures len >= 0 ==> r == (if layout then LaidBufs(bufs, nobits) else bufs)
    ensures len >= 0 ==> len == if layout then LenAt(bufs, nobits, |bufs|) else UserLenAt(bufs, nobits, |bufs|)
    ensures len >= 0 ==> align == if layout then AlignAt(bufs, |bufs|) else 1
  {
    r, len, align := bufs, 0, 1;
    for k := 0 to |bufs|
      invariant |r| == |bufs| && len >= 0
      invariant forall j | 0 <= j < k :: bufs[j].valid && r[j] == if layout then LaidBuf(bufs, nobits, j) else bufs[j]
      invariant forall j | k <= j < |bufs| :: r[j] == bufs[j]
      invariant len == if layout then LenAt(bufs, nobits, k) else UserLenAt(bufs, nobits, k)
      invariant align == if layout then AlignAt(bufs, k) else 1
    {
      if !r[k].valid {
        return r, -1, align;
      }
      var fsize := FileSize(r[k], nobits);
      if layout {
        len := AlignUp(len, r[k].align);
        align := Max(align, r[k].align);
        r := r[k := r[k].(off := len)];
        len := len + fsize;
      } else {
        len := Max(len, r[k].off + fsize);
      }
    }
    assert layout ==> r == LaidBufs(bufs, nobits);
  }

  // ---------- automatic layout ----------

  function AddrSize(c: Class): nat {
    if c.Class32? then 4 else 8
  }

  /** scn_entsize: file size of the elements of typed sections, 0 for bytes. */
  function ScnEntsize(c: Class, shtype: nat): nat {
    if shtype == SHT_DYNAMIC || shtype == SHT_REL then 2 * AddrSize(c)
    else if shtype == SHT_RELA then 3 * AddrSize(c)
    else if shtype == SHT_DYNSYM || shtype == SHT_SYMTAB then (if c.Class32? then 16 else 24)
    else if shtype == SHT_HASH || shtype == SHT_SYMTAB_SHNDX then 4
    else if shtype == SHT_GNU_VERSYM then 2
    else 0
  }

  function Entsize(c: Class, s: Shdr): nat {
    if s.entsize == 0 then ScnEntsize(c, s.shtype) else s.entsize
  }

  predicate Nobits(s: Scn) {
    s.shdr.shtype == SHT_NOBITS
  }

  /** Section 0 and sections of type NULL are not laid out. */
  predicate Skipped(k: nat, s: Scn) {
    k == 0 || s.shdr.shtype == SHT_NULL
  }

  function DataLen(s: Scn): nat {
    LenAt(s.bufs, Nobits(s), |s.bufs|)
  }

  function ScnAlign(s: Scn): nat {
    AlignAt(s.bufs, |s.bufs|)
  }

  function PhOff(o: Object): nat {
    if o.phdrs == [] then 0 else AlignUp(EhdrSize(o.cls), AddrSize(o.cls))
  }

  function TableEnd(o: Object): nat {
    if o.phdrs == [] then EhdrSize(o.cls) else PhOff(o) + |o.phdrs| * PhdrSize(o.cls)
  }

  /** The end of everything placed before section k, and where section k starts. */
  function OffAt(o: Object, k: nat): nat
    requires k <= |o.scns|
    decreases k, 0
  {
    if k == 0 then TableEnd(o)
    else if Skipped(k - 1, o.scns[k - 1]) then OffAt(o, k - 1)
    else ScnOff(o, k - 1) + if Nobits(o.scns[k - 1]) then 0 else DataLen(o.scns[k - 1])
  }

  function ScnOff(o: Object, k: nat): nat
    requires k < |o.scns|
    decreases k, 1
  {
    AlignUp(OffAt(o, k), ScnAlign(o.scns[k]))
  }

  function ShOff(o: Object): nat {
    if o.scns == [] then 0 else AlignUp(OffAt(o, |o.scns|), AddrSize(o.cls))
  }

  /** The file's length. */
  function Length(o: Object): nat {
    if o.scns == [] then TableEnd(o) else ShOff(o) + |o.scns| * ShdrSize(o.cls)
  }

  /** Extended numbering keeps large counts in section 0. */
  function FirstShdr(o: Object, s: Shdr, size: nat): Shdr {
    s.(entsize := 0, size := if |o.scns| >= SHN_LORESERVE then |o.scns| else size,
       info := if |o.phdrs| >= PN_XNUM then |o.phdrs| else s.info)
  }

  function LaidScn(o: Object, k: nat): Scn
    requires k < |o.scns|
  {
    var s := o.scns[k];
    if k == 0 then s.(shdr := FirstShdr(o, s.shdr, 0).(offset := 0, addralign := 0))
    else if Skipped(k, s) then s
    else Scn(s.shdr.(entsize := Entsize(o.cls, s.shdr), offset := Trunc(o.cls, ScnOff(o, k)),
                     size := Trunc(o.cls, DataLen(s)), addralign := Trunc(o.cls, ScnAlign(s))),
             LaidBufs(s.bufs, Nobits(s)))
  }

  function LaidScns(o: Object): (r: seq<Scn>)
    ensures |r| == |o.scns|
  {
    seq(|o.scns|, k requires 0 <= k < |o.scns| => LaidScn(o, k))
  }

  function ClassByte(c: Class): byte {
    if c.Class32? then 1 else 2
  }

  /** e_ident with the magic number and the class, encoding and version of the file. */
  function LaidIdent(o: Object, native: byte): (r: seq<byte>)
    requires |o.ehdr.ident| == EI_NIDENT
    ensures |r| == EI_NIDENT
  {
    [0x7f, 0x45, 0x4c, 0x46, ClassByte(o.cls), OutEncoding(o, native), EV_CURRENT] + o.ehdr.ident[7..]
  }

  function OutEncoding(o: Object, native: byte): byte
    requires |o.ehdr.ident| == EI_NIDENT
  {
    if o.ehdr.ident[EI_DATA] == 0 then native else o.ehdr.ident[EI_DATA]
  }

  /** The header with the counts and sizes of its tables. */
  function CountedEhdr(o: Object, native: byte): Ehdr
    requires o.Ok()
  {
    o.ehdr.(ident := LaidIdent(o, native), version := EV_CURRENT, ehsize := EhdrSize(o.cls),
            phnum := if |o.phdrs| >= PN_XNUM then PN_XNUM else |o.phdrs|,
            phentsize := if o.phdrs == [] then 0 else PhdrSize(o.cls),
            shnum := if |o.scns| >= SHN_LORESERVE then 0 else |o.scns|,
            shentsize := if o.scns == [] then 0 else ShdrSize(o.cls))
  }

  /** What automatic layout makes of an object. */
  function Laid(o: Object, native: byte): Object
    requires o.Ok()
  {
    o.(ehdr := CountedEhdr(o, native).(phoff := Trunc(o.cls, PhOff(o)), shoff := Trunc(o.cls, ShOff(o))),
       scns := LaidScns(o))
  }

  /** The errors both layouts check for: an unknown version or encoding, or a buffer that is not valid. */
  predicate Layable(o: Object)
    requires o.Ok()
  {
    && o.ehdr.version <= EV_CURRENT && o.ehdr.ident[EI_DATA] <= 2
    && forall k | 0 <= k < |o.scns| && !Skipped(k, o.scns[k]) :: BufsValid(o.scns[k].bufs)
  }

  // ---------- user layout ----------

  /** size_t end of a section's extent in the file; it wraps around. */
  function End(s: Scn): nat {
    if Nobits(s) then s.shdr.offset else (s.shdr.offset + s.shdr.size) % TWO_64
  }

  predicate Overlap(s: Scn, t: Scn) {
    End(s) > t.shdr.offset && End(t) > s.shdr.offset
  }

  function UserTableEnd(o: Object): nat {
    if o.phdrs == [] then EhdrSize(o.cls) else Max(EhdrSize(o.cls), o.ehdr.phoff + |o.phdrs| * PhdrSize(o.cls))
  }

  /** The running maximum of the ends. */
  function UserOffAt(o: Object, k: nat): nat
    requires k <= |o.scns|
  {
    if k == 0 then UserTableEnd(o)
    else if Skipped(k - 1, o.scns[k - 1]) then UserOffAt(o, k - 1)
    else Max(UserOffAt(o, k - 1), End(o.scns[k - 1]))
  }

  /** Section k passes: its buffers fit, and it meets no earlier section, which is looked at only
      when it starts before the running maximum. */
  predicate ScnPasses(o: Object, overlap: bool, k: nat)
    requires k < |o.scns|
  {
    var s := o.scns[k];
    && BufsValid(s.bufs) && UserLenAt(s.bufs, Nobits(s), |s.bufs|) <= s.shdr.size
    && (!overlap && s.shdr.offset < UserOffAt(o, k) ==> forall j | 0 <= j < k :: !Overlap(s, o.scns[j]))
  }

  predicate UserOk(o: Object, overlap: bool)
    requires o.Ok()
  {
    && o.ehdr.version <= EV_CURRENT && o.ehdr.ident[EI_DATA] <= 2
    && forall k | 0 <= k < |o.scns| && !Skipped(k, o.scns[k]) :: ScnPasses(o, overlap, k)
  }

  function UserScn(o: Object, k: nat): Scn
    requires k < |o.scns|
  {
    var s := o.scns[k];
    if k == 0 then s.(shdr := FirstShdr(o, s.shdr, s.shdr.size))
    else if Skipped(k, s) then s
    else s.(shdr := s.shdr.(entsize := Entsize(o.cls, s.shdr)))
  }

  function UserScns(o: Object): (r: seq<Scn>)
    ensures |r| == |o.scns|
  {
    seq(|o.scns|, k requires 0 <= k < |o.scns| => UserScn(o, k))
  }

  function UserLaid(o: Object, native: byte): Object
    requires o.Ok()
  {
    o.(ehdr := CountedEhdr(o, native), scns := UserScns(o))
  }

  function UserLength(o: Object): nat {
    if o.scns == [] then UserTableEnd(o)
    else Max(UserOffAt(o, |o.scns|), o.ehdr.shoff + |o.scns| * ShdrSize(o.cls))
  }
}
