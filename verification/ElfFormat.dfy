/** The file format of the System V gABI, chapter 4 "Object Files": where the fields of the three headers
    are, as numbers, and that the translators put them there. */
module ElfFormat {
  import opened Bytes
  import opened Records
  import opened Sequences

  /** The number that bytes make, least or most significant first. */
  function Value(b: seq<byte>, lsb: bool): nat {
    if b == [] then 0
    else if lsb then b[0] + 0x100 * Value(b[1..], lsb)
    else 0x100 * Value(b[..|b| - 1], lsb) + b[|b| - 1]
  }

  /** The field of n bytes at off, in a file whose e_ident[EI_DATA] is d: 1 puts the least significant
      byte first, 2 the most significant one. */
  predicate Field(b: seq<byte>, d: byte, off: nat, n: nat, v: nat) {
    off + n <= |b| && v == Value(b[off..off + n], d == 1)
  }

  /** b starts with an ELF header; `c` is e_ident[EI_CLASS]. */
  predicate IsEhdr(b: seq<byte>, c: byte, d: byte, h: Ehdr) {
    && |b| >= 16 && h.ident == b[..16]
    && Field(b, d, 16, 2, h.etype) && Field(b, d, 18, 2, h.machine) && Field(b, d, 20, 4, h.version)
    && if c == 1 then
         && Field(b, d, 24, 4, h.entry) && Field(b, d, 28, 4, h.phoff) && Field(b, d, 32, 4, h.shoff)
         && Field(b, d, 36, 4, h.flags) && Field(b, d, 40, 2, h.ehsize) && Field(b, d, 42, 2, h.phentsize)
         && Field(b, d, 44, 2, h.phnum) && Field(b, d, 46, 2, h.shentsize) && Field(b, d, 48, 2, h.shnum)
         && Field(b, d, 50, 2, h.shstrndx)
       else
         && Field(b, d, 24, 8, h.entry) && Field(b, d, 32, 8, h.phoff) && Field(b, d, 40, 8, h.shoff)
         && Field(b, d, 48, 4, h.flags) && Field(b, d, 52, 2, h.ehsize) && Field(b, d, 54, 2, h.phentsize)
         && Field(b, d, 56, 2, h.phnum) && Field(b, d, 58, 2, h.shentsize) && Field(b, d, 60, 2, h.shnum)
         && Field(b, d, 62, 2, h.shstrndx)
  }

  predicate IsPhdr(b: seq<byte>, c: byte, d: byte, h: Phdr) {
    if c == 1 then
      && Field(b, d, 0, 4, h.ptype) && Field(b, d, 4, 4, h.offset) && Field(b, d, 8, 4, h.vaddr) && Field(b, d, 12, 4, h.paddr)
      && Field(b, d, 16, 4, h.filesz) && Field(b, d, 20, 4, h.memsz) && Field(b, d, 24, 4, h.flags) && Field(b, d, 28, 4, h.align)
    else
      && Field(b, d, 0, 4, h.ptype) && Field(b, d, 4, 4, h.flags) && Field(b, d, 8, 8, h.offset) && Field(b, d, 16, 8, h.vaddr)
      && Field(b, d, 24, 8, h.paddr) && Field(b, d, 32, 8, h.filesz) && Field(b, d, 40, 8, h.memsz) && Field(b, d, 48, 8, h.align)
  }

  predicate IsShdr(b: seq<byte>, c: byte, d: byte, h: Shdr) {
    if c == 1 then
      && Field(b, d, 0, 4, h.name) && Field(b, d, 4, 4, h.shtype) && Field(b, d, 8, 4, h.flags) && Field(b, d, 12, 4, h.addr)
      && Field(b, d, 16, 4, h.offset) && Field(b, d, 20, 4, h.size) && Field(b, d, 24, 4, h.link) && Field(b, d, 28, 4, h.info)
      && Field(b, d, 32, 4, h.addralign) && Field(b, d, 36, 4, h.entsize)
    else
      && Field(b, d, 0, 4, h.name) && Field(b, d, 4, 4, h.shtype) && Field(b, d, 8, 8, h.flags) && Field(b, d, 16, 8, h.addr)
      && Field(b, d, 24, 8, h.offset) && Field(b, d, 32, 8, h.size) && Field(b, d, 40, 4, h.link) && Field(b, d, 44, 4, h.info)
      && Field(b, d, 48, 8, h.addralign) && Field(b, d, 56, 8, h.entsize)
  }

  // ---------- the translators ----------

  lemma ScalarIs(w: Width, b: seq<byte>, e: Encoding)
    requires |b| == Size(w)
    ensures LoadScalar(w, b, e) == Value(b, e.LSB?)
  {
    match w {
      case B1 => OneByte(b, e.LSB?);
      case B2 => TwoBytes(b, e);
      case B4 => FourBytes(b, e);
      case B8 => EightBytes(b, e);
    }
  }

  lemma OneByte(b: seq<byte>, lsb: bool)
    requires |b| == 1
    ensures Value(b, lsb) == b[0]
  {
    assert b[1..] == [] && b[..0] == [];
  }

  lemma TwoBytes(b: seq<byte>, e: Encoding)
    requires |b| == 2
    ensures LoadU16(b, e) == Value(b, e.LSB?)
  {
    OneByte(b[1..], e.LSB?);
    OneByte(b[..1], e.LSB?);
  }

  /** The number of two halves. */
  lemma {:induction false} ValueHalves(b: seq<byte>, m: nat, lsb: bool)
    requires m <= |b|
    ensures Value(b, lsb) == if lsb then Value(b[..m], lsb) + Power(m) * Value(b[m..], lsb)
                             else Power(|b| - m) * Value(b[..m], lsb) + Value(b[m..], lsb)
  {
    if lsb {
      if m > 0 {
        ValueHalves(b[1..], m - 1, lsb);
        assert b[1..][..m - 1] == b[..m][1..] && b[1..][m - 1..] == b[m..];
        Regroup(Power(m - 1), Value(b[m..], lsb));
      } else {
        assert b[..0] == [] && b[0..] == b;
      }
    } else {
      if m < |b| {
        var s := b[..|b| - 1];
        ValueHalves(s, m, lsb);
        assert s[..m] == b[..m] && s[m..] == b[m..][..|b| - m - 1];
        Regroup(Power(|b| - m - 1), Value(b[..m], lsb));
      } else {
        assert b[m..] == [] && b[..m] == b;
      }
    }
  }

  function Power(n: nat): nat {
    if n == 0 then 1 else 0x100 * Power(n - 1)
  }

  lemma Regroup(p: nat, v: nat)
    ensures 0x100 * (p * v) == (0x100 * p) * v
  {
  }

  lemma FourBytes(b: seq<byte>, e: Encoding)
    requires |b| == 4
    ensures LoadU32(b, e) == Value(b, e.LSB?)
  {
    ValueHalves(b, 2, e.LSB?);
    TwoBytes(b[..2], e);
    TwoBytes(b[2..], e);
    assert Power(2) == 0x1_0000;
  }

  lemma EightBytes(b: seq<byte>, e: Encoding)
    requires |b| == 8
    ensures LoadU64(b, e) == Value(b, e.LSB?)
  {
    hide LoadU32, Value, Power;
    ValueHalves(b, 4, e.LSB?);
    FourBytes(b[..4], e);
    FourBytes(b[4..], e);
    PowerFour();
    assert b[0..4] == b[..4] && b[4..8] == b[4..];
  }

  lemma PowerFour()
    ensures Power(4) == TWO_32
  {
    assert Power(4) == 0x100 * (0x100 * Power(2));
  }

  /** The signed load is the same number, less 2^32 from 2^31 on. */
  lemma SignedIs(b: seq<byte>, e: Encoding)
    requires |b| == 4
    ensures LoadI32(b, e) == if Value(b, e.LSB?) < TWO_31 then Value(b, e.LSB?) else Value(b, e.LSB?) - TWO_32
  {
    FourBytes(b, e);
  }

  function Offset(f: Format, i: nat): nat
    requires i <= |f|
  {
    if i == 0 then 0 else Size(f[0]) + Offset(f[1..], i - 1)
  }

  lemma FirstField(f: Format, b: seq<byte>, e: Encoding)
    requires f != [] && |b| == FormatSize(f)
    ensures Size(f[0]) <= |b| && |b[Size(f[0])..]| == FormatSize(f[1..])
    ensures LoadRecord(f, b, e) == [LoadScalar(f[0], b[..Size(f[0])], e)] + LoadRecord(f[1..], b[Size(f[0])..], e)
  {
  }

  lemma {:induction false} FieldFits(f: Format, i: nat)
    requires i < |f|
    ensures Offset(f, i) + Size(f[i]) <= FormatSize(f)
  {
    if i > 0 {
      FieldFits(f[1..], i - 1);
    }
  }

  /** A field of a record is the number that its bytes make. */
  lemma {:induction false} FieldIs(f: Format, b: seq<byte>, e: Encoding, i: nat)
    requires |b| == FormatSize(f) && i < |f|
    ensures Offset(f, i) + Size(f[i]) <= |b|
    ensures LoadRecord(f, b, e)[i] == Value(b[Offset(f, i)..Offset(f, i) + Size(f[i])], e.LSB?)
  {
    hide Value, LoadScalar, LoadRecord, FormatSize, Size;
    var w := Size(f[0]);
    FieldFits(f, i);
    FirstField(f, b, e);
    if i == 0 {
      ScalarIs(f[0], b[..w], e);
      assert b[0..w] == b[..w];
    } else {
      FieldIs(f[1..], b[w..], e, i - 1);
      FieldFits(f[1..], i - 1);
      Behind(b, w, Offset(f[1..], i - 1), Size(f[i]));
    }
  }

  lemma Behind(b: seq<byte>, w: nat, off: nat, n: nat)
    requires w + off + n <= |b|
    ensures b[w..][off..off + n] == b[w + off..w + off + n]
  {
  }

  lemma {:induction false} NextOffset(f: Format, i: nat)
    requires i < |f|
    ensures Offset(f, i + 1) == Offset(f, i) + Size(f[i])
  {
    if i > 0 {
      NextOffset(f[1..], i - 1);
    }
  }

  lemma EhdrOffsets(c: Class)
    ensures var f, w := EhdrFormat(c), Size(Wide(c));
            && Offset(f, 0) == 0 && Offset(f, 1) == 2 && Offset(f, 2) == 4 && Offset(f, 3) == 8
            && Offset(f, 4) == 8 + w && Offset(f, 5) == 8 + 2 * w && Offset(f, 6) == 8 + 3 * w && Offset(f, 7) == 12 + 3 * w
            && Offset(f, 8) == 14 + 3 * w && Offset(f, 9) == 16 + 3 * w && Offset(f, 10) == 18 + 3 * w
            && Offset(f, 11) == 20 + 3 * w && Offset(f, 12) == 22 + 3 * w
  {
    hide Offset;
    var f := EhdrFormat(c);
    Start(f);
    NextOffset(f, 0);
    NextOffset(f, 1);
    NextOffset(f, 2);
    NextOffset(f, 3);
    NextOffset(f, 4);
    NextOffset(f, 5);
    NextOffset(f, 6);
    NextOffset(f, 7);
    NextOffset(f, 8);
    NextOffset(f, 9);
    NextOffset(f, 10);
    NextOffset(f, 11);
  }

  lemma PhdrOffsets(c: Class)
    ensures var f := PhdrFormat(c);
            && Offset(f, 0) == 0 && Offset(f, 1) == 4 && Offset(f, 2) == 8 && Offset(f, 3) == (if c.Class32? then 12 else 16)
            && Offset(f, 4) == (if c.Class32? then 16 else 24) && Offset(f, 5) == (if c.Class32? then 20 else 32)
            && Offset(f, 6) == (if c.Class32? then 24 else 40) && Offset(f, 7) == (if c.Class32? then 28 else 48)
  {
    hide Offset;
    var f := PhdrFormat(c);
    Start(f);
    NextOffset(f, 0);
    NextOffset(f, 1);
    NextOffset(f, 2);
    NextOffset(f, 3);
    NextOffset(f, 4);
    NextOffset(f, 5);
    NextOffset(f, 6);
  }

  lemma ShdrOffsets(c: Class)
    ensures var f, w := ShdrFormat(c), Size(Wide(c));
            && Offset(f, 0) == 0 && Offset(f, 1) == 4 && Offset(f, 2) == 8 && Offset(f, 3) == 8 + w && Offset(f, 4) == 8 + 2 * w
            && Offset(f, 5) == 8 + 3 * w && Offset(f, 6) == 8 + 4 * w && Offset(f, 7) == 12 + 4 * w
            && Offset(f, 8) == 16 + 4 * w && Offset(f, 9) == 16 + 5 * w
  {
    hide Offset;
    var f := ShdrFormat(c);
    Start(f);
    NextOffset(f, 0);
    NextOffset(f, 1);
    NextOffset(f, 2);
    NextOffset(f, 3);
    NextOffset(f, 4);
    NextOffset(f, 5);
    NextOffset(f, 6);
    NextOffset(f, 7);
    NextOffset(f, 8);
  }

  lemma Start(f: Format)
    ensures Offset(f, 0) == 0
  {
  }

  /** Field i of a record, in terms of the file. */
  lemma FieldOf(f: Format, b: seq<byte>, e: Encoding, i: nat, d: byte, at: nat, off: nat, all: seq<byte>)
    requires |b| == FormatSize(f) && i < |f| && (d == 1 <==> e.LSB?)
    requires at + |b| <= |all| && all[at..at + |b|] == b && off == at + Offset(f, i)
    ensures Field(all, d, off, Size(f[i]), LoadRecord(f, b, e)[i])
  {
    hide Value, LoadRecord, FormatSize, Size, Offset;
    FieldFits(f, i);
    FieldIs(f, b, e, i);
    Slice(all, at, |b|, Offset(f, i), Size(f[i]));
  }

  /** The translators of the ELF header put each field where the gABI says. */
  lemma EhdrIs(c: Class, e: Encoding, b: seq<byte>, cls: byte, d: byte)
    requires |b| == EhdrSize(c) && (cls == 1 <==> c.Class32?) && (d == 1 <==> e.LSB?)
    ensures IsEhdr(b, cls, d, LoadEhdr(c, e, b))
  {
    hide Value, LoadRecord, Offset, FormatSize, Field;
    EhdrFormatSize(c);
    EhdrOffsets(c);
    var f, r := EhdrFormat(c), b[EI_NIDENT..];
    assert b[16..16 + |r|] == r;
    forall i | 0 <= i < 13
      ensures Field(b, d, 16 + Offset(f, i), Size(f[i]), LoadRecord(f, r, e)[i])
    {
      FieldOf(f, r, e, i, d, 16, 16 + Offset(f, i), b);
    }
  }

  lemma PhdrIs(c: Class, e: Encoding, b: seq<byte>, cls: byte, d: byte)
    requires |b| == PhdrSize(c) && (cls == 1 <==> c.Class32?) && (d == 1 <==> e.LSB?)
    ensures IsPhdr(b, cls, d, LoadPhdr(c, e, b))
  {
    hide Value, LoadRecord, Offset, FormatSize, Field;
    PhdrFormatSize(c);
    PhdrOffsets(c);
    var f := PhdrFormat(c);
    assert b[0..|b|] == b;
    forall i | 0 <= i < 8
      ensures Field(b, d, Offset(f, i), Size(f[i]), LoadRecord(f, b, e)[i])
    {
      FieldOf(f, b, e, i, d, 0, Offset(f, i), b);
    }
  }

  lemma ShdrIs(c: Class, e: Encoding, b: seq<byte>, cls: byte, d: byte)
    requires |b| == ShdrSize(c) && (cls == 1 <==> c.Class32?) && (d == 1 <==> e.LSB?)
    ensures IsShdr(b, cls, d, LoadShdr(c, e, b))
  {
    hide Value, LoadRecord, Offset, FormatSize, Field;
    ShdrFormatSize(c);
    ShdrOffsets(c);
    var f := ShdrFormat(c);
    assert b[0..|b|] == b;
    forall i | 0 <= i < 10
      ensures Field(b, d, Offset(f, i), Size(f[i]), LoadRecord(f, b, e)[i])
    {
      FieldOf(f, b, e, i, d, 0, Offset(f, i), b);
    }
  }
}
