/** 32.xlatetof.c and 64.xlatetof.c: translation of the ELF header, program headers and section
    headers between memory and file, in either byte order. */
module Records {
  import opened Bytes

  datatype Class = Class32 | Class64

  // ---------- scalars ----------

  datatype Width = B1 | B2 | B4 | B8

  function Size(w: Width): nat {
    match w
    case B1 => 1
    case B2 => 2
    case B4 => 4
    case B8 => 8
  }

  function Limit(w: Width): nat {
    match w
    case B1 => 0x100
    case B2 => TWO_16
    case B4 => TWO_32
    case B8 => TWO_64
  }

  function StoreScalar(w: Width, v: nat, e: Encoding): (b: seq<byte>)
    requires v < Limit(w)
    ensures |b| == Size(w)
  {
    match w
    case B1 => [v]
    case B2 => StoreU16(v, e)
    case B4 => StoreU32(v, e)
    case B8 => StoreU64(v, e)
  }

  function LoadScalar(w: Width, b: seq<byte>, e: Encoding): (v: nat)
    requires |b| == Size(w)
    ensures v < Limit(w)
  {
    match w
    case B1 => b[0]
    case B2 => LoadU16(b, e)
    case B4 => LoadU32(b, e)
    case B8 => LoadU64(b, e)
  }

  lemma ScalarRoundTrip(w: Width, v: nat, b: seq<byte>, e: Encoding)
    requires v < Limit(w) && |b| == Size(w)
    ensures LoadScalar(w, StoreScalar(w, v, e), e) == v
    ensures StoreScalar(w, LoadScalar(w, b, e), e) == b
  {
    match w {
      case B1 =>
      case B2 => RoundTrip16(v, b, e);
      case B4 => RoundTrip32(v, b, e);
      case B8 => RoundTrip64(v, b, e);
    }
  }

  // ---------- records ----------

  type Format = seq<Width>

  function FormatSize(f: Format): nat {
    if f == [] then 0 else Size(f[0]) + FormatSize(f[1..])
  }

  predicate Fit(f: Format, vals: seq<nat>) {
    |vals| == |f| && forall i | 0 <= i < |f| :: vals[i] < Limit(f[i])
  }

  function StoreRecord(f: Format, vals: seq<nat>, e: Encoding): (b: seq<byte>)
    requires Fit(f, vals)
    ensures |b| == FormatSize(f)
  {
    if f == [] then [] else StoreScalar(f[0], vals[0], e) + StoreRecord(f[1..], vals[1..], e)
  }

  function LoadRecord(f: Format, b: seq<byte>, e: Encoding): (vals: seq<nat>)
    requires |b| == FormatSize(f)
    ensures Fit(f, vals)
  {
    if f == [] then []
    else [LoadScalar(f[0], b[..Size(f[0])], e)] + LoadRecord(f[1..], b[Size(f[0])..], e)
  }

  lemma {:induction false} RecordRoundTrip(f: Format, vals: seq<nat>, e: Encoding)
    requires Fit(f, vals)
    ensures LoadRecord(f, StoreRecord(f, vals, e), e) == vals
  {
    if f != [] {
      var first, rest := StoreScalar(f[0], vals[0], e), StoreRecord(f[1..], vals[1..], e);
      ScalarRoundTrip(f[0], vals[0], first, e);
      RecordRoundTrip(f[1..], vals[1..], e);
      assert (first + rest)[..Size(f[0])] == first && (first + rest)[Size(f[0])..] == rest;
    }
  }

  lemma {:induction false} BytesRoundTrip(f: Format, b: seq<byte>, e: Encoding)
    requires |b| == FormatSize(f)
    ensures StoreRecord(f, LoadRecord(f, b, e), e) == b
  {
    if f != [] {
      var vals := LoadRecord(f, b, e);
      ScalarRoundTrip(f[0], 0, b[..Size(f[0])], e);
      BytesRoundTrip(f[1..], b[Size(f[0])..], e);
      assert vals[1..] == LoadRecord(f[1..], b[Size(f[0])..], e);
    }
  }

  // ---------- the three headers ----------

  datatype Ehdr = Ehdr(ident: seq<byte>, etype: nat, machine: nat, version: nat, entry: nat, phoff: nat, shoff: nat,
                       flags: nat, ehsize: nat, phentsize: nat, phnum: nat, shentsize: nat, shnum: nat, shstrndx: nat)

  datatype Phdr = Phdr(ptype: nat, flags: nat, offset: nat, vaddr: nat, paddr: nat, filesz: nat, memsz: nat, align: nat)

  datatype Shdr = Shdr(name: nat, shtype: nat, flags: nat, addr: nat, offset: nat, size: nat, link: nat, info: nat,
                       addralign: nat, entsize: nat)

  const EI_NIDENT := 16

  /** Addresses, offsets and the extended words of a 64-bit file. */
  function Wide(c: Class): Width {
    if c.Class32? then B4 else B8
  }

  /** The ELF header after its e_ident bytes. */
  function EhdrFormat(c: Class): Format {
    [B2, B2, B4, Wide(c), Wide(c), Wide(c), B4, B2, B2, B2, B2, B2, B2]
  }

  function PhdrFormat(c: Class): Format {
    if c.Class32? then [B4, B4, B4, B4, B4, B4, B4, B4] else [B4, B4, B8, B8, B8, B8, B8, B8]
  }

  function ShdrFormat(c: Class): Format {
    [B4, B4, Wide(c), Wide(c), Wide(c), Wide(c), B4, B4, Wide(c), Wide(c)]
  }

  function EhdrSize(c: Class): nat {
    if c.Class32? then 52 else 64
  }

  function PhdrSize(c: Class): nat {
    if c.Class32? then 32 else 56
  }

  function ShdrSize(c: Class): nat {
    if c.Class32? then 40 else 64
  }

  lemma {:induction false} SizeAppend(f: Format, g: Format)
    ensures FormatSize(f + g) == FormatSize(f) + FormatSize(g)
  {
    if f == [] {
      assert f + g == g;
    } else {
      assert (f + g)[1..] == f[1..] + g;
      SizeAppend(f[1..], g);
    }
  }

  lemma SizeTwo(a: Width, b: Width)
    ensures FormatSize([a, b]) == Size(a) + Size(b)
  {
    assert [a, b] == [a] + [b];
    SizeAppend([a], [b]);
  }

  lemma SizeFour(a: Width, b: Width, c: Width, d: Width)
    ensures FormatSize([a, b, c, d]) == Size(a) + Size(b) + Size(c) + Size(d)
  {
    SizeTwo(a, b);
    SizeTwo(c, d);
    assert [a, b, c, d] == [a, b] + [c, d];
    SizeAppend([a, b], [c, d]);
  }

  lemma SizeEight(a: Width, b: Width, c: Width, d: Width, e: Width, f: Width, g: Width, h: Width)
    ensures FormatSize([a, b, c, d, e, f, g, h])
            == Size(a) + Size(b) + Size(c) + Size(d) + Size(e) + Size(f) + Size(g) + Size(h)
  {
    SizeFour(a, b, c, d);
    SizeFour(e, f, g, h);
    assert [a, b, c, d, e, f, g, h] == [a, b, c, d] + [e, f, g, h];
    SizeAppend([a, b, c, d], [e, f, g, h]);
  }

  lemma EhdrFormatSize(c: Class)
    ensures EI_NIDENT + FormatSize(EhdrFormat(c)) == EhdrSize(c)
  {
    var w := Wide(c);
    SizeEight(B2, B2, B4, w, w, w, B4, B2);
    SizeFour(B2, B2, B2, B2);
    assert EhdrFormat(c) == [B2, B2, B4, w, w, w, B4, B2] + ([B2, B2, B2, B2] + [B2]);
    SizeAppend([B2, B2, B2, B2], [B2]);
    SizeAppend([B2, B2, B4, w, w, w, B4, B2], [B2, B2, B2, B2] + [B2]);
  }

  lemma PhdrFormatSize(c: Class)
    ensures FormatSize(PhdrFormat(c)) == PhdrSize(c)
  {
    var w := Wide(c);
    SizeEight(B4, B4, w, w, w, w, w, w);
  }

  lemma ShdrFormatSize(c: Class)
    ensures FormatSize(ShdrFormat(c)) == ShdrSize(c)
  {
    var w := Wide(c);
    SizeEight(B4, B4, w, w, w, w, B4, B4);
    SizeTwo(w, w);
    assert ShdrFormat(c) == [B4, B4, w, w, w, w, B4, B4] + [w, w];
    SizeAppend([B4, B4, w, w, w, w, B4, B4], [w, w]);
  }

  function EhdrFields(h: Ehdr): seq<nat> {
    [h.etype, h.machine, h.version, h.entry, h.phoff, h.shoff, h.flags, h.ehsize, h.phentsize, h.phnum, h.shentsize,
     h.shnum, h.shstrndx]
  }

  /** A 64-bit program header has its flags second, a 32-bit one second to last. */
  function PhdrFields(c: Class, h: Phdr): seq<nat> {
    if c.Class32? then [h.ptype, h.offset, h.vaddr, h.paddr, h.filesz, h.memsz, h.flags, h.align]
    else [h.ptype, h.flags, h.offset, h.vaddr, h.paddr, h.filesz, h.memsz, h.align]
  }

  function ShdrFields(h: Shdr): seq<nat> {
    [h.name, h.shtype, h.flags, h.addr, h.offset, h.size, h.link, h.info, h.addralign, h.entsize]
  }

  predicate EhdrFits(c: Class, h: Ehdr) {
    |h.ident| == EI_NIDENT && Fit(EhdrFormat(c), EhdrFields(h))
  }

  predicate PhdrFits(c: Class, h: Phdr) {
    Fit(PhdrFormat(c), PhdrFields(c, h))
  }

  predicate ShdrFits(c: Class, h: Shdr) {
    Fit(ShdrFormat(c), ShdrFields(h))
  }

  function StoreEhdr(c: Class, e: Encoding, h: Ehdr): (b: seq<byte>)
    requires EhdrFits(c, h)
    ensures |b| == EhdrSize(c)
  {
    EhdrFormatSize(c);
    h.ident + StoreRecord(EhdrFormat(c), EhdrFields(h), e)
  }

  function LoadEhdr(c: Class, e: Encoding, b: seq<byte>): (h: Ehdr)
    requires |b| == EhdrSize(c)
    ensures EhdrFits(c, h)
  {
    EhdrFormatSize(c);
    var f := LoadRecord(EhdrFormat(c), b[EI_NIDENT..], e);
    Ehdr(b[..EI_NIDENT], f[0], f[1], f[2], f[3], f[4], f[5], f[6], f[7], f[8], f[9], f[10], f[11], f[12])
  }

  function StorePhdr(c: Class, e: Encoding, h: Phdr): (b: seq<byte>)
    requires PhdrFits(c, h)
    ensures |b| == PhdrSize(c)
  {
    PhdrFormatSize(c);
    StoreRecord(PhdrFormat(c), PhdrFields(c, h), e)
  }

  function LoadPhdr(c: Class, e: Encoding, b: seq<byte>): (h: Phdr)
    requires |b| == PhdrSize(c)
    ensures PhdrFits(c, h)
  {
    PhdrFormatSize(c);
    var f := LoadRecord(PhdrFormat(c), b, e);
    if c.Class32? then Phdr(f[0], f[6], f[1], f[2], f[3], f[4], f[5], f[7])
    else Phdr(f[0], f[1], f[2], f[3], f[4], f[5], f[6], f[7])
  }

  function StoreShdr(c: Class, e: Encoding, h: Shdr): (b: seq<byte>)
    requires ShdrFits(c, h)
    ensures |b| == ShdrSize(c)
  {
    ShdrFormatSize(c);
    StoreRecord(ShdrFormat(c), ShdrFields(h), e)
  }

  function LoadShdr(c: Class, e: Encoding, b: seq<byte>): (h: Shdr)
    requires |b| == ShdrSize(c)
    ensures ShdrFits(c, h)
  {
    ShdrFormatSize(c);
    var f := LoadRecord(ShdrFormat(c), b, e);
    Shdr(f[0], f[1], f[2], f[3], f[4], f[5], f[6], f[7], f[8], f[9])
  }

  lemma EhdrRoundTrip(c: Class, e: Encoding, h: Ehdr)
    requires EhdrFits(c, h)
    ensures LoadEhdr(c, e, StoreEhdr(c, e, h)) == h
  {
    var rest := StoreRecord(EhdrFormat(c), EhdrFields(h), e);
    assert (h.ident + rest)[..EI_NIDENT] == h.ident && (h.ident + rest)[EI_NIDENT..] == rest;
    RecordRoundTrip(EhdrFormat(c), EhdrFields(h), e);
  }

  lemma PhdrRoundTrip(c: Class, e: Encoding, h: Phdr)
    requires PhdrFits(c, h)
    ensures LoadPhdr(c, e, StorePhdr(c, e, h)) == h
  {
    RecordRoundTrip(PhdrFormat(c), PhdrFields(c, h), e);
  }

  lemma ShdrRoundTrip(c: Class, e: Encoding, h: Shdr)
    requires ShdrFits(c, h)
    ensures LoadShdr(c, e, StoreShdr(c, e, h)) == h
  {
    RecordRoundTrip(ShdrFormat(c), ShdrFields(h), e);
  }
}
