/** cook.c: reading an ELF file's headers back, and that it undoes what update.c writes. */
module Cook {
  import opened Arithmetic
  import opened Sequences
  import opened Bytes
  import opened ElfConstants
  import opened ElfFormat
  import opened Records
  import opened Layout
  import opened Placement
  import opened Image
  import SectionData

  // ---------- a laid-out object can be written, part by part ----------

  /** Every field holds what its C type can hold. */
  predicate FieldsFit(o: Object) {
    && EhdrFits(o.cls, o.ehdr)
    && (forall i | 0 <= i < |o.phdrs| :: PhdrFits(o.cls, o.phdrs[i]))
    && (forall k | 0 <= k < |o.scns| :: ShdrFits(o.cls, o.scns[k].shdr))
  }

  lemma TruncFits(c: Class, v: nat)
    ensures Trunc(c, v) < Limit(Wide(c))
  {
  }

  lemma LaidPrepared(o: Object, native: byte)
    requires o.Ok() && FieldsFit(o)
    ensures Prepared(Laid(o, native))
  {
    var r := Laid(o, native);
    TruncFits(o.cls, PhOff(o));
    TruncFits(o.cls, ShOff(o));
    EhdrStillFits(o.cls, o.ehdr, r.ehdr);
    forall k | 0 <= k < |o.scns|
      ensures ShdrFits(o.cls, r.scns[k].shdr)
    {
      TruncFits(o.cls, ScnOff(o, k));
      TruncFits(o.cls, DataLen(o.scns[k]));
      TruncFits(o.cls, ScnAlign(o.scns[k]));
      ShdrStillFits(o.cls, o.scns[k].shdr, r.scns[k].shdr);
    }
  }

  lemma EhdrStillFits(c: Class, h: Ehdr, r: Ehdr)
    requires EhdrFits(c, h) && |r.ident| == EI_NIDENT
    requires r.etype == h.etype && r.machine == h.machine && r.entry == h.entry && r.flags == h.flags && r.shstrndx == h.shstrndx
    requires r.version < TWO_32 && r.phoff < Limit(Wide(c)) && r.shoff < Limit(Wide(c))
    requires r.ehsize < TWO_16 && r.phentsize < TWO_16 && r.phnum < TWO_16 && r.shentsize < TWO_16 && r.shnum < TWO_16
    ensures EhdrFits(c, r)
  {
    var f := EhdrFields(h);
    assert f[0] < Limit(EhdrFormat(c)[0]) && f[1] < Limit(EhdrFormat(c)[1]) && f[3] < Limit(EhdrFormat(c)[3]);
    assert f[6] < Limit(EhdrFormat(c)[6]) && f[12] < Limit(EhdrFormat(c)[12]);
  }

  lemma ShdrStillFits(c: Class, h: Shdr, r: Shdr)
    requires ShdrFits(c, h)
    requires r.name == h.name && r.shtype == h.shtype && r.flags == h.flags && r.addr == h.addr && r.link == h.link
    requires r.info == h.info || r.info < TWO_32
    requires r.offset == h.offset || r.offset < Limit(Wide(c))
    requires r.size == h.size || r.size < Limit(Wide(c))
    requires r.addralign == h.addralign || r.addralign < Limit(Wide(c))
    requires r.entsize == h.entsize || r.entsize < TWO_32
    ensures ShdrFits(c, r)
  {
    var f := ShdrFields(h);
    assert f[0] < Limit(ShdrFormat(c)[0]) && f[1] < Limit(ShdrFormat(c)[1]) && f[2] < Limit(ShdrFormat(c)[2]);
    assert f[3] < Limit(ShdrFormat(c)[3]) && f[4] < Limit(ShdrFormat(c)[4]) && f[5] < Limit(ShdrFormat(c)[5]);
    assert f[6] < Limit(ShdrFormat(c)[6]) && f[7] < Limit(ShdrFormat(c)[7]) && f[8] < Limit(ShdrFormat(c)[8]);
    assert f[9] < Limit(ShdrFormat(c)[9]);
  }

  /** What the layout promises about the file it lays out. */
  ghost predicate Fitting(o: Object) {
    o.Ok() && FieldsFit(o) && Length(o) < Limit(Wide(o.cls))
  }

  /** Where the tables are, and how the file is divided. */
  lemma LaidTables(o: Object, native: byte)
    requires Fitting(o)
    ensures var r := Laid(o, native);
            && r.cls == o.cls && r.phdrs == o.phdrs && |r.scns| == |o.scns|
            && r.ehdr.phoff == PhOff(o) && r.ehdr.shoff == ShOff(o)
            && (o.phdrs != [] ==> EhdrSize(o.cls) <= PhOff(o) && TableEnd(o) == PhOff(o) + |o.phdrs| * PhdrSize(o.cls))
            && (o.scns != [] ==> OffAt(o, |o.scns|) <= ShOff(o) && Length(o) == ShOff(o) + |o.scns| * ShdrSize(o.cls))
  {
    LengthBounds(o);
    TruncSmall(o.cls, PhOff(o));
    TruncSmall(o.cls, ShOff(o));
  }

  lemma SegmentRegion(o: Object, native: byte, i: nat)
    requires Fitting(o) && i < |o.phdrs|
    ensures var r := Laid(o, native);
            && EhdrSize(o.cls) <= PartOff(r, Segment(i)) == PhOff(o) + i * PhdrSize(o.cls)
            && PartOff(r, Segment(i)) + PhdrSize(o.cls) <= TableEnd(o)
  {
    LaidTables(o, native);
    hide Laid;
    NextRow(PhOff(o), i, PhdrSize(o.cls));
    Ordered(i + 1, |o.phdrs|, PhdrSize(o.cls));
  }

  lemma SectionHeaderRegion(o: Object, native: byte, k: nat)
    requires Fitting(o) && k < |o.scns|
    ensures var r := Laid(o, native);
            && OffAt(o, |o.scns|) <= PartOff(r, SectionHeader(k)) == ShOff(o) + k * ShdrSize(o.cls)
            && PartOff(r, SectionHeader(k)) + ShdrSize(o.cls) <= Length(o)
  {
    hide Laid, ShOff, OffAt, Length;
    LaidTables(o, native);
    NextRow(ShOff(o), k, ShdrSize(o.cls));
    Ordered(k + 1, |o.scns|, ShdrSize(o.cls));
  }

  lemma DataRegion(o: Object, native: byte, k: nat, b: nat)
    requires Fitting(o) && Has(Laid(o, native), Data(k, b))
    ensures var r := Laid(o, native);
            && InFile(o, k) && b < |o.scns[k].bufs|
            && PartOff(r, Data(k, b)) == ScnOff(o, k) + BufOff(o.scns[k].bufs, false, b)
            && PartSize(r, Data(k, b)) == FileSize(o.scns[k].bufs[b], false)
            && TableEnd(o) <= OffAt(o, k) <= PartOff(r, Data(k, b))
            && PartOff(r, Data(k, b)) + PartSize(r, Data(k, b)) <= OffAt(o, k + 1) <= OffAt(o, |o.scns|)
  {
    Stored(o, native, k);
    ScnBounds(o, k);
    BuffersOrdered(o.scns[k].bufs, false, b, b);
  }

  lemma DataApart(o: Object, native: byte, k: nat, b: nat, j: nat, a: nat)
    requires Fitting(o) && Has(Laid(o, native), Data(k, b)) && Has(Laid(o, native), Data(j, a))
    requires j < k || (j == k && a < b)
    ensures Apart(Laid(o, native), Data(j, a), Data(k, b))
  {
    hide LaidScns, Layable, Length, PartOff, PartSize, AlignUp, BufOff, LenAt, ScnOff, OffAt, FileSize;
    DataRegion(o, native, k, b);
    DataRegion(o, native, j, a);
    if j < k {
      OffMonotonic(o, j + 1, k);
    } else {
      BufsApart(o.scns[k].bufs, a, b);
    }
  }

  lemma BufsApart(bufs: seq<Buf>, a: nat, b: nat)
    requires a < b < |bufs|
    ensures BufOff(bufs, false, a) + FileSize(bufs[a], false) <= BufOff(bufs, false, b)
  {
    BuffersOrdered(bufs, false, a, b);
  }

  /** First which kind of part comes first in the file. */
  function Zone(p: Part): nat {
    match p
    case Header => 0
    case Segment(_) => 1
    case Data(_, _) => 2
    case SectionHeader(_) => 3
  }

  lemma ZoneBounds(o: Object, native: byte, p: Part)
    requires Fitting(o) && Has(Laid(o, native), p)
    ensures var r := Laid(o, native);
            var lo := if Zone(p) == 0 then 0 else if Zone(p) == 1 then EhdrSize(o.cls)
                      else if Zone(p) == 2 then TableEnd(o) else OffAt(o, |o.scns|);
            var hi := if Zone(p) == 0 then EhdrSize(o.cls) else if Zone(p) == 1 then TableEnd(o)
                      else if Zone(p) == 2 then OffAt(o, |o.scns|) else Length(o);
            lo <= PartOff(r, p) && PartOff(r, p) + PartSize(r, p) <= hi <= Length(o)
  {
    LengthBounds(o);
    match p {
      case Header =>
      case Segment(i) => SegmentRegion(o, native, i);
      case SectionHeader(k) => SectionHeaderRegion(o, native, k);
      case Data(k, b) => DataRegion(o, native, k, b);
    }
  }

  lemma RowsApart(base: nat, i: nat, j: nat, n: nat)
    requires i != j
    ensures base + i * n + n <= base + j * n || base + j * n + n <= base + i * n
  {
    NextRow(base, i, n);
    NextRow(base, j, n);
    if i < j {
      Ordered(i + 1, j, n);
    } else {
      Ordered(j + 1, i, n);
    }
  }

  lemma PartsApart(o: Object, native: byte, p: Part, q: Part)
    requires Fitting(o) && Has(Laid(o, native), p) && Has(Laid(o, native), q) && p != q
    ensures Apart(Laid(o, native), p, q)
  {
    LengthBounds(o);
    if Zone(p) != Zone(q) {
      ZoneBounds(o, native, p);
      ZoneBounds(o, native, q);
    } else {
      match p {
        case Segment(i) => RowsApart(Laid(o, native).ehdr.phoff, i, q.i, PhdrSize(o.cls));
        case SectionHeader(k) => RowsApart(Laid(o, native).ehdr.shoff, k, q.k, ShdrSize(o.cls));
        case Data(k, b) =>
          if k < q.k || (k == q.k && b < q.b) {
            DataApart(o, native, q.k, q.b, k, b);
          } else {
            DataApart(o, native, k, b, q.k, q.b);
          }
        case Header =>
      }
    }
  }

  /** After automatic layout, writing needs no more than the returned length, and no part
      overwrites another. */
  lemma LaidWritable(o: Object, native: byte)
    requires Fitting(o)
    ensures Writable(Laid(o, native), Length(o)) && AllApart(Laid(o, native))
  {
    var r := Laid(o, native);
    LaidPrepared(o, native);
    forall p | Has(r, p)
      ensures Inside(r, Length(o), p)
    {
      ZoneBounds(o, native, p);
    }
    forall p, q | Has(r, p) && Has(r, q) && p != q
      ensures Apart(r, p, q)
    {
      PartsApart(o, native, p, q);
    }
  }

  // ---------- reading ----------

  datatype Error =
    | NotElf | UnknownVersion | UnknownEncoding | UnknownClass | Outside | TruncEhdr | TruncPhdr | TruncShdr | TruncScn
    | ShentSize | PhentSize | NoSuchScn
    | OutOfBounds  // a section table of length 0, whose first entry is accessed nevertheless

  datatype Result<T> = Ok(value: T) | Err(error: Error)

  datatype Cooked = Cooked(cls: Class, enc: Encoding, ehdr: Ehdr, phdrs: seq<Phdr>, shdrs: seq<Shdr>)

  /** Row k of a table at `off`, in a file that is long enough. */
  function Row(data: seq<byte>, off: nat, k: nat, size: nat): (b: seq<byte>)
    requires off + k * size + size <= |data|
    ensures |b| == size
  {
    data[off + k * size..off + k * size + size]
  }

  lemma RowsInside(off: nat, k: nat, num: nat, size: nat, len: nat)
    requires k < num && off <= len && size > 0 && num <= (len - off) / size
    ensures off + k * size + size <= len
  {
    NextRow(off, k, size);
    Ordered(k + 1, num, size);
    Ordered(num, (len - off) / size, size);
    assert (len - off) / size * size <= len - off;
  }

  function ShdrTable(c: Class, e: Encoding, data: seq<byte>, off: nat, num: nat): (r: seq<Shdr>)
    requires num > 0 ==> off <= |data| && num <= (|data| - off) / ShdrSize(c)
    ensures |r| == num
    ensures forall k | 0 <= k < num :: off + k * ShdrSize(c) + ShdrSize(c) <= |data|
                                       && r[k] == LoadShdr(c, e, Row(data, off, k, ShdrSize(c)))
  {
    if num == 0 then []
    else
      RowsInside(off, num - 1, num, ShdrSize(c), |data|);
      ShdrTable(c, e, data, off, num - 1) + [LoadShdr(c, e, Row(data, off, num - 1, ShdrSize(c)))]
  }

  /** A file of that length has the rows of a table at off. */
  predicate RoomFor(num: nat, size: nat, off: nat, len: nat) {
    size > 0 && (num > 0 ==> off <= len && num <= (len - off) / size)
  }

  function PhdrTable(c: Class, e: Encoding, data: seq<byte>, off: nat, num: nat): (r: seq<Phdr>)
    requires RoomFor(num, PhdrSize(c), off, |data|)
    ensures |r| == num
  {
    if num == 0 then []
    else
      RowsInside(off, num - 1, num, PhdrSize(c), |data|);
      PhdrTable(c, e, data, off, num - 1) + [LoadPhdr(c, e, Row(data, off, num - 1, PhdrSize(c)))]
  }

  /** The number of sections: in the header, or in the first section's header. */
  function ShNum(c: Class, e: Encoding, data: seq<byte>, h: Ehdr): nat
    requires h.shoff + ShdrSize(c) <= |data| || h.shnum != 0
  {
    if h.shnum == 0 then LoadShdr(c, e, data[h.shoff..h.shoff + ShdrSize(c)]).size else h.shnum
  }

  /** _elf_cook_shdr */
  function ReadShdrs(c: Class, e: Encoding, data: seq<byte>, h: Ehdr): Result<seq<Shdr>> {
    if h.shoff == 0 then Ok([])
    else if h.shoff > |data| then Err(Outside)
    else if h.shentsize != ShdrSize(c) then Err(ShentSize)
    else if h.shnum == 0 && |data| - h.shoff < h.shentsize then Err(TruncShdr)
    else
      var num := ShNum(c, e, data, h);
      if (|data| - h.shoff) / h.shentsize < num then Err(TruncShdr)
      else if num == 0 then Err(OutOfBounds)
      else Ok(ShdrTable(c, e, data, h.shoff, num))
  }

  /** _elf_cook_phdr */
  function ReadPhdrs(c: Class, e: Encoding, data: seq<byte>, h: Ehdr, shdrs: seq<Shdr>): Result<seq<Phdr>> {
    if h.phoff == 0 then Ok([])
    else if h.phnum == PN_XNUM && shdrs == [] then Err(NoSuchScn)
    else
      var num := if h.phnum == PN_XNUM then shdrs[0].info else h.phnum;
      if h.phentsize != PhdrSize(c) then Err(PhentSize)
      else if num > 0 && h.phoff > |data| then Err(Outside)
      else if num > 0 && (|data| - h.phoff) / PhdrSize(c) < num then Err(TruncPhdr)
      else Ok(PhdrTable(c, e, data, h.phoff, num))
  }

  /** What the e_ident bytes say about the file. */
  function Ident(data: seq<byte>): Result<(Class, Encoding)> {
    if |data| < EI_NIDENT || data[..4] != [0x7f, 0x45, 0x4c, 0x46] then Err(NotElf)
    else if data[EI_VERSION] != EV_CURRENT then Err(UnknownVersion)
    else if data[EI_DATA] != 1 && data[EI_DATA] != 2 then Err(UnknownEncoding)
    else if data[EI_CLASS] != 1 && data[EI_CLASS] != 2 then Err(UnknownClass)
    else Ok((if data[EI_CLASS] == 1 then Class32 else Class64, EncodingOf(data[EI_DATA])))
  }

  /** _elf_cook_file: the section headers come first, because the program headers may need one. */
  function Read(data: seq<byte>): Result<Cooked> {
    match Ident(data)
    case Err(x) => Err(x)
    case Ok((c, e)) =>
      if |data| < EhdrSize(c) then Err(TruncEhdr)
      else
        var h := LoadEhdr(c, e, data[..EhdrSize(c)]);
        match ReadShdrs(c, e, data, h)
        case Err(x) => Err(x)
        case Ok(shdrs) =>
          match ReadPhdrs(c, e, data, h, shdrs)
          case Err(x) => Err(x)
          case Ok(phdrs) => Ok(Cooked(c, e, h, phdrs, shdrs))
  }

  method CookShdrs(c: Class, e: Encoding, data: seq<byte>, h: Ehdr) returns (r: Result<seq<Shdr>>)
    ensures r == ReadShdrs(c, e, data, h)
  {
    hide LoadShdr, ShdrTable;
    var num, off, entsz := h.shnum, h.shoff, h.shentsize;
    if off == 0 {
      return Ok([]);
    }
    if off > |data| {
      return Err(Outside);
    }
    if entsz != ShdrSize(c) {
      return Err(ShentSize);
    }
    if num == 0 {
      if |data| - off < entsz {
        return Err(TruncShdr);
      }
      num := LoadShdr(c, e, data[off..off + entsz]).size;
    }
    if (|data| - off) / entsz < num {
      return Err(TruncShdr);
    }
    if num == 0 {
      return Err(OutOfBounds);
    }
    var shdrs := CookSections(c, e, data, off, num);
    r := Ok(shdrs);
  }

  /** The list of sections is built from its end. */
  method CookSections(c: Class, e: Encoding, data: seq<byte>, off: nat, num: nat) returns (shdrs: seq<Shdr>)
    requires off <= |data| && num <= (|data| - off) / ShdrSize(c)
    ensures shdrs == ShdrTable(c, e, data, off, num)
  {
    hide LoadShdr, Row;
    shdrs := [];
    ghost var all := ShdrTable(c, e, data, off, num);
    for i := num downto 0
      invariant shdrs == all[i..]
    {
      RowsInside(off, i, num, ShdrSize(c), |data|);
      var shdr := LoadShdr(c, e, Row(data, off, i, ShdrSize(c)));
      assert shdr == all[i];
      shdrs := [shdr] + shdrs;
    }
  }

  /** _elf_item for one program header. */
  method CookPhdrs(c: Class, e: Encoding, data: seq<byte>, h: Ehdr, shdrs: seq<Shdr>) returns (r: Result<seq<Phdr>>)
    ensures r == ReadPhdrs(c, e, data, h, shdrs)
  {
    hide PhdrTable;
    var num, off, entsz := h.phnum, h.phoff, h.phentsize;
    if off == 0 {
      return Ok([]);
    }
    if num == PN_XNUM {
      if shdrs == [] {
        return Err(NoSuchScn);
      }
      num := shdrs[0].info;
    }
    if entsz != PhdrSize(c) {
      return Err(PhentSize);
    }
    r := CookSegments(c, e, data, off, num);
  }

  /** The loop over _elf_item. */
  method CookSegments(c: Class, e: Encoding, data: seq<byte>, off: nat, num: nat) returns (r: Result<seq<Phdr>>)
    ensures r == if num > 0 && off > |data| then Err(Outside)
                 else if num > 0 && (|data| - off) / PhdrSize(c) < num then Err(TruncPhdr)
                 else Ok(PhdrTable(c, e, data, off, num))
  {
    hide LoadPhdr, Row;
    var entsz := PhdrSize(c);
    var phdrs := [];
    var at := off;
    for i := 0 to num
      invariant at == off + i * entsz && (i > 0 ==> at <= |data| && i <= (|data| - off) / entsz)
      invariant phdrs == PhdrTable(c, e, data, off, i)
    {
      if at > |data| {
        return Err(Outside);
      }
      if |data| - at < entsz {
        TooFew(off, i, num, entsz, |data|);
        return Err(TruncPhdr);
      }
      phdrs := phdrs + [LoadPhdr(c, e, Row(data, off, i, entsz))];
      at := at + entsz;
      NextRow(off, i, entsz);
      Enough(off, i + 1, entsz, |data|);
    }
    r := Ok(phdrs);
  }

  lemma NextRow(off: nat, i: nat, size: nat)
    ensures off + i * size + size == off + (i + 1) * size
  {
  }

  lemma TooFew(off: nat, i: nat, num: nat, size: nat, len: nat)
    requires i < num && size > 0 && off <= len < off + i * size + size
    ensures (len - off) / size < num
  {
    if (len - off) / size >= num {
      RowsInside(off, i, num, size, len);
    }
  }

  lemma Enough(off: nat, num: nat, size: nat, len: nat)
    requires size > 0 && off + num * size <= len && num > 0
    ensures (len - off) / size >= num
  {
    Quotient(len - off, size, num, (len - off) / size);
  }

  lemma Quotient(a: nat, size: nat, num: nat, q: int)
    requires size > 0 && num * size <= a < (q + 1) * size
    ensures num <= q
  {
    if q < num {
      Ordered(q + 1, num, size);
    }
  }

  /** Reading succeeds exactly if the file says something, and gives what it says. */
  method CookFile(data: seq<byte>) returns (r: Result<Cooked>)
    ensures r == Read(data)
    ensures forall x :: r == Ok(x) <==> Describes(data, x)
  {
    forall x
      ensures Read(data) == Ok(x) <==> Describes(data, x)
    {
      ReadIs(data, x);
    }
    hide Describes;
    var ident := Ident(data);
    if ident.Err? {
      return Err(ident.error);
    }
    var (c, e) := ident.value;
    if |data| < EhdrSize(c) {
      return Err(TruncEhdr);
    }
    var h := LoadEhdr(c, e, data[..EhdrSize(c)]);
    var shdrs := CookShdrs(c, e, data, h);
    if shdrs.Err? {
      return Err(shdrs.error);
    }
    var phdrs := CookPhdrs(c, e, data, h, shdrs.value);
    if phdrs.Err? {
      return Err(phdrs.error);
    }
    r := Ok(Cooked(c, e, h, phdrs.value, shdrs.value));
  }

  // ---------- what a file says ----------

  /** Row k of a table of n-byte rows at off, in a file of class c and byte order d. */
  predicate HasShdr(data: seq<byte>, off: nat, k: nat, n: nat, h: Shdr)
    requires |data| >= 16
  {
    off + k * n + n <= |data| && IsShdr(data[off + k * n..off + k * n + n], data[4], data[5], h)
  }

  predicate HasPhdr(data: seq<byte>, off: nat, k: nat, n: nat, h: Phdr)
    requires |data| >= 16
  {
    off + k * n + n <= |data| && IsPhdr(data[off + k * n..off + k * n + n], data[4], data[5], h)
  }

  /** The section headers that a file has, where h is its ELF header. */
  predicate HasShdrs(data: seq<byte>, h: Ehdr, shdrs: seq<Shdr>)
    requires |data| >= 16
  {
    if h.shoff == 0 then shdrs == []
    else
      var n := if data[4] == 1 then 40 else 64;
      && shdrs != [] && h.shentsize == n && h.shoff + |shdrs| * n <= |data|
      && |shdrs| == (if h.shnum == 0 then shdrs[0].size else h.shnum)
      && forall k | 0 <= k < |shdrs| :: HasShdr(data, h.shoff, k, n, shdrs[k])
  }

  predicate HasPhdrs(data: seq<byte>, h: Ehdr, shdrs: seq<Shdr>, phdrs: seq<Phdr>)
    requires |data| >= 16
  {
    if h.phoff == 0 then phdrs == []
    else
      var n := if data[4] == 1 then 32 else 56;
      && h.phentsize == n && (phdrs != [] ==> h.phoff + |phdrs| * n <= |data|)
      && (h.phnum == 0xffff ==> shdrs != [])
      && |phdrs| == (if h.phnum == 0xffff then shdrs[0].info else h.phnum)
      && forall i | 0 <= i < |phdrs| :: HasPhdr(data, h.phoff, i, n, phdrs[i])
  }

  /** The file has these headers, in this class and byte order. */
  predicate Describes(data: seq<byte>, x: Cooked) {
    && |data| >= 16 && data[0] == 0x7f && data[1] == 0x45 && data[2] == 0x4c && data[3] == 0x46
    && 1 <= data[4] <= 2 && x.cls == (if data[4] == 1 then Class32 else Class64)
    && 1 <= data[5] <= 2 && x.enc == (if data[5] == 1 then LSB else MSB)
    && data[6] == 1
    && |data| >= (if data[4] == 1 then 52 else 64) && IsEhdr(data, data[4], data[5], x.ehdr)
    && HasShdrs(data, x.ehdr, x.shdrs) && HasPhdrs(data, x.ehdr, x.shdrs, x.phdrs)
  }

  lemma IdentSays(data: seq<byte>)
    ensures Ident(data).Ok? <==>
            && |data| >= 16 && data[0] == 0x7f && data[1] == 0x45 && data[2] == 0x4c && data[3] == 0x46
            && 1 <= data[4] <= 2 && 1 <= data[5] <= 2 && data[6] == 1
    ensures Ident(data).Ok? ==>
              Ident(data).value == (if data[4] == 1 then Class32 else Class64, if data[5] == 1 then LSB else MSB)
  {
    if |data| >= 16 {
      assert data[..4] == [data[0], data[1], data[2], data[3]];
    }
  }

  /** An ELF header is a number of bytes at the start of the file. */
  lemma EhdrOfFile(data: seq<byte>, c: Class, e: Encoding, h: Ehdr)
    requires |data| >= EhdrSize(c) && (data[4] == 1 <==> c.Class32?) && (data[5] == 1 <==> e.LSB?)
    ensures IsEhdr(data, data[4], data[5], h) <==> h == LoadEhdr(c, e, data[..EhdrSize(c)])
  {
    hide LoadEhdr;
    var b := data[..EhdrSize(c)];
    EhdrIs(c, e, b, data[4], data[5]);
    EhdrPrefix(data, EhdrSize(c), data[4], data[5], LoadEhdr(c, e, b));
  }

  lemma EhdrPrefix(data: seq<byte>, n: nat, c: byte, d: byte, h: Ehdr)
    requires n == (if c == 1 then 52 else 64) && n <= |data| && IsEhdr(data[..n], c, d, h)
    ensures IsEhdr(data, c, d, h)
  {
    hide Value;
    var b := data[..n];
    assert data[..16] == b[..16];
    forall off: nat, m: nat, v: nat | Field(b, d, off, m, v)
      ensures Field(data, d, off, m, v)
    {
      assert b[off..off + m] == data[off..off + m];
    }
  }

  lemma ShdrOfRow(c: Class, e: Encoding, b: seq<byte>, cls: byte, d: byte, h: Shdr)
    requires |b| == ShdrSize(c) && (cls == 1 <==> c.Class32?) && (d == 1 <==> e.LSB?)
    ensures IsShdr(b, cls, d, h) <==> h == LoadShdr(c, e, b)
  {
    hide LoadShdr, Value;
    ShdrIs(c, e, b, cls, d);
  }

  lemma PhdrOfRow(c: Class, e: Encoding, b: seq<byte>, cls: byte, d: byte, h: Phdr)
    requires |b| == PhdrSize(c) && (cls == 1 <==> c.Class32?) && (d == 1 <==> e.LSB?)
    ensures IsPhdr(b, cls, d, h) <==> h == LoadPhdr(c, e, b)
  {
    hide LoadPhdr, Value;
    PhdrIs(c, e, b, cls, d);
  }

  /** A table has the rows that are read. */
  lemma ShdrTableIs(c: Class, e: Encoding, data: seq<byte>, off: nat, shdrs: seq<Shdr>)
    requires |data| >= 16 && (data[4] == 1 <==> c.Class32?) && (data[5] == 1 <==> e.LSB?)
    requires shdrs != [] ==> off <= |data| && |shdrs| <= (|data| - off) / ShdrSize(c)
    ensures shdrs == ShdrTable(c, e, data, off, |shdrs|)
            <==> forall k | 0 <= k < |shdrs| :: HasShdr(data, off, k, ShdrSize(c), shdrs[k])
  {
    hide LoadShdr, IsShdr;
    var t := ShdrTable(c, e, data, off, |shdrs|);
    forall k | 0 <= k < |shdrs|
      ensures HasShdr(data, off, k, ShdrSize(c), shdrs[k]) <==> shdrs[k] == t[k]
    {
      ShdrOfRow(c, e, Row(data, off, k, ShdrSize(c)), data[4], data[5], shdrs[k]);
    }
  }

  lemma PhdrHeld(c: Class, e: Encoding, data: seq<byte>, off: nat, i: nat, h: Phdr)
    requires |data| >= 16 && (data[4] == 1 <==> c.Class32?) && (data[5] == 1 <==> e.LSB?)
    ensures HasPhdr(data, off, i, PhdrSize(c), h) <==> HoldsPhdr(c, e, data, off, i, h)
  {
    hide LoadPhdr, IsPhdr;
    if off + i * PhdrSize(c) + PhdrSize(c) <= |data| {
      PhdrOfRow(c, e, Row(data, off, i, PhdrSize(c)), data[4], data[5], h);
    }
  }

  /** The program headers read are those that the file has. */
  lemma {:induction false} PhdrTableHolds(c: Class, e: Encoding, data: seq<byte>, off: nat, num: nat, i: nat)
    requires RoomFor(num, PhdrSize(c), off, |data|) && i < num
    ensures HoldsPhdr(c, e, data, off, i, PhdrTable(c, e, data, off, num)[i])
  {
    hide LoadPhdr, Row;
    RowsInside(off, num - 1, num, PhdrSize(c), |data|);
    if i < num - 1 {
      PhdrTableHolds(c, e, data, off, num - 1, i);
    }
  }

  lemma PhdrTableHas(c: Class, e: Encoding, data: seq<byte>, off: nat, phdrs: seq<Phdr>)
    requires |data| >= 16 && (data[4] == 1 <==> c.Class32?) && (data[5] == 1 <==> e.LSB?)
    requires RoomFor(|phdrs|, PhdrSize(c), off, |data|)
    ensures phdrs == PhdrTable(c, e, data, off, |phdrs|)
            <==> forall i | 0 <= i < |phdrs| :: HasPhdr(data, off, i, PhdrSize(c), phdrs[i])
  {
    hide HoldsPhdr, HasPhdr, PhdrTable, RoomFor, PhdrSize;
    forall i | 0 <= i < |phdrs|
      ensures HasPhdr(data, off, i, PhdrSize(c), phdrs[i]) <==> HoldsPhdr(c, e, data, off, i, phdrs[i])
      ensures HoldsPhdr(c, e, data, off, i, PhdrTable(c, e, data, off, |phdrs|)[i])
    {
      PhdrHeld(c, e, data, off, i, phdrs[i]);
      PhdrTableHolds(c, e, data, off, |phdrs|, i);
    }
    if forall i | 0 <= i < |phdrs| :: HasPhdr(data, off, i, PhdrSize(c), phdrs[i]) {
      PhdrTableIs(c, e, data, off, phdrs);
    }
  }

  /** A table fits in a file by division exactly if it does by multiplication. */
  lemma FitsTable(off: nat, num: nat, size: nat, len: nat)
    requires size > 0 && num > 0 && off <= len
    ensures num <= (len - off) / size <==> off + num * size <= len
  {
    if num <= (len - off) / size {
      RowsInside(off, num - 1, num, size, len);
      NextRow(off, num - 1, size);
    } else if off + num * size <= len {
      Enough(off, num, size, len);
    }
  }

  lemma ShdrsAre(data: seq<byte>, c: Class, e: Encoding, h: Ehdr, shdrs: seq<Shdr>)
    requires |data| >= 16 && (data[4] == 1 <==> c.Class32?) && (data[5] == 1 <==> e.LSB?)
    ensures ReadShdrs(c, e, data, h) == Ok(shdrs) <==> HasShdrs(data, h, shdrs)
  {
    hide LoadShdr, IsShdr, Row;
    var n := ShdrSize(c);
    if h.shoff != 0 && h.shoff <= |data| && shdrs != [] && h.shentsize == n {
      FitsTable(h.shoff, |shdrs|, n, |data|);
      if |shdrs| <= (|data| - h.shoff) / n {
        ShdrTableIs(c, e, data, h.shoff, shdrs);
        FirstShdrIs(data, c, e, h, shdrs[0]);
      }
    }
  }

  /** The first row of the section header table. */
  lemma FirstShdrIs(data: seq<byte>, c: Class, e: Encoding, h: Ehdr, first: Shdr)
    requires |data| >= 16 && (data[4] == 1 <==> c.Class32?) && (data[5] == 1 <==> e.LSB?)
    requires h.shoff + ShdrSize(c) <= |data|
    ensures HasShdr(data, h.shoff, 0, ShdrSize(c), first) <==> first == LoadShdr(c, e, data[h.shoff..h.shoff + ShdrSize(c)])
  {
    hide LoadShdr, IsShdr;
    ShdrOfRow(c, e, data[h.shoff..h.shoff + ShdrSize(c)], data[4], data[5], first);
  }

  lemma PhdrsAre(data: seq<byte>, c: Class, e: Encoding, h: Ehdr, shdrs: seq<Shdr>, phdrs: seq<Phdr>)
    requires |data| >= 16 && (data[4] == 1 <==> c.Class32?) && (data[5] == 1 <==> e.LSB?)
    ensures ReadPhdrs(c, e, data, h, shdrs) == Ok(phdrs) <==> HasPhdrs(data, h, shdrs, phdrs)
  {
    hide LoadPhdr, IsPhdr, Row, PhdrTable;
    var n := PhdrSize(c);
    if h.phoff != 0 && h.phentsize == n && (phdrs == [] || h.phoff <= |data|) {
      if phdrs != [] {
        FitsTable(h.phoff, |phdrs|, n, |data|);
      }
      if phdrs == [] || |phdrs| <= (|data| - h.phoff) / n {
        PhdrTableHas(c, e, data, h.phoff, phdrs);
      }
    }
  }

  /** What is read is what the file says, and everything that files can say is read. */
  lemma ReadIs(data: seq<byte>, x: Cooked)
    ensures Read(data) == Ok(x) <==> Describes(data, x)
  {
    hide LoadEhdr, IsEhdr, ReadShdrs, ReadPhdrs, HasShdrs, HasPhdrs, Ident;
    IdentSays(data);
    if Ident(data).Ok? {
      var (c, e) := Ident(data).value;
      if |data| >= EhdrSize(c) {
        EhdrOfFile(data, c, e, x.ehdr);
        ShdrsAre(data, c, e, x.ehdr, x.shdrs);
        PhdrsAre(data, c, e, x.ehdr, x.shdrs, x.phdrs);
      }
    }
  }

  // ---------- reading undoes writing ----------

  /** img is the file of the object o after automatic layout. */
  ghost predicate IsFile(o: Object, native: byte, img: seq<byte>) {
    && Fitting(o) && Layable(o) && 1 <= native <= 2 && |img| == Length(o)
    && Prepared(Laid(o, native))
    && forall p {:trigger Has(Laid(o, native), p)} | Has(Laid(o, native), p) :: Holds(img, Laid(o, native), OutEnc(o, native), p)
  }

  function OutEnc(o: Object, native: byte): Encoding
    requires o.Ok()
  {
    EncodingOf(OutEncoding(o, native))
  }

  function Headers(scns: seq<Scn>): (r: seq<Shdr>)
    ensures |r| == |scns|
  {
    seq(|scns|, k requires 0 <= k < |scns| => scns[k].shdr)
  }

  lemma HeaderRead(o: Object, native: byte, img: seq<byte>)
    requires IsFile(o, native, img)
    ensures Ident(img) == Ok((o.cls, OutEnc(o, native)))
    ensures EhdrSize(o.cls) <= |img| && LoadEhdr(o.cls, OutEnc(o, native), img[..EhdrSize(o.cls)]) == Laid(o, native).ehdr
  {
    hide StoreRecord, LoadRecord, LaidScns, CountedEhdr;
    var r, e := Laid(o, native), OutEnc(o, native);
    assert Has(r, Header);
    assert img[0..EhdrSize(o.cls)] == img[..EhdrSize(o.cls)];
    EhdrRoundTrip(o.cls, e, r.ehdr);
    StoredIdent(o.cls, e, r.ehdr);
    Prefix(img, EhdrSize(o.cls), EI_NIDENT);
    IdentIs(img, r.ehdr.ident);
    LaidIdentRead(o, native);
  }

  lemma StoredIdent(c: Class, e: Encoding, h: Ehdr)
    requires EhdrFits(c, h)
    ensures StoreEhdr(c, e, h)[..EI_NIDENT] == h.ident
  {
  }

  lemma Prefix(img: seq<byte>, n: nat, m: nat)
    requires m <= n <= |img|
    ensures img[..n][..m] == img[..m]
  {
  }

  lemma LaidIdentRead(o: Object, native: byte)
    requires o.Ok() && Layable(o) && 1 <= native <= 2
    ensures Ident(Laid(o, native).ehdr.ident) == Ok((o.cls, OutEnc(o, native)))
    ensures EncodingOf(Laid(o, native).ehdr.ident[EI_DATA]) == OutEnc(o, native)
  {
  }

  lemma IdentIs(img: seq<byte>, ident: seq<byte>)
    requires |ident| == EI_NIDENT <= |img| && img[..EI_NIDENT] == ident
    ensures Ident(img) == Ident(ident)
  {
    forall k | 0 <= k < EI_NIDENT
      ensures img[k] == ident[k]
    {
      assert img[..EI_NIDENT][k] == ident[k];
    }
    assert img[..4] == ident[..4];
  }

  lemma ShdrRead(o: Object, native: byte, img: seq<byte>, k: nat)
    requires IsFile(o, native, img) && k < |o.scns|
    ensures var r := Laid(o, native);
            && r.ehdr.shoff == ShOff(o) && ShOff(o) + k * ShdrSize(o.cls) + ShdrSize(o.cls) <= |img|
            && LoadShdr(o.cls, OutEnc(o, native), Row(img, ShOff(o), k, ShdrSize(o.cls))) == r.scns[k].shdr
  {
    var r := Laid(o, native);
    LaidTables(o, native);
    hide Laid, Layable, LoadShdr, Fit;
    assert Has(r, SectionHeader(k));
    SectionHeaderRegion(o, native, k);
    ShdrRoundTrip(o.cls, OutEnc(o, native), r.scns[k].shdr);
  }

  lemma PhdrRead(o: Object, native: byte, img: seq<byte>, i: nat)
    requires IsFile(o, native, img) && i < |o.phdrs|
    ensures PhOff(o) + i * PhdrSize(o.cls) + PhdrSize(o.cls) <= |img|
    ensures LoadPhdr(o.cls, OutEnc(o, native), Row(img, PhOff(o), i, PhdrSize(o.cls))) == o.phdrs[i]
  {
    hide Prepared, LaidScns, LoadPhdr, StorePhdr, Layable;
    var r := Laid(o, native);
    assert Has(r, Segment(i));
    SegmentRegion(o, native, i);
    LengthBounds(o);
    PhdrRoundTrip(o.cls, OutEnc(o, native), r.phdrs[i]);
  }

  /** The section count survives, extended numbering or not. */
  lemma ShdrsRead(o: Object, native: byte, img: seq<byte>)
    requires IsFile(o, native, img)
    ensures ReadShdrs(o.cls, OutEnc(o, native), img, Laid(o, native).ehdr) == Ok(Headers(Laid(o, native).scns))
  {
    hide LoadShdr, Row;
    var r, e, n, size := Laid(o, native), OutEnc(o, native), |o.scns|, ShdrSize(o.cls);
    LengthBounds(o);
    TruncSmall(o.cls, ShOff(o));
    if n > 0 {
      ShdrRead(o, native, img, 0);
      Enough(ShOff(o), n, size, |img|);
      assert Row(img, ShOff(o), 0, size) == img[ShOff(o)..ShOff(o) + size] by { FirstRow(img, ShOff(o), size); }
      assert ShNum(o.cls, e, img, r.ehdr) == n;
      Exactly(ShOff(o), n, size, |img|);
      var t := ShdrTable(o.cls, e, img, ShOff(o), n);
      forall k | 0 <= k < n
        ensures t[k] == r.scns[k].shdr
      {
        ShdrRead(o, native, img, k);
      }
      assert t == Headers(r.scns);
    } else {
      assert Headers(r.scns) == [];
    }
  }

  lemma FirstRow(data: seq<byte>, off: nat, size: nat)
    requires off + size <= |data|
    ensures Row(data, off, 0, size) == data[off..off + size]
  {
  }

  lemma Exactly(off: nat, n: nat, size: nat, len: nat)
    requires size > 0 && len == off + n * size
    ensures (len - off) / size == n
  {
    MulMod(n, size);
    ModUnique(n * size, size, n, 0);
  }

  lemma PhdrTableRead(o: Object, native: byte, img: seq<byte>)
    requires IsFile(o, native, img) && o.phdrs != []
    ensures RoomFor(|o.phdrs|, PhdrSize(o.cls), PhOff(o), |img|)
    ensures PhdrTable(o.cls, OutEnc(o, native), img, PhOff(o), |o.phdrs|) == o.phdrs
  {
    hide LoadPhdr, Row, Laid, PhdrTable, PhOff, Prepared, Layable, Holds, Has, PhdrSize, RoomFor;
    forall i | 0 <= i < |o.phdrs|
      ensures HoldsPhdr(o.cls, OutEnc(o, native), img, PhOff(o), i, o.phdrs[i])
    {
      PhdrRead(o, native, img, i);
    }
    PhdrTableIs(o.cls, OutEnc(o, native), img, PhOff(o), o.phdrs);
  }

  /** Row i of a program header table is there and holds h. */
  predicate HoldsPhdr(c: Class, e: Encoding, img: seq<byte>, off: nat, i: nat, h: Phdr) {
    off + i * PhdrSize(c) + PhdrSize(c) <= |img| && LoadPhdr(c, e, Row(img, off, i, PhdrSize(c))) == h
  }

  lemma {:induction false} PhdrTableIs(c: Class, e: Encoding, img: seq<byte>, off: nat, phdrs: seq<Phdr>)
    requires forall i | 0 <= i < |phdrs| :: HoldsPhdr(c, e, img, off, i, phdrs[i])
    ensures RoomFor(|phdrs|, PhdrSize(c), off, |img|) && PhdrTable(c, e, img, off, |phdrs|) == phdrs
  {
    hide HoldsPhdr, PhdrTable, PhdrSize, RoomFor;
    if phdrs != [] {
      var n := |phdrs|;
      var init := phdrs[..n - 1];
      PhdrTableIs(c, e, img, off, init);
      assert HoldsPhdr(c, e, img, off, n - 1, phdrs[n - 1]);
      OneMorePhdr(c, e, img, off, n - 1, phdrs[n - 1]);
      assert phdrs == init + [phdrs[n - 1]];
    } else {
      NoPhdrs(c, e, img, off);
    }
  }

  lemma NoPhdrs(c: Class, e: Encoding, img: seq<byte>, off: nat)
    ensures RoomFor(0, PhdrSize(c), off, |img|) && PhdrTable(c, e, img, off, 0) == []
  {
  }

  lemma OneMorePhdr(c: Class, e: Encoding, img: seq<byte>, off: nat, i: nat, h: Phdr)
    requires HoldsPhdr(c, e, img, off, i, h)
    requires RoomFor(i, PhdrSize(c), off, |img|)
    ensures RoomFor(i + 1, PhdrSize(c), off, |img|)
    ensures PhdrTable(c, e, img, off, i + 1) == PhdrTable(c, e, img, off, i) + [h]
  {
    hide LoadPhdr, Row;
    NextRow(off, i, PhdrSize(c));
    Enough(off, i + 1, PhdrSize(c), |img|);
  }

  /** So does the number of program headers. */
  lemma PhdrsRead(o: Object, native: byte, img: seq<byte>)
    requires IsFile(o, native, img)
    ensures ReadPhdrs(o.cls, OutEnc(o, native), img, Laid(o, native).ehdr, Headers(Laid(o, native).scns)) == Ok(o.phdrs)
  {
    hide PhdrTable, Prepared;
    LengthBounds(o);
    TruncSmall(o.cls, PhOff(o));
    if o.phdrs != [] {
      PhdrTableRead(o, native, img);
    }
  }

  /** Cooking the bytes of a written object gives back its header, its program headers and its
      section headers as the layout left them, however many there are, in either byte order. */
  lemma CookUndoesWrite(o: Object, native: byte, img: seq<byte>)
    requires IsFile(o, native, img)
    ensures var r := Laid(o, native);
            Read(img) == Ok(Cooked(o.cls, OutEnc(o, native), r.ehdr, o.phdrs, Headers(r.scns)))
  {
    HeaderRead(o, native, img);
    ShdrsRead(o, native, img);
    PhdrsRead(o, native, img);
  }

  /** The headers of a file, in the byte order that its e_ident[EI_DATA] names. */
  ghost predicate Says(data: seq<byte>, c: Class, h: Ehdr, phdrs: seq<Phdr>, shdrs: seq<Shdr>) {
    exists e :: Describes(data, Cooked(c, e, h, phdrs, shdrs))
  }

  /** The bytes of a buffer are in the file, at the section's offset plus the buffer's. */
  predicate HoldsBuf(img: seq<byte>, s: Scn, b: Buf) {
    var at := s.shdr.offset + b.off;
    at + |b.image| <= |img| && img[at..at + |b.image|] == b.image
  }

  ghost predicate HoldsData(img: seq<byte>, scns: seq<Scn>) {
    forall k: nat, b: nat {:trigger scns[k].bufs[b]} |
      0 < k < |scns| && scns[k].shdr.shtype != SHT_NULL && scns[k].shdr.shtype != SHT_NOBITS
      && b < |scns[k].bufs| && scns[k].bufs[b].size != 0 :: HoldsBuf(img, scns[k], scns[k].bufs[b])
  }

  /** The bytes of a written object: each field of its headers where the gABI has it, and its buffers
      where their offsets say. */
  lemma WrittenBytes(o: Object, native: byte, img: seq<byte>)
    requires IsFile(o, native, img)
    ensures var r := Laid(o, native);
            Says(img, o.cls, r.ehdr, o.phdrs, Headers(r.scns)) && HoldsData(img, r.scns)
  {
    hide Describes, LaidScns, Layable, Holds, Prepared, HoldsData;
    CookUndoesWrite(o, native, img);
    var r := Laid(o, native);
    ReadIs(img, Cooked(o.cls, OutEnc(o, native), r.ehdr, o.phdrs, Headers(r.scns)));
    DataWritten(r, OutEnc(o, native), img);
  }

  lemma DataWritten(r: Object, e: Encoding, img: seq<byte>)
    requires Prepared(r) && forall p {:trigger Has(r, p)} | Has(r, p) :: Holds(img, r, e, p)
    ensures HoldsData(img, r.scns)
  {
    hide Holds, Prepared, HoldsBuf;
    forall k: nat, b: nat | 0 < k < |r.scns| && r.scns[k].shdr.shtype != SHT_NULL && r.scns[k].shdr.shtype != SHT_NOBITS
                            && b < |r.scns[k].bufs| && r.scns[k].bufs[b].size != 0
      ensures HoldsBuf(img, r.scns[k], r.scns[k].bufs[b])
    {
      assert Has(r, Data(k, b));
      BufHeld(r, e, img, k, b);
    }
  }

  lemma BufHeld(r: Object, e: Encoding, img: seq<byte>, k: nat, b: nat)
    requires Prepared(r) && Has(r, Data(k, b))
    requires Holds(img, r, e, Data(k, b))
    ensures HoldsBuf(img, r.scns[k], r.scns[k].bufs[b])
  {
  }

  /** A section of bytes as elf_getdata sees it. */
  function ByteExtent(s: Shdr): SectionData.Extent {
    SectionData.Extent(s.offset, s.size, [B1], s.shtype == SHT_NULL, s.shtype == SHT_NOBITS)
  }

  /** And what elf_getdata gives for every section read back holds the program's buffers at their
      offsets. */
  lemma DataRead(o: Object, native: byte, img: seq<byte>, k: nat, b: nat, machine: Encoding)
    requires IsFile(o, native, img) && InFile(o, k) && b < |o.scns[k].bufs|
    requires o.scns[k].bufs[b].size != 0 && o.scns[k].bufs[b].image != []
    requires |img| < TWO_64
    ensures FormatSize([B1]) > 0
    ensures var s := Laid(o, native).scns[k];
            var buf, r := s.bufs[b], SectionData.AnswerFor(img, k, ByteExtent(s.shdr), OutEnc(o, native), machine);
            && r.Contents? && buf.image == o.scns[k].bufs[b].image && buf.off + |buf.image| <= |r.bytes|
            && r.bytes[buf.off..buf.off + |buf.image|] == buf.image
  {
    hide SectionData.AnswerFor, LaidScns, Layable, Holds, Prepared, Length, Laid, FormatSize;
    DataExtent(o, native, k, b);
    DataHeld(o, native, img, k, b);
    var s := Laid(o, native).scns[k];
    Slice(img, s.shdr.offset, s.shdr.size, s.bufs[b].off, |s.bufs[b].image|);
    ByteAnswer(img, k, s.shdr, OutEnc(o, native), machine);
  }

  lemma ByteAnswer(img: seq<byte>, k: nat, s: Shdr, from: Encoding, to: Encoding)
    requires k > 0 && s.shtype != SHT_NULL && s.shtype != SHT_NOBITS && s.size > 0 && s.offset + s.size <= |img| < TWO_64
    ensures FormatSize([B1]) > 0
    ensures SectionData.AnswerFor(img, k, ByteExtent(s), from, to) == SectionData.Contents(img[s.offset..s.offset + s.size])
  {
    hide SectionData.Table;
    SectionData.BytesAsTheyAre(img[s.offset..s.offset + s.size], from, to);
  }

  lemma DataHeld(o: Object, native: byte, img: seq<byte>, k: nat, b: nat)
    requires IsFile(o, native, img) && InFile(o, k) && b < |o.scns[k].bufs| && o.scns[k].bufs[b].size != 0
    ensures var s := Laid(o, native).scns[k];
            var at := s.shdr.offset + s.bufs[b].off;
            && at + |s.bufs[b].image| <= |img| && img[at..at + |s.bufs[b].image|] == s.bufs[b].image
  {
    hide Prepared;
    assert Has(Laid(o, native), Data(k, b));
  }

  lemma DataExtent(o: Object, native: byte, k: nat, b: nat)
    requires Fitting(o) && InFile(o, k) && b < |o.scns[k].bufs| && o.scns[k].bufs[b].size != 0
    ensures k < |Laid(o, native).scns| && b < |Laid(o, native).scns[k].bufs|
    ensures var s := Laid(o, native).scns[k];
            && s.shdr.offset + s.shdr.size <= Length(o) && s.bufs[b].off + |s.bufs[b].image| <= s.shdr.size
            && s.bufs[b].image == o.scns[k].bufs[b].image && s.shdr.shtype != SHT_NOBITS && s.shdr.shtype != SHT_NULL
  {
    Stored(o, native, k);
    LengthBounds(o);
    BuffersOrdered(o.scns[k].bufs, false, b, b);
  }
}
