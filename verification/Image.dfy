/** update.c, second half: _elf32_write and _elf64_write, which put the parts of an object that has
    been laid out into the file's image. */
module Image {
  import opened Sequences
  import opened Bytes
  import opened ElfConstants
  import opened Records
  import opened Layout
  import opened Placement

  /** A part of the file that is written in one piece. */
  datatype Part =
    | Header
    | Segment(i: nat)
    | SectionHeader(k: nat)
    | Data(k: nat, b: nat)

  function EncodingOf(b: byte): Encoding {
    if b == 1 then LSB else MSB
  }

  /** What both layouts leave behind: entry sizes that match the class, and values that fit their
      fields. */
  predicate Prepared(o: Object) {
    && EhdrFits(o.cls, o.ehdr) && o.ehdr.ehsize == EhdrSize(o.cls)
    && (o.phdrs != [] ==> o.ehdr.phentsize == PhdrSize(o.cls))
    && (o.scns != [] ==> o.ehdr.shentsize == ShdrSize(o.cls))
    && (forall i | 0 <= i < |o.phdrs| :: PhdrFits(o.cls, o.phdrs[i]))
    && (forall k | 0 <= k < |o.scns| :: ShdrFits(o.cls, o.scns[k].shdr))
  }

  predicate Has(o: Object, p: Part) {
    match p
    case Header => true
    case Segment(i) => i < |o.phdrs|
    case SectionHeader(k) => k < |o.scns|
    case Data(k, b) => InFile(o, k) && b < |o.scns[k].bufs| && o.scns[k].bufs[b].size != 0
  }

  function PartOff(o: Object, p: Part): nat
    requires Has(o, p)
  {
    match p
    case Header => 0
    case Segment(i) => o.ehdr.phoff + i * PhdrSize(o.cls)
    case SectionHeader(k) => o.ehdr.shoff + k * ShdrSize(o.cls)
    case Data(k, b) => o.scns[k].shdr.offset + o.scns[k].bufs[b].off
  }

  function PartSize(o: Object, p: Part): nat
    requires Has(o, p)
  {
    match p
    case Header => EhdrSize(o.cls)
    case Segment(i) => PhdrSize(o.cls)
    case SectionHeader(k) => ShdrSize(o.cls)
    case Data(k, b) => |o.scns[k].bufs[b].image|
  }

  function PartBytes(o: Object, e: Encoding, p: Part): (b: seq<byte>)
    requires Prepared(o) && Has(o, p)
    ensures |b| == PartSize(o, p)
  {
    match p
    case Header => StoreEhdr(o.cls, e, o.ehdr)
    case Segment(i) => StorePhdr(o.cls, e, o.phdrs[i])
    case SectionHeader(k) => StoreShdr(o.cls, e, o.scns[k].shdr)
    case Data(k, b) => o.scns[k].bufs[b].image
  }

  /** The part lies within the first len bytes. */
  predicate Inside(o: Object, len: nat, p: Part)
    requires Has(o, p)
  {
    PartOff(o, p) + PartSize(o, p) <= len
  }

  predicate Apart(o: Object, p: Part, q: Part)
    requires Has(o, p) && Has(o, q)
  {
    PartOff(o, p) + PartSize(o, p) <= PartOff(o, q) || PartOff(o, q) + PartSize(o, q) <= PartOff(o, p)
  }

  ghost predicate AllApart(o: Object) {
    forall p, q {:trigger Has(o, p), Has(o, q)} | Has(o, p) && Has(o, q) && p != q :: Apart(o, p, q)
  }

  /** The image holds the part at its place. */
  predicate Holds(img: seq<byte>, o: Object, e: Encoding, p: Part)
    requires Prepared(o) && Has(o, p)
  {
    Inside(o, |img|, p) && img[PartOff(o, p)..PartOff(o, p) + PartSize(o, p)] == PartBytes(o, e, p)
  }

  // ---------- writing ----------

  lemma PutHolds(img: seq<byte>, o: Object, e: Encoding, p: Part, q: Part)
    requires Prepared(o) && Has(o, p) && Has(o, q) && Inside(o, |img|, p)
    ensures var r := Overwritten(img, PartOff(o, p), PartBytes(o, e, p));
            Holds(r, o, e, p) && (p != q && Apart(o, p, q) && Holds(img, o, e, q) ==> Holds(r, o, e, q))
  {
    hide Overwritten, PartBytes, Has, PartOff, PartSize, Prepared;
    OverwrittenAt(img, PartOff(o, p), PartBytes(o, e, p));
    if Apart(o, p, q) && Holds(img, o, e, q) {
      HeldElsewhere(img, o, e, PartOff(o, p), PartBytes(o, e, p), q);
    }
  }

  lemma HeldElsewhere(img: seq<byte>, o: Object, e: Encoding, off: nat, b: seq<byte>, q: Part)
    requires Prepared(o) && Has(o, q) && off + |b| <= |img| && Holds(img, o, e, q)
    requires off + |b| <= PartOff(o, q) || PartOff(o, q) + PartSize(o, q) <= off
    ensures Holds(Overwritten(img, off, b), o, e, q)
  {
    hide Overwritten, PartBytes, Has, PartOff, PartSize, Prepared;
    OverwrittenApart(img, off, b, PartOff(o, q), PartOff(o, q) + PartSize(o, q));
  }

  /** How far the writer has come: header, segments, then each section's header and its data. */
  datatype Progress = Progress(segments: nat, sections: nat, bufs: int)

  predicate Written(w: Progress, p: Part) {
    match p
    case Header => true
    case Segment(i) => i < w.segments
    case SectionHeader(k) => k < w.sections || (k == w.sections && w.bufs >= 0)
    case Data(k, b) => k < w.sections || (k == w.sections && b < w.bufs)
  }

  ghost predicate AllHeld(img: seq<byte>, o: Object, e: Encoding, w: Progress)
    requires Prepared(o)
  {
    forall p {:trigger Written(w, p)} | Has(o, p) && Written(w, p) :: Holds(img, o, e, p)
  }

  lemma PutKeeps(img: seq<byte>, o: Object, e: Encoding, p: Part, w: Progress, next: Progress)
    requires Prepared(o) && Has(o, p) && Inside(o, |img|, p) && AllApart(o) && AllHeld(img, o, e, w)
    requires forall q :: Has(o, q) && Written(next, q) ==> q == p || Written(w, q)
    ensures AllHeld(Overwritten(img, PartOff(o, p), PartBytes(o, e, p)), o, e, next)
  {
    forall q | Has(o, q) && Written(next, q)
      ensures Holds(Overwritten(img, PartOff(o, p), PartBytes(o, e, p)), o, e, q)
    {
      PutHolds(img, o, e, p, q);
    }
  }

  /** A data buffer with a size has memory and a known type. */
  predicate BufOk(b: Buf) {
    b.size != 0 ==> b.present && b.valid
  }

  predicate DataOk(o: Object, k: nat) {
    InFile(o, k) ==> forall b | 0 <= b < |o.scns[k].bufs| :: BufOk(o.scns[k].bufs[b])
  }

  /** The object has been laid out, in no more than len bytes. */
  ghost predicate Writable(o: Object, len: nat) {
    Prepared(o) && forall p {:trigger Has(o, p)} | Has(o, p) :: Inside(o, len, p)
  }

  /** _elf32_write and _elf64_write: fails exactly when a buffer cannot be written; and if the
      parts of the file do not overlap, the image then holds every part. */
  method Write(o: Object, outbuf: array<byte>) returns (ok: bool)
    requires Writable(o, outbuf.Length)
    modifies outbuf
    ensures ok <==> forall k | 0 <= k < |o.scns| :: DataOk(o, k)
    ensures ok && AllApart(o) ==>
              forall p {:trigger Has(o, p)} | Has(o, p) :: Holds(outbuf[..], o, EncodingOf(o.ehdr.ident[EI_DATA]), p)
  {
    hide AllHeld, AllApart, Overwritten, Holds, DataOk, Fit, Inside;
    var e := EncodingOf(o.ehdr.ident[EI_DATA]);
    ghost var apart := AllApart(o);
    WriteHeader(o, e, outbuf);
    WriteSegments(o, e, outbuf);
    var k := 0;
    while k < |o.scns|
      invariant k <= |o.scns|
      invariant apart ==> AllHeld(outbuf[..], o, e, Progress(|o.phdrs|, k, -1))
      invariant forall j | 0 <= j < k :: DataOk(o, j)
    {
      ok := WriteSection(o, e, k, outbuf);
      if !ok {
        return;
      }
      k := k + 1;
    }
    ok := true;
    if apart {
      Everything(outbuf[..], o, e);
    }
  }

  /** A section's header and its data. */
  method WriteSection(o: Object, e: Encoding, k: nat, outbuf: array<byte>) returns (ok: bool)
    requires Writable(o, outbuf.Length)
    requires k < |o.scns|
    modifies outbuf
    ensures ok <==> DataOk(o, k)
    ensures ok && AllApart(o) && old(AllHeld(outbuf[..], o, e, Progress(|o.phdrs|, k, -1))) ==>
              AllHeld(outbuf[..], o, e, Progress(|o.phdrs|, k + 1, -1))
  {
    hide AllHeld, AllApart, Overwritten, DataOk;
    ghost var held := AllApart(o) && AllHeld(outbuf[..], o, e, Progress(|o.phdrs|, k, -1));
    ghost var before := outbuf[..];
    assert Has(o, SectionHeader(k));
    CopyInto(outbuf, o.ehdr.shoff + k * o.ehdr.shentsize, StoreShdr(o.cls, e, o.scns[k].shdr));
    if held {
      HeaderKept(before, o, e, k);
    }
    ok := WriteData(o, e, k, outbuf);
    if ok && held {
      NextSection(outbuf[..], o, e, k);
    }
  }

  method WriteHeader(o: Object, e: Encoding, outbuf: array<byte>)
    requires Writable(o, outbuf.Length)
    modifies outbuf
    ensures AllHeld(outbuf[..], o, e, Progress(0, 0, -1))
  {
    ghost var before := outbuf[..];
    assert Has(o, Header);
    CopyInto(outbuf, 0, StoreEhdr(o.cls, e, o.ehdr));
    HeaderHeld(before, o, e);
  }

  lemma HeaderHeld(img: seq<byte>, o: Object, e: Encoding)
    requires Prepared(o) && Inside(o, |img|, Header)
    ensures AllHeld(Overwritten(img, 0, StoreEhdr(o.cls, e, o.ehdr)), o, e, Progress(0, 0, -1))
  {
    PutHolds(img, o, e, Header, Header);
    forall p | Has(o, p) && Written(Progress(0, 0, -1), p)
      ensures p == Header
    {
    }
  }

  method WriteSegments(o: Object, e: Encoding, outbuf: array<byte>)
    requires Writable(o, outbuf.Length)
    modifies outbuf
    ensures AllApart(o) && old(AllHeld(outbuf[..], o, e, Progress(0, 0, -1))) ==>
              AllHeld(outbuf[..], o, e, Progress(|o.phdrs|, 0, -1))
  {
    hide AllHeld, AllApart, Overwritten;
    ghost var held := AllApart(o) && AllHeld(outbuf[..], o, e, Progress(0, 0, -1));
    for i := 0 to |o.phdrs|
      invariant held ==> AllHeld(outbuf[..], o, e, Progress(i, 0, -1))
    {
      ghost var before := outbuf[..];
      assert Has(o, Segment(i));
      CopyInto(outbuf, o.ehdr.phoff + i * o.ehdr.phentsize, StorePhdr(o.cls, e, o.phdrs[i]));
      if held {
        SegmentKept(before, o, e, i);
      }
    }
  }

  /** The buffers of one section. */
  method WriteData(o: Object, e: Encoding, k: nat, outbuf: array<byte>) returns (ok: bool)
    requires Writable(o, outbuf.Length)
    requires k < |o.scns|
    modifies outbuf
    ensures ok <==> DataOk(o, k)
    ensures ok && AllApart(o) && old(AllHeld(outbuf[..], o, e, Progress(|o.phdrs|, k, 0))) ==>
              AllHeld(outbuf[..], o, e, Progress(|o.phdrs|, k, |o.scns[k].bufs|))
  {
    hide AllHeld, AllApart, Overwritten, Prepared;
    var s := o.scns[k];
    ghost var held := AllApart(o) && AllHeld(outbuf[..], o, e, Progress(|o.phdrs|, k, 0));
    if k == 0 || s.shdr.shtype == SHT_NULL || s.shdr.shtype == SHT_NOBITS {
      if held {
        NothingHeld(outbuf[..], o, e, k);
      }
      return true;
    }
    for b := 0 to |s.bufs|
      invariant held ==> AllHeld(outbuf[..], o, e, Progress(|o.phdrs|, k, b))
      invariant forall j | 0 <= j < b :: BufOk(s.bufs[j])
    {
      var src := s.bufs[b];
      ghost var before := outbuf[..];
      if src.size == 0 {
        if held {
          EmptyBuffer(before, o, e, k, b);
        }
      } else if !src.present || !src.valid {
        return false;
      } else {
        assert Has(o, Data(k, b));
        CopyInto(outbuf, s.shdr.offset + src.off, src.image);
        if held {
          DataKept(before, o, e, k, b);
        }
      }
    }
    ok := true;
  }

  lemma SegmentKept(img: seq<byte>, o: Object, e: Encoding, i: nat)
    requires Prepared(o) && Has(o, Segment(i)) && Inside(o, |img|, Segment(i)) && AllApart(o)
    requires AllHeld(img, o, e, Progress(i, 0, -1))
    ensures AllHeld(Overwritten(img, PartOff(o, Segment(i)), PartBytes(o, e, Segment(i))), o, e, Progress(i + 1, 0, -1))
  {
    PutKeeps(img, o, e, Segment(i), Progress(i, 0, -1), Progress(i + 1, 0, -1));
  }

  lemma HeaderKept(img: seq<byte>, o: Object, e: Encoding, k: nat)
    requires Prepared(o) && Has(o, SectionHeader(k)) && Inside(o, |img|, SectionHeader(k)) && AllApart(o)
    requires AllHeld(img, o, e, Progress(|o.phdrs|, k, -1))
    ensures AllHeld(Overwritten(img, PartOff(o, SectionHeader(k)), PartBytes(o, e, SectionHeader(k))), o, e,
                    Progress(|o.phdrs|, k, 0))
  {
    PutKeeps(img, o, e, SectionHeader(k), Progress(|o.phdrs|, k, -1), Progress(|o.phdrs|, k, 0));
  }

  lemma DataKept(img: seq<byte>, o: Object, e: Encoding, k: nat, b: nat)
    requires Prepared(o) && Has(o, Data(k, b)) && Inside(o, |img|, Data(k, b)) && AllApart(o)
    requires AllHeld(img, o, e, Progress(|o.phdrs|, k, b))
    ensures AllHeld(Overwritten(img, PartOff(o, Data(k, b)), PartBytes(o, e, Data(k, b))), o, e, Progress(|o.phdrs|, k, b + 1))
  {
    PutKeeps(img, o, e, Data(k, b), Progress(|o.phdrs|, k, b), Progress(|o.phdrs|, k, b + 1));
  }

  lemma NothingHeld(img: seq<byte>, o: Object, e: Encoding, k: nat)
    requires Prepared(o) && k < |o.scns| && !InFile(o, k) && AllHeld(img, o, e, Progress(|o.phdrs|, k, 0))
    ensures AllHeld(img, o, e, Progress(|o.phdrs|, k, |o.scns[k].bufs|))
  {
    Advance(img, o, e, Progress(|o.phdrs|, k, 0), Progress(|o.phdrs|, k, |o.scns[k].bufs|));
  }

  lemma EmptyBuffer(img: seq<byte>, o: Object, e: Encoding, k: nat, b: nat)
    requires Prepared(o) && k < |o.scns| && b < |o.scns[k].bufs| && o.scns[k].bufs[b].size == 0
    requires AllHeld(img, o, e, Progress(|o.phdrs|, k, b))
    ensures AllHeld(img, o, e, Progress(|o.phdrs|, k, b + 1))
  {
    Advance(img, o, e, Progress(|o.phdrs|, k, b), Progress(|o.phdrs|, k, b + 1));
  }

  lemma NextSection(img: seq<byte>, o: Object, e: Encoding, k: nat)
    requires Prepared(o) && k < |o.scns| && AllHeld(img, o, e, Progress(|o.phdrs|, k, |o.scns[k].bufs|))
    ensures AllHeld(img, o, e, Progress(|o.phdrs|, k + 1, -1))
  {
    Advance(img, o, e, Progress(|o.phdrs|, k, |o.scns[k].bufs|), Progress(|o.phdrs|, k + 1, -1));
  }

  lemma Everything(img: seq<byte>, o: Object, e: Encoding)
    requires Prepared(o) && AllHeld(img, o, e, Progress(|o.phdrs|, |o.scns|, -1))
    ensures forall p {:trigger Has(o, p)} | Has(o, p) :: Holds(img, o, e, p)
  {
    forall p | Has(o, p)
      ensures Holds(img, o, e, p)
    {
      assert Written(Progress(|o.phdrs|, |o.scns|, -1), p);
    }
  }

  /** Moving on without writing, past parts the object does not have. */
  lemma Advance(img: seq<byte>, o: Object, e: Encoding, w: Progress, next: Progress)
    requires Prepared(o) && AllHeld(img, o, e, w)
    requires forall p :: Has(o, p) && Written(next, p) ==> Written(w, p)
    ensures AllHeld(img, o, e, next)
  {
    forall p | Has(o, p) && Written(next, p)
      ensures Holds(img, o, e, p)
    {
      assert Written(w, p);
    }
  }
}
