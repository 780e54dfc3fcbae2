/** 32.xlatetof.c, 64.xlatetof.c and getdata.c: translating whole tables of records, in place or
    into another buffer, and doing so when a section's data is first asked for. */
module SectionData {
  import opened Arithmetic
  import opened Bytes
  import opened Records
  import opened Sequences

  // ---------- tables of records ----------

  /** One record in the other byte order. */
  function Flipped(f: Format, b: seq<byte>, from: Encoding, to: Encoding): (r: seq<byte>)
    requires |b| == FormatSize(f)
    ensures |r| == |b|
  {
    StoreRecord(f, LoadRecord(f, b, from), to)
  }

  lemma FlippedBack(f: Format, b: seq<byte>, from: Encoding, to: Encoding)
    requires |b| == FormatSize(f)
    ensures Flipped(f, Flipped(f, b, from, to), to, from) == b
  {
    RecordRoundTrip(f, LoadRecord(f, b, from), to);
    BytesRoundTrip(f, b, from);
  }

  /** The whole records of a buffer, each in the other byte order. */
  function Table(f: Format, b: seq<byte>, from: Encoding, to: Encoding): (r: seq<byte>)
    requires FormatSize(f) > 0
    ensures |r| <= |b| < |r| + FormatSize(f)
  {
    var size := FormatSize(f);
    if |b| < size then [] else Flipped(f, b[..size], from, to) + Table(f, b[size..], from, to)
  }

  lemma TableOf(f: Format, x: seq<byte>, rest: seq<byte>, from: Encoding, to: Encoding)
    requires |x| == FormatSize(f) > 0
    ensures Table(f, x + rest, from, to) == Flipped(f, x, from, to) + Table(f, rest, from, to)
  {
    assert (x + rest)[..|x|] == x && (x + rest)[|x|..] == rest;
  }

  /** A table translated there and back is the table, without what is no whole record. */
  lemma {:induction false} TableRoundTrip(f: Format, b: seq<byte>, from: Encoding, to: Encoding)
    requires FormatSize(f) > 0
    ensures Table(f, Table(f, b, from, to), to, from) == b[..|Table(f, b, from, to)|]
  {
    hide Flipped;
    var size := FormatSize(f);
    if |b| >= size {
      var x, rest := b[..size], b[size..];
      FlippedBack(f, x, from, to);
      TableRoundTrip(f, rest, from, to);
      TableOf(f, Flipped(f, x, from, to), Table(f, rest, from, to), to, from);
      assert b[..size + |Table(f, rest, from, to)|] == x + rest[..|Table(f, rest, from, to)|];
    }
  }

  lemma {:induction false} TableSize(f: Format, b: seq<byte>, from: Encoding, to: Encoding)
    requires FormatSize(f) > 0
    ensures |Table(f, b, from, to)| == |b| / FormatSize(f) * FormatSize(f)
  {
    hide Flipped;
    var size := FormatSize(f);
    if |b| >= size {
      TableSize(f, b[size..], from, to);
      OneMore(|b|, size);
    } else {
      assert |b| / size == 0;
    }
  }

  lemma OneMore(n: nat, size: nat)
    requires 0 < size <= n
    ensures n / size == (n - size) / size + 1
    ensures n / size * size == (n - size) / size * size + size
  {
    var q, r := (n - size) / size, (n - size) % size;
    NextMultiple(size, q);
    ModUnique(n, size, q + 1, r);
  }

  lemma NextMultiple(size: nat, q: int)
    ensures size * (q + 1) == size * q + size && (q + 1) * size == q * size + size
  {
  }

  /** n bytes of a buffer, and all of it. */
  ghost function Part(a: array<byte>, off: nat, n: nat): (b: seq<byte>)
    requires off + n <= a.Length
    reads a
    ensures |b| == n
  {
    a[off..off + n]
  }

  ghost function All(a: array<byte>): (b: seq<byte>)
    reads a
    ensures |b| == a.Length
  {
    a[..]
  }

  /** A translator: whole records only.  It may work in place: source and destination are then the
      same buffer and the same offset. */
  method Translate(f: Format, dst: array<byte>, doff: nat, src: array<byte>, soff: nat, n: nat, from: Encoding, to: Encoding)
    returns (size: nat)
    requires FormatSize(f) > 0 && soff + n <= src.Length && doff + n <= dst.Length && (dst == src ==> doff == soff)
    modifies dst
    ensures size == n / FormatSize(f) * FormatSize(f) <= n
    ensures All(dst) == Overwritten(old(All(dst)), doff, Table(f, old(Part(src, soff, n)), from, to))
  {
    hide Table, Flipped, Overwritten, Part, All, Rows;
    TableSize(f, Part(src, soff, n), from, to);
    assert Rows(n, FormatSize(f), n / FormatSize(f)) by { IsRows(n, FormatSize(f)); }
    var count := n / FormatSize(f);
    TranslateAll(f, dst, doff, src, soff, n, from, to, count);
    size := count * FormatSize(f);
  }

  /** A translation of s, the n bytes at soff of src, into a buffer that held d. */
  datatype Job = Job(f: Format, s: seq<byte>, d: seq<byte>, doff: nat, soff: nat, n: nat, from: Encoding, to: Encoding)

  /** `done` is what has been written, for the first |done| bytes. */
  ghost predicate Going(j: Job, dst: array<byte>, src: array<byte>, done: seq<byte>)
    reads dst, src
  {
    && FormatSize(j.f) > 0 && |j.s| == j.n && |done| <= j.n && |j.d| == dst.Length
    && j.soff + j.n <= src.Length && j.doff + j.n <= dst.Length
    && All(dst) == Overwritten(j.d, j.doff, done)
    && done + Table(j.f, j.s[|done|..], j.from, j.to) == Table(j.f, j.s, j.from, j.to)
    && (if dst != src then Part(src, j.soff, j.n) == j.s
        else j.doff == j.soff && j.s == j.d[j.soff..j.soff + j.n])
  }

  /** The loop over the records. */
  method TranslateAll(f: Format, dst: array<byte>, doff: nat, src: array<byte>, soff: nat, n: nat, from: Encoding, to: Encoding, count: nat)
    requires FormatSize(f) > 0 && soff + n <= src.Length && doff + n <= dst.Length && (dst == src ==> doff == soff)
    requires Rows(n, FormatSize(f), count)
    modifies dst
    ensures All(dst) == Overwritten(old(All(dst)), doff, Table(f, old(Part(src, soff, n)), from, to))
  {
    hide Table, Flipped, Overwritten, Rows, Going, Part, All;
    ghost var j := Job(f, Part(src, soff, n), All(dst), doff, soff, n, from, to);
    ghost var done: seq<byte> := [];
    Begins(j, dst, src);
    var i, at: nat := 0, 0;
    while i < count
      invariant i <= count && |done| == at <= n && Rows(n - at, FormatSize(f), count - i)
      invariant Going(j, dst, src, done)
    {
      RoomForOne(n - at, FormatSize(f), count - i);
      done := TranslateOne(f, dst, doff, src, soff, from, to, at, j, done);
      i, at := i + 1, at + FormatSize(f);
    }
    LessThanOne(n - at, FormatSize(f));
    Ends(j, dst, src, done);
  }

  lemma Begins(j: Job, dst: array<byte>, src: array<byte>)
    requires FormatSize(j.f) > 0 && j.soff + j.n <= src.Length && j.doff + j.n <= dst.Length
    requires j.s == Part(src, j.soff, j.n) && j.d == All(dst) && (dst == src ==> j.doff == j.soff)
    ensures Going(j, dst, src, [])
  {
    hide Table;
    NothingOverwritten(j.d, j.doff);
    assert j.s[0..] == j.s;
  }

  lemma Ends(j: Job, dst: array<byte>, src: array<byte>, done: seq<byte>)
    requires Going(j, dst, src, done) && j.n - |done| < FormatSize(j.f)
    ensures |Table(j.f, j.s, j.from, j.to)| <= j.n && All(dst) == Overwritten(j.d, j.doff, Table(j.f, j.s, j.from, j.to))
  {
    hide Overwritten;
    NoRecord(j.f, j.s[|done|..], j.from, j.to);
    assert done == Table(j.f, j.s, j.from, j.to);
  }

  /** The body of a translator's loop. */
  method TranslateOne(f: Format, dst: array<byte>, doff: nat, src: array<byte>, soff: nat, from: Encoding, to: Encoding,
                      at: nat, ghost j: Job, ghost done: seq<byte>)
    returns (ghost more: seq<byte>)
    requires Going(j, dst, src, done) && |done| == at && at + FormatSize(f) <= j.n
    requires j == Job(f, j.s, j.d, doff, soff, j.n, from, to)
    modifies dst
    ensures |more| == at + FormatSize(f) && Going(j, dst, src, more)
  {
    hide Table, Flipped, Overwritten;
    var width := FormatSize(f);
    StillThere(j.s, j.d, src[..], dst[..], soff, j.n, doff, at, width, done, dst == src);
    var b := Flipped(f, src[soff + at..soff + at + width], from, to);
    CopyInto(dst, doff + at, b);
    Appended(j.d, doff, done, b);
    NextRecord(f, j.s, at, from, to);
    more := done + b;
  }

  lemma NothingOverwritten(d: seq<byte>, off: nat)
    requires off <= |d|
    ensures Overwritten(d, off, []) == d
  {
  }

  lemma NoRecord(f: Format, s: seq<byte>, from: Encoding, to: Encoding)
    requires |s| < FormatSize(f)
    ensures Table(f, s, from, to) == []
  {
  }

  /** m bytes hold k whole records. */
  predicate Rows(m: nat, width: nat, k: nat)
    requires width > 0
  {
    m / width == k
  }

  lemma IsRows(m: nat, width: nat)
    requires width > 0
    ensures Rows(m, width, m / width)
  {
  }

  lemma RoomForOne(m: nat, width: nat, k: nat)
    requires width > 0 && Rows(m, width, k) && k > 0
    ensures m >= width && Rows(m - width, width, k - 1)
  {
    if m < width {
      ModUnique(m, width, 0, m);
    } else {
      OneMore(m, width);
    }
  }

  lemma LessThanOne(m: nat, width: nat)
    requires width > 0 && Rows(m, width, 0)
    ensures m < width
  {
    if m >= width {
      OneMore(m, width);
    }
  }

  lemma NextRecord(f: Format, s: seq<byte>, at: nat, from: Encoding, to: Encoding)
    requires FormatSize(f) > 0 && at + FormatSize(f) <= |s|
    ensures Table(f, s[at..], from, to)
            == Flipped(f, s[at..at + FormatSize(f)], from, to) + Table(f, s[at + FormatSize(f)..], from, to)
  {
    assert s[at..] == s[at..at + FormatSize(f)] + s[at + FormatSize(f)..];
    TableOf(f, s[at..at + FormatSize(f)], s[at + FormatSize(f)..], from, to);
  }

  lemma Appended(d: seq<byte>, off: nat, a: seq<byte>, b: seq<byte>)
    requires off + |a| + |b| <= |d|
    ensures Overwritten(Overwritten(d, off, a), off + |a|, b) == Overwritten(d, off, a + b)
  {
  }

  /** The next record of the source has not been overwritten yet. */
  lemma StillThere(s: seq<byte>, d: seq<byte>, src: seq<byte>, dst: seq<byte>, soff: nat, n: nat, doff: nat, at: nat, width: nat,
                   done: seq<byte>, same: bool)
    requires soff + n <= |src| && doff + n <= |d| && |s| == n && |done| == at && at + width <= n
    requires dst == Overwritten(d, doff, done)
    requires if same then soff == doff && src == dst && s == d[soff..soff + n] else src[soff..soff + n] == s
    ensures src[soff + at..soff + at + width] == s[at..at + width]
  {
    if same {
      OverwrittenApart(d, doff, done, soff + at, soff + at + width);
      Slice(d, soff, n, at, width);
    } else {
      Slice(src, soff, n, at, width);
    }
  }

  // ---------- which bytes move ----------

  /** The field of a record that byte i is in, and where the byte is from the other end of it. */
  function FieldOf(f: Format, i: nat): Width
    requires i < FormatSize(f)
  {
    if i < Size(f[0]) then f[0] else FieldOf(f[1..], i - Size(f[0]))
  }

  function Mirrored(f: Format, i: nat): (r: nat)
    requires i < FormatSize(f)
    ensures r < FormatSize(f)
  {
    if i < Size(f[0]) then Size(f[0]) - 1 - i else Size(f[0]) + Mirrored(f[1..], i - Size(f[0]))
  }

  lemma {:induction false} MirroredTwice(f: Format, i: nat)
    requires i < FormatSize(f)
    ensures Mirrored(f, Mirrored(f, i)) == i
    ensures Mirrored(f, i) == i <==> FieldOf(f, i).B1?
  {
    if i >= Size(f[0]) {
      MirroredTwice(f[1..], i - Size(f[0]));
    }
  }

  /** The same for byte i of a table. */
  function FieldAt(f: Format, i: nat): Width
    requires FormatSize(f) > 0
  {
    if i < FormatSize(f) then FieldOf(f, i) else FieldAt(f, i - FormatSize(f))
  }

  function Mirror(f: Format, i: nat): nat
    requires FormatSize(f) > 0
  {
    if i < FormatSize(f) then Mirrored(f, i) else FormatSize(f) + Mirror(f, i - FormatSize(f))
  }

  lemma {:induction false} MirrorTwice(f: Format, i: nat)
    requires FormatSize(f) > 0
    ensures Mirror(f, Mirror(f, i)) == i
    ensures Mirror(f, i) == i <==> FieldAt(f, i).B1?
  {
    if i < FormatSize(f) {
      MirroredTwice(f, i);
    } else {
      MirrorTwice(f, i - FormatSize(f));
    }
  }

  lemma ScalarMirrored(w: Width, b: seq<byte>, from: Encoding, to: Encoding, i: nat)
    requires |b| == Size(w) && i < |b|
    ensures StoreScalar(w, LoadScalar(w, b, from), to)[i] == b[if from == to then i else |b| - 1 - i]
  {
    hide StoreScalar, LoadScalar;
    ScalarRoundTrip(w, 0, b, from);
    if from != to {
      StoredBackwards(w, LoadScalar(w, b, from), from, to);
    }
  }

  /** The two byte orders write the same bytes, one backwards. */
  lemma StoredBackwards(w: Width, v: nat, from: Encoding, to: Encoding)
    requires v < Limit(w) && from != to
    ensures forall i | 0 <= i < Size(w) :: StoreScalar(w, v, to)[i] == StoreScalar(w, v, from)[Size(w) - 1 - i]
  {
  }

  lemma FlippedFields(f: Format, b: seq<byte>, from: Encoding, to: Encoding)
    requires f != [] && |b| == FormatSize(f)
    ensures var w := Size(f[0]);
            Flipped(f, b, from, to) == StoreScalar(f[0], LoadScalar(f[0], b[..w], from), to) + Flipped(f[1..], b[w..], from, to)
  {
    hide StoreScalar, LoadScalar;
    var v := LoadScalar(f[0], b[..Size(f[0])], from);
    assert LoadRecord(f, b, from)[0] == v;
    assert LoadRecord(f, b, from)[1..] == LoadRecord(f[1..], b[Size(f[0])..], from);
  }

  /** Translation to the other byte order turns every field of a record around. */
  lemma {:induction false} FlippedAt(f: Format, b: seq<byte>, from: Encoding, to: Encoding, i: nat)
    requires |b| == FormatSize(f) && i < |b|
    ensures Flipped(f, b, from, to)[i] == b[if from == to then i else Mirrored(f, i)]
  {
    hide Flipped, StoreScalar, LoadScalar;
    var w := Size(f[0]);
    var first, rest := b[..w], b[w..];
    FlippedFields(f, b, from, to);
    if i < w {
      ScalarMirrored(f[0], first, from, to, i);
    } else {
      FlippedAt(f[1..], rest, from, to, i - w);
    }
  }

  lemma {:induction false} TableAt(f: Format, b: seq<byte>, from: Encoding, to: Encoding, i: nat)
    requires FormatSize(f) > 0 && i < |Table(f, b, from, to)|
    ensures Mirror(f, i) < |Table(f, b, from, to)|
    ensures Table(f, b, from, to)[i] == b[if from == to then i else Mirror(f, i)]
  {
    hide Flipped;
    var size := FormatSize(f);
    if i < size {
      FlippedAt(f, b[..size], from, to, i);
    } else {
      TableAt(f, b[size..], from, to, i - size);
    }
  }

  /** Where a section's contents are in the file, and the format of its records. */
  datatype Extent = Extent(offset: nat, size: nat, format: Format, isNull: bool, nobits: bool)

  datatype Answer = NullScn | Outside | TruncScn | NoData | Contents(bytes: seq<byte>)
    | OutOfBounds  // an end that wraps around passes the test, and memory beyond the image is read

  predicate Inside(x: Extent, len: nat) {
    !x.isNull && !x.nobits && x.size > 0 && x.offset + x.size <= len && FormatSize(x.format) > 0
  }

  /** A section's bytes in an image. */
  function RawBytes(img: seq<byte>, x: Extent): (b: seq<byte>)
    requires x.offset + x.size <= |img|
    ensures |b| == x.size
  {
    img[x.offset..x.offset + x.size]
  }

  /** d_size of the translated buffer. */
  function DataLength(x: Extent): (n: nat)
    requires FormatSize(x.format) > 0
    ensures n <= x.size
  {
    WholeRecords(x.size, FormatSize(x.format));
    x.size / FormatSize(x.format) * FormatSize(x.format)
  }

  lemma WholeMod(n: nat, size: nat)
    requires size > 0
    ensures n / size * size >= 0 && (n / size * size) % size == 0
  {
    assert n / size * size == size * (n / size);
    MulMod(n / size, size);
  }

  lemma WholeRecords(n: nat, size: nat)
    requires size > 0
    ensures 0 <= n / size * size <= n
  {
  }

  /** The bytes of a section's whole records. */
  function WholeBytes(img: seq<byte>, x: Extent): (b: seq<byte>)
    requires Inside(x, |img|)
    ensures |b| == DataLength(x)
  {
    img[x.offset..x.offset + DataLength(x)]
  }

  lemma WholeEnough(img: seq<byte>, x: Extent, from: Encoding, to: Encoding)
    requires Inside(x, |img|)
    ensures Table(x.format, RawBytes(img, x), from, to) == Table(x.format, WholeBytes(img, x), from, to)
    ensures |Table(x.format, RawBytes(img, x), from, to)| == DataLength(x)
  {
    hide Table;
    var raw := RawBytes(img, x);
    TableSize(x.format, raw, from, to);
    TableWhole(x.format, raw, from, to);
    Slice(img, x.offset, x.size, 0, DataLength(x));
    assert raw[..DataLength(x)] == raw[0..DataLength(x)];
  }

  // ---------- sections that share bytes ----------

  /** The image after a section was translated where it is. */
  function CookedImage(img: seq<byte>, x: Extent, from: Encoding, to: Encoding): (r: seq<byte>)
    requires Inside(x, |img|)
    ensures |r| == |img|
  {
    Overwritten(img, x.offset, Table(x.format, RawBytes(img, x), from, to))
  }

  /** Byte q of the file is in a whole record of the section. */
  predicate Touches(x: Extent, q: nat)
    requires FormatSize(x.format) > 0
  {
    x.offset <= q < x.offset + DataLength(x)
  }

  /** Translating section x does not move a byte of section y: the byte order is the machine's own,
      or no field of more than one byte in a whole record of x lies on a whole record of y. */
  ghost predicate Spares(x: Extent, y: Extent, from: Encoding, to: Encoding)
    requires FormatSize(x.format) > 0 && FormatSize(y.format) > 0
  {
    from == to || forall q: nat {:trigger Touches(x, q)} | Touches(x, q) && Touches(y, q) :: FieldAt(x.format, q - x.offset).B1?
  }

  lemma CookedAt(img: seq<byte>, x: Extent, from: Encoding, to: Encoding, q: nat)
    requires Inside(x, |img|) && q < |img|
    ensures Touches(x, q) && from != to ==>
              Touches(x, x.offset + Mirror(x.format, q - x.offset))
              && CookedImage(img, x, from, to)[q] == img[x.offset + Mirror(x.format, q - x.offset)]
    ensures !Touches(x, q) || from == to ==> CookedImage(img, x, from, to)[q] == img[q]
  {
    hide Table;
    WholeEnough(img, x, from, to);
    if Touches(x, q) {
      TableAt(x.format, RawBytes(img, x), from, to, q - x.offset);
    }
  }

  /** What is not moved is still there, and read the same. */
  lemma Spared(img: seq<byte>, x: Extent, y: Extent, from: Encoding, to: Encoding)
    requires Inside(x, |img|) && Inside(y, |img|) && Spares(x, y, from, to)
    ensures WholeBytes(CookedImage(img, x, from, to), y) == WholeBytes(img, y)
    ensures Table(y.format, RawBytes(CookedImage(img, x, from, to), y), from, to) == Table(y.format, RawBytes(img, y), from, to)
  {
    hide CookedImage, Table, RawBytes, FieldAt, Mirror;
    var after := CookedImage(img, x, from, to);
    var a, b := WholeBytes(after, y), WholeBytes(img, y);
    forall i | 0 <= i < DataLength(y)
      ensures a[i] == b[i]
    {
      var q := y.offset + i;
      CookedAt(img, x, from, to, q);
      if Touches(x, q) {
        MirrorTwice(x.format, q - x.offset);
      }
    }
    WholeEnough(after, y, from, to);
    WholeEnough(img, y, from, to);
  }

  /** After section x and then section y were asked for, each has the translation of the bytes the
      file had at first. */
  predicate BothRight(img: seq<byte>, x: Extent, y: Extent, from: Encoding, to: Encoding)
    requires Inside(x, |img|) && Inside(y, |img|)
  {
    var after := CookedImage(CookedImage(img, x, from, to), y, from, to);
    && WholeBytes(after, x) == Table(x.format, RawBytes(img, x), from, to)
    && WholeBytes(after, y) == Table(y.format, RawBytes(img, y), from, to)
  }

  lemma CookedHas(img: seq<byte>, x: Extent, from: Encoding, to: Encoding)
    requires Inside(x, |img|)
    ensures WholeBytes(CookedImage(img, x, from, to), x) == Table(x.format, RawBytes(img, x), from, to)
  {
    hide Table, Overwritten;
    WholeEnough(img, x, from, to);
    OverwrittenAt(img, x.offset, Table(x.format, RawBytes(img, x), from, to));
  }

  lemma SparedBoth(img: seq<byte>, x: Extent, y: Extent, from: Encoding, to: Encoding)
    requires Inside(x, |img|) && Inside(y, |img|) && Spares(x, y, from, to) && Spares(y, x, from, to)
    ensures BothRight(img, x, y, from, to)
  {
    hide CookedImage, Table, RawBytes, Spares, WholeBytes;
    var one := CookedImage(img, x, from, to);
    CookedHas(img, x, from, to);
    Spared(img, x, y, from, to);
    CookedHas(one, y, from, to);
    Spared(one, y, x, from, to);
  }

  /** An image with a 1 at q, and 0 elsewhere. */
  function Spot(len: nat, q: nat): (img: seq<byte>)
    ensures |img| == len
  {
    seq(len, i => if i == q then 1 else 0)
  }

  /** If a field is moved that the other section has a byte of, a 1 in that byte gets lost. */
  lemma NotSpared(x: Extent, y: Extent, len: nat, from: Encoding, to: Encoding)
    requires Inside(x, len) && Inside(y, len) && !Spares(x, y, from, to)
    ensures exists img: seq<byte> | |img| == len :: !BothRight(img, x, y, from, to)
  {
    hide FieldAt, BothRight, Spot;
    var q: nat :| Touches(x, q) && Touches(y, q) && !FieldAt(x.format, q - x.offset).B1?;
    LosesSpot(x, y, len, from, to, q);
  }

  lemma LosesSpot(x: Extent, y: Extent, len: nat, from: Encoding, to: Encoding, q: nat)
    requires Inside(x, len) && Inside(y, len) && from != to && Touches(x, q) && Touches(y, q)
    requires !FieldAt(x.format, q - x.offset).B1?
    ensures !BothRight(Spot(len, q), x, y, from, to)
  {
    hide CookedImage, Table, RawBytes, FieldAt, Mirror, WholeBytes, DataLength, FormatSize;
    var img := Spot(len, q);
    var one := CookedImage(img, x, from, to);
    CookedAt(img, x, from, to, q);
    MirrorTwice(x.format, q - x.offset);
    WholeAt(img, y, q);
    WholeAt(one, y, q);
    if BothRight(img, x, y, from, to) {
      ReadsSame(img, one, y, from, to);
    }
  }

  lemma WholeAt(img: seq<byte>, y: Extent, q: nat)
    requires Inside(y, |img|) && Touches(y, q)
    ensures q < |img| && WholeBytes(img, y)[q - y.offset] == img[q]
  {
  }

  /** What reads the same is the same. */
  lemma ReadsSame(img: seq<byte>, other: seq<byte>, y: Extent, from: Encoding, to: Encoding)
    requires |img| == |other| && Inside(y, |img|)
    requires WholeBytes(CookedImage(other, y, from, to), y) == Table(y.format, RawBytes(img, y), from, to)
    ensures WholeBytes(img, y) == WholeBytes(other, y)
  {
    hide CookedImage, Table, WholeBytes;
    CookedHas(other, y, from, to);
    WholeEnough(img, y, from, to);
    WholeEnough(other, y, from, to);
    TableBack(y.format, WholeBytes(img, y), from, to);
    TableBack(y.format, WholeBytes(other, y), from, to);
  }

  lemma TableBack(f: Format, b: seq<byte>, from: Encoding, to: Encoding)
    requires FormatSize(f) > 0 && |Table(f, b, from, to)| == |b|
    ensures Table(f, Table(f, b, from, to), to, from) == b
  {
    hide Table;
    TableRoundTrip(f, b, from, to);
    assert b[..|b|] == b;
  }

  /** Two sections that are translated in place read right, whatever the file holds and whichever is
      asked for first, exactly if neither moves a byte of the other. */
  lemma InPlaceExactly(x: Extent, y: Extent, len: nat, from: Encoding, to: Encoding)
    requires Inside(x, len) && Inside(y, len)
    ensures (forall img: seq<byte> | |img| == len :: BothRight(img, x, y, from, to) && BothRight(img, y, x, from, to))
            <==> Spares(x, y, from, to) && Spares(y, x, from, to)
  {
    hide BothRight, Spares;
    if Spares(x, y, from, to) && Spares(y, x, from, to) {
      forall img: seq<byte> | |img| == len
        ensures BothRight(img, x, y, from, to) && BothRight(img, y, x, from, to)
      {
        SparedBoth(img, x, y, from, to);
        SparedBoth(img, y, x, from, to);
      }
    } else if !Spares(x, y, from, to) {
      NotSpared(x, y, len, from, to);
    } else {
      NotSpared(y, x, len, from, to);
    }
  }

  /** So it is for all sections of a file. */
  lemma AllInPlaceExactly(xs: seq<Extent>, len: nat, from: Encoding, to: Encoding)
    requires forall x | x in xs :: FormatSize(x.format) > 0
    ensures AllSpared(xs, len, from, to) <==>
            forall i, j, img: seq<byte> {:trigger BothRight(img, xs[i], xs[j], from, to)}
              | 0 <= i < |xs| && 0 <= j < |xs| && i != j && |img| == len && Inside(xs[i], len) && Inside(xs[j], len) ::
                BothRight(img, xs[i], xs[j], from, to)
  {
    hide BothRight, Spares;
    if AllSpared(xs, len, from, to) {
      forall i, j, img: seq<byte>
        | 0 <= i < |xs| && 0 <= j < |xs| && i != j && |img| == len && Inside(xs[i], len) && Inside(xs[j], len)
        ensures BothRight(img, xs[i], xs[j], from, to)
      {
        SparedBoth(img, xs[i], xs[j], from, to);
      }
    } else {
      var i, j :| 0 <= i < |xs| && 0 <= j < |xs| && i != j && Inside(xs[i], len) && Inside(xs[j], len)
                  && !Spares(xs[i], xs[j], from, to);
      NotSpared(xs[i], xs[j], len, from, to);
      var img: seq<byte> :| |img| == len && !BothRight(img, xs[i], xs[j], from, to);
    }
  }

  /** Two tables of halves that share a byte do not read right in the other byte order. */
  lemma SharedByte()
    ensures var x, y := Extent(0, 2, [B2], false, false), Extent(1, 2, [B2], false, false);
            && Inside(x, 3) && Inside(y, 3) && !Spares(x, y, MSB, LSB) && Spares(x, y, LSB, LSB)
  {
    var x, y := Extent(0, 2, [B2], false, false), Extent(1, 2, [B2], false, false);
    var f: Format := [B2];
    assert FormatSize(f) == 2 && FormatSize(f[1..]) == 0;
    assert Touches(x, 1) && Touches(y, 1);
  }

  // ---------- getdata.c: sections are translated when they are asked for ----------

  /** elf_getdata for section k of a file that held img at first. */
  function AnswerFor(img: seq<byte>, k: nat, x: Extent, enc: Encoding, native: Encoding): Answer
    requires FormatSize(x.format) > 0
  {
    if k == 0 || x.isNull then NullScn
    else if x.offset > |img| then Outside
    else if x.nobits || x.size == 0 then NoData
    else if (x.offset + x.size) % TWO_64 > |img| then TruncScn
    else if x.offset + x.size > |img| then OutOfBounds
    else Contents(Table(x.format, RawBytes(img, x), enc, native))
  }

  /** Bytes are not translated. */
  lemma {:induction false} BytesAsTheyAre(b: seq<byte>, from: Encoding, to: Encoding)
    ensures FormatSize([B1]) == 1 && Table([B1], b, from, to) == b
  {
    var f: Format := [B1];
    assert FormatSize(f) == 1 && FormatSize(f[1..]) == 0;
    if b != [] {
      BytesAsTheyAre(b[1..], from, to);
      FlippedAt(f, b[..1], from, to, 0);
      assert Flipped(f, b[..1], from, to) == b[..1];
      assert b == b[..1] + b[1..];
    }
  }

  /** No section moves a byte of another. */
  ghost predicate AllSpared(xs: seq<Extent>, len: nat, from: Encoding, to: Encoding)
    requires forall x | x in xs :: FormatSize(x.format) > 0
  {
    forall i, j | 0 <= i < |xs| && 0 <= j < |xs| && i != j && Inside(xs[i], len) && Inside(xs[j], len) ::
      Spares(xs[i], xs[j], from, to)
  }

  /** A file that was opened for reading.  Unless its raw image is frozen (e_rawdata is e_data),
      sections are translated where they are in the image. */
  class File {
    const data: array<byte>
    const frozen: bool
    const extents: seq<Extent>
    const enc: Encoding
    const native: Encoding
    /** sd_memdata of each section's first buffer: the array it is in, or null. */
    var mem: seq<array?<byte>>
    ghost const original: seq<byte>

    constructor (img: seq<byte>, frozen: bool, extents: seq<Extent>, enc: Encoding, native: Encoding)
      requires forall x | x in extents :: FormatSize(x.format) > 0
      requires |img| < TWO_64 && (frozen || AllSpared(extents, |img|, enc, native))
      ensures Valid() && fresh(data) && original == img && this.extents == extents && this.frozen == frozen
      ensures this.enc == enc && this.native == native
    {
      this.frozen, this.extents, this.enc, this.native, original := frozen, extents, enc, native, img;
      data := new byte[|img|](i requires 0 <= i < |img| => img[i]);
      mem := seq(|extents|, _ => null);
      new;
      assert data[..] == img;
    }

    /** What a section's data has to be: the original bytes in the machine's order. */
    ghost function Want(k: nat): (b: seq<byte>)
      requires k < |extents| && Inside(extents[k], |original|)
      ensures |b| <= extents[k].size
    {
      Table(extents[k].format, RawBytes(original, extents[k]), enc, native)
    }

    /** A section that has not been asked for still has its original bytes. */
    ghost predicate Untouched(k: nat)
      requires k < |extents| && Inside(extents[k], |original|)
      reads data
    {
      data.Length == |original| && WholeBytes(data[..], extents[k]) == WholeBytes(original, extents[k])
    }

    /** A section that has been asked for has its data in memory. */
    ghost predicate Cooked(k: nat)
      requires k < |mem| == |extents| && Inside(extents[k], |original|)
      reads this, data, mem[k]
    {
      if frozen then mem[k] != null && mem[k] != data && mem[k][..] == Want(k)
      else mem[k] == data && data.Length == |original| && WholeBytes(data[..], extents[k]) == Want(k)
    }

    ghost predicate ScnOk(k: nat)
      requires k < |mem| == |extents| && Inside(extents[k], |original|)
      reads this, data, mem[k]
    {
      if mem[k] == null then Untouched(k) else Cooked(k)
    }

    ghost predicate Valid()
      reads this, data, mem
    {
      && |mem| == |extents| && data.Length == |original| < TWO_64 && (frozen ==> data[..] == original)
      && (forall x | x in extents :: FormatSize(x.format) > 0)
      && (!frozen ==> AllSpared(extents, |original|, enc, native))
      && (forall k {:trigger ScnOk(k)} | 0 <= k < |extents| && Inside(extents[k], |original|) :: ScnOk(k))
      && (forall k | 0 <= k < |extents| && mem[k] != null :: Inside(extents[k], |original|))
    }

    /** elf_getdata on a section's only buffer: each section is translated once, from the original
        bytes, in whichever order they are asked for. */
    method GetData(k: nat) returns (r: Answer)
      requires Valid() && k < |extents|
      modifies this`mem, data
      ensures Valid()
      ensures r == AnswerFor(original, k, extents[k], enc, native)
      ensures var x := extents[k];
              && (r.NullScn? <==> k == 0 || x.isNull)
              && (r.Outside? <==> k != 0 && !x.isNull && x.offset > |original|)
              && (r.NoData? <==> k != 0 && !x.isNull && x.offset <= |original| && (x.nobits || x.size == 0))
              && (r.TruncScn? || r.OutOfBounds? <==>
                    k != 0 && !x.isNull && x.offset <= |original| && !x.nobits && x.size != 0 && x.offset + x.size > |original|)
              && (r.TruncScn? ==> (x.offset + x.size) % 0x1_0000_0000_0000_0000 > |original|)
      ensures r.Contents? ==> HoldsTable(r.bytes, extents[k])
      ensures forall j | 0 <= j < |mem| && j != k :: mem[j] == old(mem[j])
      ensures frozen ==> data[..] == old(data[..])
    {
      hide HoldsTable, Table, AllSpared, ScnOk;
      var x := extents[k];
      if k == 0 || x.isNull {
        return NullScn;
      }
      if mem[k] != null {
        r := Data(k);
        TableHeld(x);
        return;
      }
      if x.offset > data.Length {
        return Outside;
      }
      if x.nobits || x.size == 0 {
        return NoData;
      }
      if (x.offset + x.size) % TWO_64 > data.Length {
        return TruncScn;
      }
      if x.offset + x.size > data.Length {
        return OutOfBounds;
      }
      CookScn(k);
      r := Data(k);
      TableHeld(x);
    }

    /** The bytes of the section's whole records, those of every field in the machine's order. */
    ghost predicate HoldsTable(bytes: seq<byte>, x: Extent)
      requires FormatSize(x.format) > 0
    {
      && |bytes| <= x.size < |bytes| + FormatSize(x.format) && |bytes| % FormatSize(x.format) == 0
      && forall i: nat | i < |bytes| ::
           var j := if enc == native then i else Mirror(x.format, i);
           x.offset + j < |original| && bytes[i] == original[x.offset + j]
    }

    lemma TableHeld(x: Extent)
      requires Inside(x, |original|)
      ensures HoldsTable(Table(x.format, RawBytes(original, x), enc, native), x)
    {
      hide Table, Mirror;
      var raw := RawBytes(original, x);
      var t := Table(x.format, raw, enc, native);
      TableSize(x.format, raw, enc, native);
      WholeMod(|raw|, FormatSize(x.format));
      forall i: nat | i < |t|
        ensures var j := if enc == native then i else Mirror(x.format, i);
                x.offset + j < |original| && t[i] == original[x.offset + j]
      {
        TableAt(x.format, raw, enc, native, i);
      }
    }

    /** The buffer of a section that has been translated. */
    method Data(k: nat) returns (r: Answer)
      requires Valid() && k < |extents| && mem[k] != null
      ensures Inside(extents[k], |original|) && r == Contents(Want(k))
    {
      hide Table;
      assert ScnOk(k);
      ghost var whole := WholeBytes(data[..], extents[k]);
      WantLength(k);
      r := Contents(if frozen then mem[k][..] else mem[k][extents[k].offset..extents[k].offset + DataLength(extents[k])]);
    }

    lemma WantLength(k: nat)
      requires k < |extents| && Inside(extents[k], |original|)
      ensures |Want(k)| == DataLength(extents[k])
    {
      hide Table;
      TableSize(extents[k].format, RawBytes(original, extents[k]), enc, native);
    }

    /** _elf_cook_scn: into the image, or into memory of its own if the image is frozen. */
    method CookScn(k: nat)
      requires Valid() && k < |extents| && mem[k] == null && Inside(extents[k], |original|)
      modifies this`mem, data
      ensures Valid() && mem[k] != null
      ensures forall j | 0 <= j < |mem| && j != k :: mem[j] == old(mem[j])
      ensures frozen ==> data[..] == old(data[..])
    {
      if frozen {
        CookFrozen(k);
      } else {
        CookInPlace(k);
      }
    }

    /** The translation of a section that has not been touched is what its data has to be. */
    lemma WantIs(k: nat)
      requires k < |mem| == |extents| && Inside(extents[k], |original|) && mem[k] == null && ScnOk(k)
      ensures var x := extents[k];
              && DataLength(x) == |Want(k)|
              && Table(x.format, data[x.offset..x.offset + DataLength(x)], enc, native) == Want(k)
              && CookedImage(data[..], x, enc, native) == Overwritten(data[..], x.offset, Want(k))
    {
      hide Table, Flipped, DataLength;
      var x := extents[k];
      WantLength(k);
      WholeEnough(original, x, enc, native);
      WholeEnough(data[..], x, enc, native);
      assert data[x.offset..x.offset + DataLength(x)] == WholeBytes(data[..], x);
    }

    method CookFrozen(k: nat)
      requires Valid() && frozen && k < |extents| && mem[k] == null && Inside(extents[k], |original|)
      modifies this`mem
      ensures Valid() && mem[k] != null
      ensures forall j | 0 <= j < |mem| && j != k :: mem[j] == old(mem[j])
    {
      hide Table, CookedImage, WholeBytes;
      var x := extents[k];
      assert ScnOk(k);
      WantIs(k);
      var buf := new byte[DataLength(x)](_ => 0);
      ghost var blank := buf[..];
      var _ := Translate(x.format, buf, 0, data, x.offset, DataLength(x), enc, native);
      OverwrittenAll(blank, Want(k));
      mem := mem[k := buf];
      forall j | 0 <= j < |extents| && Inside(extents[j], |original|)
        ensures ScnOk(j)
      {
        assert j != k ==> old(ScnOk(j));
      }
    }

    method CookInPlace(k: nat)
      requires Valid() && !frozen && k < |extents| && mem[k] == null && Inside(extents[k], |original|)
      modifies this`mem, data
      ensures Valid() && mem[k] != null
      ensures forall j | 0 <= j < |mem| && j != k :: mem[j] == old(mem[j])
    {
      hide Table, Overwritten, CookedImage, WholeBytes, Spares;
      var x := extents[k];
      assert ScnOk(k);
      WantIs(k);
      ghost var before := data[..];
      var _ := Translate(x.format, data, x.offset, data, x.offset, DataLength(x), enc, native);
      mem := mem[k := data];
      HasWant(k, before);
      OthersSpared(k, before);
      forall j | 0 <= j < |extents| && Inside(extents[j], |original|)
        ensures ScnOk(j)
      {
        assert j != k ==> old(ScnOk(j));
      }
    }

    lemma HasWant(k: nat, before: seq<byte>)
      requires k < |extents| && |before| == |original| && Inside(extents[k], |original|)
      requires |Want(k)| == DataLength(extents[k])
      ensures WholeBytes(Overwritten(before, extents[k].offset, Want(k)), extents[k]) == Want(k)
    {
      hide Table, Overwritten;
      OverwrittenAt(before, extents[k].offset, Want(k));
    }

    /** Translating section k leaves the records of all other sections alone. */
    lemma OthersSpared(k: nat, before: seq<byte>)
      requires forall x | x in extents :: FormatSize(x.format) > 0
      requires k < |extents| && Inside(extents[k], |original|) && AllSpared(extents, |original|, enc, native)
      requires |before| == |original|
      ensures forall j {:trigger extents[j]} | 0 <= j < |extents| && j != k && Inside(extents[j], |original|) ::
                WholeBytes(CookedImage(before, extents[k], enc, native), extents[j]) == WholeBytes(before, extents[j])
    {
      hide Table, CookedImage, WholeBytes, Spares;
      forall j | 0 <= j < |extents| && j != k && Inside(extents[j], |original|)
        ensures WholeBytes(CookedImage(before, extents[k], enc, native), extents[j]) == WholeBytes(before, extents[j])
      {
        Spared(before, extents[k], extents[j], enc, native);
      }
    }
  }

  lemma OverwrittenAll(d: seq<byte>, b: seq<byte>)
    requires |b| == |d|
    ensures Overwritten(d, 0, b) == b
  {
  }

  /** What is no whole record does not count. */
  lemma {:induction false} TableWhole(f: Format, b: seq<byte>, from: Encoding, to: Encoding)
    requires FormatSize(f) > 0
    ensures Table(f, b[..|Table(f, b, from, to)|], from, to) == Table(f, b, from, to)
  {
    hide Flipped;
    var size := FormatSize(f);
    if |b| >= size {
      var x, rest := b[..size], b[size..];
      TableWhole(f, rest, from, to);
      var m := |Table(f, rest, from, to)|;
      assert b[..size + m] == x + rest[..m];
      TableOf(f, x, rest[..m], from, to);
    }
  }
}
