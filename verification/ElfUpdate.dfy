/** update.c: elf_update as a whole, laying an object out and writing it. */
module ElfUpdate {
  import opened Bytes
  import opened ElfConstants
  import opened Layout
  import opened LayoutLaws
  import opened Placement
  import opened Image
  import opened Cook
  import Update

  /** A buffer that has to go into the file, but has no memory. */
  predicate Missing(o: Object, k: nat, b: nat) {
    && IsSection(o, k) && o.scns[k].shdr.shtype != 8 && b < |o.scns[k].bufs|
    && o.scns[k].bufs[b].size != 0 && !o.scns[k].bufs[b].present
  }

  ghost predicate MissesData(o: Object) {
    exists k: nat, b: nat :: Missing(o, k, b)
  }

  /** Writing an object whose buffers can be translated fails exactly for such a buffer. */
  lemma Misses(r: Object)
    requires forall k: nat, b: nat | k < |r.scns| && InFile(r, k) && b < |r.scns[k].bufs| :: r.scns[k].bufs[b].valid
    ensures (forall k | 0 <= k < |r.scns| :: DataOk(r, k)) <==> !MissesData(r)
  {
    if k: nat, b: nat :| Missing(r, k, b) {
      assert !BufOk(r.scns[k].bufs[b]) && !DataOk(r, k);
    } else if k :| 0 <= k < |r.scns| && !DataOk(r, k) {
      var b: nat :| b < |r.scns[k].bufs| && !BufOk(r.scns[k].bufs[b]);
      assert Missing(r, k, b);
    }
  }

  lemma StillValid(o: Object, native: byte)
    requires o.Ok() && Layable(o)
    ensures var r := Laid(o, native);
            forall k: nat, b: nat | k < |r.scns| && InFile(r, k) && b < |r.scns[k].bufs| :: r.scns[k].bufs[b].valid
  {
    var r := Laid(o, native);
    forall k: nat, b: nat | k < |r.scns| && InFile(r, k) && b < |r.scns[k].bufs|
      ensures r.scns[k].bufs[b].valid
    {
      assert BufsValid(o.scns[k].bufs);
      assert o.scns[k].bufs[b].valid;
    }
  }

  /** elf_update with automatic layout, up to the write to the file.  It fails exactly for an
      object with an unknown version or encoding, or with a buffer that cannot be translated or has
      no memory; and the bytes of the file say what the object does, which is what cooking them gives
      back. */
  method UpdateImage(elf: Update.Elf) returns (outbuf: array?<byte>)
    requires elf.layout && Fitting(elf.Value()) && 1 <= elf.native <= 2
    modifies elf
    ensures outbuf == null <==> !old(Acceptable(elf.Value())) || MissesData(elf.Value())
    ensures outbuf != null ==> LaidOut(old(elf.Value()), elf.Value(), elf.native, outbuf.Length)
    ensures outbuf != null ==>
              && elf.Value() == Laid(old(elf.Value()), elf.native) && outbuf.Length == Length(old(elf.Value()))
              && Read(outbuf[..]) == Ok(Cooked(elf.cls, EncodingOf(elf.ehdr.ident[EI_DATA]), elf.ehdr, elf.phdrs, Headers(elf.scns)))
    ensures outbuf != null ==>
              Says(outbuf[..], elf.cls, elf.ehdr, elf.phdrs, Headers(elf.scns)) && HoldsData(outbuf[..], elf.scns)
  {
    hide LaidOut, Acceptable, MissesData, Laid, Length, Layable, DataOk, Prepared, Read, Says, HoldsData;
    ghost var o := elf.Value();
    LayableIs(o);
    var len := elf.LayOut();
    if len < 0 {
      return null;
    }
    LaidWritable(o, elf.native);
    LaidIdentRead(o, elf.native);
    LaidTables(o, elf.native);
    outbuf := new byte[len](_ => 0);
    var r := Object(elf.cls, elf.ehdr, elf.phdrs, elf.scns);
    assert r == elf.Value();
    var ok := Write(r, outbuf);
    StillValid(o, elf.native);
    Misses(r);
    if !ok {
      return null;
    }
    assert IsFile(o, elf.native, outbuf[..]);
    CookUndoesWrite(o, elf.native, outbuf[..]);
    WrittenBytes(o, elf.native, outbuf[..]);
  }
}
