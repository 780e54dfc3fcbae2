/** newscn.c, x.movscn.c, x.remscn.c and opt.delscn.c: the linked list of an ELF object's sections
    and the section count of its header. */
module Sections {
  import opened ElfConstants
  import opened Sequences

  /** Section types whose sh_link elf_delscn takes for a section index. */
  predicate LinksSection(shType: nat) {
    || InfoNamesSection(shType)
    || shType in [SHT_DYNSYM, SHT_DYNAMIC, SHT_HASH, SHT_SYMTAB, SHT_GNU_VERDEF, SHT_GNU_VERNEED, SHT_GNU_VERSYM]
  }

  predicate InfoNamesSection(shType: nat) {
    shType == SHT_REL || shType == SHT_RELA
  }

  // ---------- extended numbering ----------

  /** A section count as the header's 16-bit e_shnum and the first section's sh_size, whose width
      depends on the class. */
  datatype ShNum = ShNum(shnum: nat, size: nat)

  function SizeLimit(is64: bool): nat {
    if is64 then 0x1_0000_0000_0000_0000 else 0x1_0000_0000
  }

  function Encode(is64: bool, count: nat): ShNum {
    if count >= SHN_LORESERVE then ShNum(0, count % SizeLimit(is64)) else ShNum(count, 0)
  }

  /** How a reader finds the count. */
  function Decode(c: ShNum): nat {
    if c.shnum == 0 then c.size else c.shnum
  }

  lemma CountRoundTrip(is64: bool, count: nat)
    ensures Decode(Encode(is64, count)) == count <==> count < SizeLimit(is64)
  {
    if count >= SHN_LORESERVE {
      ModSmaller(count, SizeLimit(is64));
    }
  }

  lemma ModSmaller(a: nat, m: nat)
    requires m > 0
    ensures a % m == a <==> a < m
  {
  }

  /** elf_delscn stores the new count in e_shnum without extended numbering and leaves sh_size
      alone: a reader finds the right count exactly when it fits 16 bits, and what is stored is
      the canonical encoding exactly when it is below SHN_LORESERVE and was so before. */
  lemma DelscnCount(is64: bool, before: nat)
    requires 2 <= before < SizeLimit(is64)
    ensures var stored := ShNum((before - 1) % 0x1_0000, Encode(is64, before).size);
            && (Decode(stored) == before - 1 <==> before - 1 < 0x1_0000)
            && (stored == Encode(is64, before - 1) <==> before < SHN_LORESERVE)
  {
    ModSmaller(before - 1, 0x1_0000);
    ModSmaller(before, SizeLimit(is64));
    ModSmaller(before - 1, SizeLimit(is64));
  }

  // ---------- moving and removing ----------

  function InsertAfter<T>(s: seq<T>, j: nat, x: T): (r: seq<T>)
    requires j < |s|
    ensures |r| == |s| + 1
  {
    s[..j + 1] + [x] + s[j + 1..]
  }

  /** Element i taken out and put back right after what was element j. */
  function Moved<T>(s: seq<T>, i: nat, j: nat): (r: seq<T>)
    requires i < |s| && j < |s|
    ensures |r| == |s|
  {
    if i == j then s else InsertAfter(Without(s, i), if j < i then j else j - 1, s[i])
  }

  /** Where element k of a moved sequence comes from. */
  function Origin(i: nat, j: nat, k: nat): nat {
    if j < i then
      if k == j + 1 then i else if j + 1 < k <= i then k - 1 else k
    else
      if i < j && k == j then i else if i <= k < j then k + 1 else k
  }

  lemma WithoutAt<T>(s: seq<T>, i: nat, k: nat)
    requires i < |s| && k < |s| - 1
    ensures Without(s, i)[k] == s[if k < i then k else k + 1]
  {
  }

  lemma InsertedAt<T>(s: seq<T>, j: nat, x: T, k: nat)
    requires j < |s| && k <= |s|
    ensures InsertAfter(s, j, x)[k] == if k <= j then s[k] else if k == j + 1 then x else s[k - 1]
  {
  }

  lemma MovedFrom<T>(s: seq<T>, i: nat, j: nat, k: nat)
    requires i < |s| && j < |s| && k < |s|
    ensures Origin(i, j, k) < |s| && Moved(s, i, j)[k] == s[Origin(i, j, k)]
  {
    hide Without, InsertAfter;
    if i != j {
      var a := if j < i then j else j - 1;
      InsertedAt(Without(s, i), a, s[i], k);
      if k <= a {
        WithoutAt(s, i, k);
      } else if k > a + 1 {
        WithoutAt(s, i, k - 1);
      }
    }
  }

  /** The moved element comes right after the other one, and without it nothing has changed. */
  lemma MovedMeans<T>(s: seq<T>, i: nat, j: nat)
    requires i < |s| && j < |s| && i != j
    ensures exists p: nat | p + 1 < |s| ::
              Moved(s, i, j)[p] == s[j] && Moved(s, i, j)[p + 1] == s[i] && Without(Moved(s, i, j), p + 1) == Without(s, i)
  {
    var p: nat := if j < i then j else j - 1;
    var less, r := Without(s, i), Moved(s, i, j);
    assert less[p] == s[j] && r == InsertAfter(less, p, s[i]);
    assert r[p] == less[p] && r[p + 1] == s[i] && Without(r, p + 1) == less;
  }

  /** elf_delscn's renumbering of a section index when section `index` is deleted. */
  function NewIndex(v: nat, index: nat): nat {
    if v == index then SHN_UNDEF else if v > index then v - 1 else v
  }

  /** A renumbered index names the section it named before, or none if that is the one deleted;
      an index that named no section still names none. */
  lemma NewIndexNames<T>(s: seq<T>, index: nat, v: nat)
    requires 0 < index < |s|
    ensures v == index ==> NewIndex(v, index) == SHN_UNDEF
    ensures v != index && v < |s| ==>
              NewIndex(v, index) < |s| - 1 && Without(s, index)[NewIndex(v, index)] == s[v]
    ensures v >= |s| ==> NewIndex(v, index) >= |s| - 1
    ensures v == SHN_UNDEF <==> NewIndex(v, index) == SHN_UNDEF && v != index
  {
  }

  // ---------- the list ----------

  class Scn {
    const elf: Elf
    var link: Scn?
    var index: nat
    var shType: nat
    var shLink: nat
    var shInfo: nat
    var shSize: nat

    /** _makescn */
    constructor (elf: Elf, index: nat)
      ensures this.elf == elf && link == null && this.index == index
      ensures shType == 0 && shLink == 0 && shInfo == 0 && shSize == 0
    {
      this.elf, link, this.index := elf, null, index;
      shType, shLink, shInfo, shSize := 0, 0, 0, 0;
    }
  }

  ghost function At(scns: seq<Scn>, k: int): Scn? {
    if 0 <= k < |scns| then scns[k] else null
  }

  ghost predicate Distinct(scns: seq<Scn>) {
    forall i, j | 0 <= i < |scns| && 0 <= j < |scns| && scns[i] == scns[j] :: i == j
  }

  ghost predicate LinkedAt(scns: seq<Scn>, k: nat)
    requires k < |scns|
    reads scns[k]
  {
    scns[k].link == At(scns, k + 1)
  }

  ghost predicate ShiftedAt(scns: seq<Scn>, k: nat, off: int)
    requires k < |scns|
    reads scns[k]
  {
    scns[k].index == k + off
  }

  class Elf {
    /** ELFCLASS64 */
    const is64: bool
    /** e_kind is ELF_K_ELF */
    const isElf: bool
    var hasEhdr: bool
    /** e_shnum of the ELF header */
    var shnum: nat
    /** e_scn_1 and e_scn_n */
    var first: Scn?
    var last: Scn?
    ghost var scns: seq<Scn>

    /** The list from `first` is acyclic, ends at `last`, and every section's index is its
        position. */
    ghost predicate Valid()
      reads this, scns
    {
      && Distinct(scns) && first == At(scns, 0) && last == At(scns, |scns| - 1)
      && (scns != [] ==> hasEhdr)
      && (forall k | 0 <= k < |scns| :: scns[k].elf == this)
      && (forall k {:trigger LinkedAt(scns, k)} | 0 <= k < |scns| :: LinkedAt(scns, k))
      && (forall k {:trigger ShiftedAt(scns, k, 0)} | 0 <= k < |scns| :: ShiftedAt(scns, k, 0))
    }

    /** The header's count is that of the list. */
    ghost predicate Counted()
      reads this, scns
    {
      scns != [] ==> Stored() == Encode(is64, |scns|)
    }

    ghost function Stored(): ShNum
      requires scns != []
      reads this, scns
    {
      ShNum(shnum, scns[0].shSize)
    }

    constructor (is64: bool, isElf: bool, hasEhdr: bool)
      ensures Valid() && Counted() && scns == []
      ensures this.is64 == is64 && this.isElf == isElf && this.hasEhdr == hasEhdr
    {
      this.is64, this.isElf, this.hasEhdr := is64, isElf, hasEhdr;
      shnum, first, last, scns := 0, null, null, [];
    }

    /** _elf_update_shnum */
    method UpdateShnum(count: nat)
      requires Valid() && first != null
      modifies this`shnum, first`shSize
      ensures Valid() && scns != [] && Stored() == Encode(is64, count)
      ensures shnum == (if count < 0xff00 then count else 0)
      ensures scns[0].shSize == if count < 0xff00 then 0
                                else count % if is64 then 0x1_0000_0000_0000_0000 else 0x1_0000_0000
    {
      var extshnum, n := 0, count;
      if n >= SHN_LORESERVE {
        extshnum, n := n, 0;
      }
      shnum := n;
      first.shSize := extshnum % SizeLimit(is64);
      ModSmaller(0, SizeLimit(is64));
      forall k | 0 <= k < |scns|
        ensures LinkedAt(scns, k) && ShiftedAt(scns, k, 0)
      {
        assert old(LinkedAt(scns, k)) && old(ShiftedAt(scns, k, 0));
      }
    }

    /** _elf_first_scn */
    method FirstScn() returns (scn: Scn)
      requires Valid() && hasEhdr
      modifies this
      ensures Valid() && scns != [] && scn == scns[0] && hasEhdr == old(hasEhdr)
      ensures if old(scns) == [] then scns == [scn] && fresh(scn) && Counted()
              else scns == old(scns) && Stored() == old(Stored())
    {
      if first != null {
        return first;
      }
      scn := new Scn(this, 0);
      first, last, scns := scn, scn, [scn];
      assert LinkedAt(scns, 0) && ShiftedAt(scns, 0, 0);
      UpdateShnum(1);
    }

    /** elf_newscn: a new section at the end; the first call also makes section 0.  The count is
        stored anew, whatever was stored before. */
    method NewScn() returns (scn: Scn?)
      requires Valid()
      modifies this, scns
      ensures Valid() && (scn != null || old(Counted()) ==> Counted())
      ensures scn == null <==> !old(hasEhdr) || !isElf
      ensures scn == null ==> scns == old(scns)
      ensures scn != null ==> fresh(scn) && |scns| >= 2 && scns[|scns| - 1] == scn
                              && if old(scns) == [] then |scns| == 2 else scns == old(scns) + [scn]
    {
      if !hasEhdr || !isElf {
        return null;
      }
      var _ := FirstScn();
      ghost var ss := scns;
      assert LinkedAt(ss, |ss| - 1) && ShiftedAt(ss, |ss| - 1, 0);
      label Before:
      var s := new Scn(this, last.index + 1);
      UpdateShnum(s.index + 1);
      last.link := s;
      last := s;
      scns := ss + [s];
      forall k | 0 <= k < |scns|
        ensures LinkedAt(scns, k) && ShiftedAt(scns, k, 0)
      {
        if k < |ss| {
          assert old@Before(LinkedAt(ss, k)) && old@Before(ShiftedAt(ss, k, 0));
        }
      }
      scn := s;
    }

    /** The walk that looks for the section before scn. */
    method Previous(scn: Scn) returns (prev: Scn?, ghost i: nat)
      requires Valid() && scns != []
      ensures prev == null ==> scn !in scns[1..]
      ensures prev != null ==> 0 < i < |scns| && scns[i] == scn && scns[i - 1] == prev
    {
      var tmp := first;
      i := 0;
      while tmp.link != null
        invariant i < |scns| && tmp == scns[i]
        invariant forall k | 1 <= k <= i :: scns[k] != scn
        decreases |scns| - i
      {
        assert LinkedAt(scns, i);
        i := i + 1;
        if tmp.link == scn {
          return tmp, i;
        }
        tmp := tmp.link;
      }
      assert LinkedAt(scns, i);
      prev := null;
    }

    /** The sections after the removed one move down. */
    method ShiftDown(start: Scn?, ghost i: nat)
      requires i <= |scns| && start == At(scns, i) && Distinct(scns)
      requires forall k {:trigger LinkedAt(scns, k)} | 0 <= k < |scns| :: LinkedAt(scns, k)
      requires forall k {:trigger ShiftedAt(scns, k, 0)} | 0 <= k < i :: ShiftedAt(scns, k, 0)
      requires forall k {:trigger ShiftedAt(scns, k, 1)} | i <= k < |scns| :: ShiftedAt(scns, k, 1)
      modifies scns`index
      ensures forall k {:trigger ShiftedAt(scns, k, 0)} | 0 <= k < |scns| :: ShiftedAt(scns, k, 0)
      ensures forall k {:trigger LinkedAt(scns, k)} | 0 <= k < |scns| :: LinkedAt(scns, k)
    {
      var scn := start;
      ghost var n := i;
      while scn != null
        invariant n <= |scns| && scn == At(scns, n)
        invariant forall k {:trigger LinkedAt(scns, k)} | 0 <= k < |scns| :: LinkedAt(scns, k)
        invariant forall k {:trigger ShiftedAt(scns, k, 0)} | 0 <= k < n :: ShiftedAt(scns, k, 0)
        invariant forall k {:trigger ShiftedAt(scns, k, 1)} | n <= k < |scns| :: ShiftedAt(scns, k, 1)
        decreases |scns| - n
      {
        assert scn in scns && ShiftedAt(scns, n, 1) && LinkedAt(scns, n);
        scn.index := scn.index - 1;
        scn := scn.link;
        n := n + 1;
      }
    }

    /** Takes section i out of the list and renumbers the sections after it. */
    method Unlink(prev: Scn, scn: Scn, ghost i: nat)
      requires Valid() && 0 < i < |scns| && scns[i] == scn && scns[i - 1] == prev
      modifies this`last, this`scns, prev`link, scns`index
      ensures Valid() && scns == Without(old(scns), i) && scn.index == i
    {
      ghost var ss := scns;
      assert LinkedAt(ss, i) && LinkedAt(ss, i - 1) && ShiftedAt(ss, i, 0);
      if last == scn {
        last := prev;
      }
      prev.link := scn.link;
      scns := Without(ss, i);
      forall k | 0 <= k < i
        ensures LinkedAt(scns, k) && ShiftedAt(scns, k, 0)
      {
        assert old(LinkedAt(ss, k)) && old(ShiftedAt(ss, k, 0));
      }
      forall k | i <= k < |scns|
        ensures LinkedAt(scns, k) && ShiftedAt(scns, k, 1)
      {
        assert old(LinkedAt(ss, k + 1)) && old(ShiftedAt(ss, k + 1, 0));
      }
      ShiftDown(prev.link, i);
    }

    /** elfx_remscn, which stores the count anew too. */
    method RemScn(scn: Scn) returns (index: nat)
      requires Valid() && scns != []
      modifies this, scns
      ensures Valid() && (index != SHN_UNDEF || old(Counted()) ==> Counted())
      ensures index == SHN_UNDEF <==> !isElf || scn.elf != this || scn !in old(scns)[1..]
      ensures index == SHN_UNDEF ==> scns == old(scns)
      ensures index != SHN_UNDEF ==>
                index < old(|scns|) && old(scns)[index] == scn && scns == Without(old(scns), index)
    {
      if !isElf || scn.elf != this || scn == first {
        return SHN_UNDEF;
      }
      var prev, i := Previous(scn);
      if prev == null {
        return SHN_UNDEF;
      }
      Unlink(prev, scn, i);
      index := scn.index;
      assert ShiftedAt(scns, |scns| - 1, 0);
      UpdateShnum(last.index + 1);
    }

    /** _elf32_update_shdr and _elf64_update_shdr */
    method UpdateShdr(index: nat)
      requires Valid() && scns != []
      modifies this`shnum, scns`shLink, scns`shInfo
      ensures Valid() && shnum == |scns| % 0x1_0000
      ensures forall k | 0 <= k < |scns| :: Renumbered(scns[k], index)
    {
      assert ShiftedAt(scns, |scns| - 1, 0);
      shnum := (last.index + 1) % 0x1_0000;
      var scn := first;
      ghost var n := 0;
      while scn != null
        invariant n <= |scns| && scn == At(scns, n) && shnum == |scns| % 0x1_0000
        invariant forall k {:trigger LinkedAt(scns, k)} | 0 <= k < |scns| :: LinkedAt(scns, k)
        invariant forall k | 0 <= k < n :: Renumbered(scns[k], index)
        invariant forall k | n <= k < |scns| :: scns[k].shLink == old(scns[k].shLink) && scns[k].shInfo == old(scns[k].shInfo)
        decreases |scns| - n
      {
        assert scn in scns && LinkedAt(scns, n);
        if InfoNamesSection(scn.shType) {
          scn.shInfo := NewIndex(scn.shInfo, index);
        }
        if LinksSection(scn.shType) {
          scn.shLink := NewIndex(scn.shLink, index);
        }
        scn := scn.link;
        n := n + 1;
      }
      forall k | 0 <= k < |scns|
        ensures ShiftedAt(scns, k, 0)
      {
        assert old(ShiftedAt(scns, k, 0));
      }
    }

    /** elf_delscn: section references of the remaining sections name the sections they named
        before, or none if that was the deleted one. */
    method DelScn(scn: Scn) returns (index: nat)
      requires Valid() && scns != []
      modifies this, scns
      ensures Valid()
      ensures index == SHN_UNDEF <==> scn.elf != this || scn !in old(scns)[1..]
      ensures index == SHN_UNDEF ==> scns == old(scns) && shnum == old(shnum)
      ensures index != SHN_UNDEF ==> index < old(|scns|) && old(scns)[index] == scn && Deleted(index)
      ensures index != SHN_UNDEF ==>
                forall s | s in scns && s in old(scns) :: SameReferences(s, index)
      ensures index != SHN_UNDEF ==> CountAfterDeletion()
    {
      hide Names, Without, NewIndex, Valid;
      index := Delete(scn);
      if index != SHN_UNDEF {
        CountFollows(index);
        AllSame(index);
      }
    }

    /** The count stored after a deletion, if it was right before: readable below 2^16, canonical
        below SHN_LORESERVE. */
    twostate predicate CountAfterDeletion()
      requires scns != []
      reads this, scns
    {
      old(Counted()) && old(|scns|) < SizeLimit(is64) ==>
        && (Decode(Stored()) == |scns| <==> |scns| < 0x1_0000)
        && (Counted() <==> |scns| + 1 < SHN_LORESERVE)
    }

    twostate lemma CountFollows(index: nat)
      requires Deleted(index)
      ensures CountAfterDeletion()
    {
      if old(|scns|) < SizeLimit(is64) {
        DelscnCount(is64, old(|scns|));
      }
    }

    twostate lemma AllSame(index: nat)
      requires old(Valid()) && Deleted(index)
      ensures forall s | s in scns && s in old(scns) :: SameReferences(s, index)
    {
      AllNamed(old(scns), index);
      hide Names, NewIndex;
    }

    lemma AllNamed(before: seq<Scn>, index: nat)
      requires 0 < index < |before| && Distinct(before) && scns == Without(before, index)
      ensures forall v: nat {:trigger before[v]} :: v < |before| ==> Names(NewIndex(v, index), before[v], before[index])
    {
      forall v: nat | v < |before|
        ensures Names(NewIndex(v, index), before[v], before[index])
      {
        NewIndexNames(before, index, v);
      }
    }

    /** What a deletion does to the list and to the header. */
    twostate predicate Deleted(index: nat)
      reads this, scns
    {
      && 0 < index < old(|scns|) && scns == Without(old(scns), index) && scns != []
      && shnum == |scns| % 0x1_0000 && scns[0] == old(scns)[0] && scns[0].shSize == old(scns[0].shSize)
      && forall k | 0 <= k < |scns| :: scns[k] in old(scns) && Renumbered(scns[k], index)
    }

    method Delete(scn: Scn) returns (index: nat)
      requires Valid() && scns != []
      modifies this, scns
      ensures Valid()
      ensures index == SHN_UNDEF <==> scn.elf != this || scn !in old(scns)[1..]
      ensures index == SHN_UNDEF ==> scns == old(scns) && shnum == old(shnum)
      ensures index != SHN_UNDEF ==> index < old(|scns|) && old(scns)[index] == scn && Deleted(index)
    {
      if scn.elf != this || scn == first {
        return SHN_UNDEF;
      }
      var prev, i := Previous(scn);
      if prev == null {
        return SHN_UNDEF;
      }
      Unlink(prev, scn, i);
      index := scn.index;
      UpdateShdr(index);
    }

    /** Section number v names section s, or none if s is the deleted one. */
    ghost predicate Names(v: nat, s: Scn, deleted: Scn)
      reads this
    {
      if s == deleted then v == SHN_UNDEF else v < |scns| && scns[v] == s
    }

    /** The references of section s name what they named before section `index` was deleted: sh_link
        of symbol tables (types 2 and 11), relocations (4 and 9), hash tables (5), dynamic sections (6)
        and version sections, sh_info of relocations.  In others the fields stay. */
    twostate predicate SameReferences(s: Scn, index: nat)
      requires index < old(|scns|)
      reads this, s
    {
      && (if s.shType in {2, 4, 5, 6, 9, 11, 0x6fff_fffd, 0x6fff_fffe, 0x6fff_ffff} then
            old(s.shLink) < old(|scns|) ==> Names(s.shLink, old(scns)[old(s.shLink)], old(scns)[index])
          else s.shLink == old(s.shLink))
      && (if s.shType in {4, 9} then
            old(s.shInfo) < old(|scns|) ==> Names(s.shInfo, old(scns)[old(s.shInfo)], old(scns)[index])
          else s.shInfo == old(s.shInfo))
    }

    /** elfx_movscn, which leaves the count alone. */
    method MovScn(scn: Scn, after: Scn, ghost i: nat, ghost j: nat) returns (index: nat)
      requires Valid()
      requires scn.elf == this ==> i < |scns| && scns[i] == scn
      requires after.elf == this ==> j < |scns| && scns[j] == after
      modifies this, scns
      ensures Valid() && (old(Counted()) ==> Counted())
      ensures scns != [] ==> old(scns) != [] && Stored() == old(Stored())
      ensures index == SHN_UNDEF <==> !isElf || scn.elf != this || after.elf != this || i == 0
      ensures index == SHN_UNDEF ==> scns == old(scns)
      ensures index != SHN_UNDEF ==> scns == Moved(old(scns), i, j) && index < |scns| && scns[index] == scn
    {
      if !isElf || scn.elf != this || after.elf != this || scn == first {
        return SHN_UNDEF;
      }
      assert LinkedAt(scns, j) && ShiftedAt(scns, i, 0) && ShiftedAt(scns, j, 0);
      if scn == after || scn == after.link {
        assert Moved(scns, i, j) == scns;
        return scn.index;
      }
      hide Moved, Valid;
      var prev, p := Previous(scn);
      assert p == i && prev != null by { Found(scn, i); }
      Move(prev, scn, after, i, j);
      index := scn.index;
    }

    lemma Found(scn: Scn, i: nat)
      requires Valid() && 0 < i < |scns| && scns[i] == scn
      ensures scn in scns[1..] && forall p | 0 <= p < |scns| && scns[p] == scn :: p == i
    {
      assert scns[1..][i - 1] == scn;
    }

    method Move(prev: Scn, scn: Scn, after: Scn, ghost i: nat, ghost j: nat)
      requires Valid() && 0 < i < |scns| && scns[i] == scn && scns[i - 1] == prev
      requires j < |scns| && scns[j] == after && i != j && i != j + 1
      modifies this`last, this`scns, scns`index, scns`link
      ensures Valid() && scns == Moved(old(scns), i, j) && scns != [] && Stored() == old(Stored())
      ensures scn.index < |scns| && scns[scn.index] == scn
    {
      hide Moved;
      ShiftMoved(scn, after, i, j);
      Relink(prev, scn, after, i, j);
      ghost var p := if j < i then j + 1 else j;
      MovedFrom(old(scns), i, j, p);
      MovedFrom(old(scns), i, j, 0);
      assert ShiftedAt(scns, p, 0);
    }

    /** The single pass that shifts the indices between the two places. */
    method ShiftMoved(scn: Scn, after: Scn, ghost i: nat, ghost j: nat)
      requires Valid() && 0 < i < |scns| && scns[i] == scn && j < |scns| && scns[j] == after && i != j
      modifies scns`index
      ensures forall k {:trigger ShiftedAt(scns, k, Off(i, j, k))} | 0 <= k < |scns| :: ShiftedAt(scns, k, Off(i, j, k))
      ensures forall k {:trigger LinkedAt(scns, k)} | 0 <= k < |scns| :: LinkedAt(scns, k)
    {
      var off := 0;
      var tmp := first;
      ghost var n := 0;
      while tmp != null
        invariant n <= |scns| && tmp == At(scns, n) && off == Off(i, j, n)
        invariant forall k {:trigger LinkedAt(scns, k)} | 0 <= k < |scns| :: LinkedAt(scns, k)
        invariant forall k {:trigger ShiftedAt(scns, k, Off(i, j, k))} | 0 <= k < n :: ShiftedAt(scns, k, Off(i, j, k))
        invariant forall k {:trigger ShiftedAt(scns, k, 0)} | n <= k < |scns| :: ShiftedAt(scns, k, 0)
        decreases |scns| - n
      {
        assert tmp in scns && LinkedAt(scns, n) && ShiftedAt(scns, n, 0);
        if off != 0 {
          tmp.index := tmp.index + off;
        }
        if tmp == after {
          off := off + 1;
        } else if tmp == scn {
          off := off - 1;
        }
        tmp := tmp.link;
        n := n + 1;
      }
    }

    method Relink(prev: Scn, scn: Scn, after: Scn, ghost i: nat, ghost j: nat)
      requires Distinct(scns) && first == At(scns, 0) && last == At(scns, |scns| - 1) && hasEhdr
      requires forall k | 0 <= k < |scns| :: scns[k].elf == this
      requires forall k {:trigger LinkedAt(scns, k)} | 0 <= k < |scns| :: LinkedAt(scns, k)
      requires forall k {:trigger ShiftedAt(scns, k, Off(i, j, k))} | 0 <= k < |scns| :: ShiftedAt(scns, k, Off(i, j, k))
      requires 0 < i < |scns| && scns[i] == scn && j < |scns| && scns[j] == after && i != j && i != j + 1
      requires scns[i - 1] == prev
      modifies this`last, this`scns, prev`link, scn`link, scn`index, after`link
      ensures Valid() && scns == Moved(old(scns), i, j)
    {
      hide Moved;
      ghost var ss := scns;
      assert LinkedAt(ss, i) && LinkedAt(ss, j) && ShiftedAt(ss, j, Off(i, j, j));
      prev.link := scn.link;
      scn.link := after.link;
      after.link := scn;
      scn.index := after.index + 1;
      if last == scn {
        last := prev;
      } else if last == after {
        last := scn;
      }
      scns := Moved(ss, i, j);
      forall o | 0 <= o < |ss|
        ensures NextIs(ss, i, j, o)
      {
        assert old(LinkedAt(ss, o));
      }
      forall o | 0 <= o < |ss|
        ensures IndexIs(ss, i, j, o)
      {
        assert old(ShiftedAt(ss, o, Off(i, j, o)));
      }
      Reordered(ss, i, j);
      forall k | 0 <= k < |scns|
        ensures scns[k].elf == this
      {
        MovedFrom(ss, i, j, k);
      }
    }
  }

  /** How much section k's index changes when section i moves behind section j. */
  function Off(i: nat, j: nat, k: nat): int {
    if j < k <= i then 1 else if i < k <= j then -1 else 0
  }

  lemma MovedDistinct(scns: seq<Scn>, i: nat, j: nat)
    requires Distinct(scns) && i < |scns| && j < |scns|
    ensures Distinct(Moved(scns, i, j))
  {
    var ns := Moved(scns, i, j);
    forall a, b | 0 <= a < |ns| && 0 <= b < |ns| && ns[a] == ns[b]
      ensures a == b
    {
      MovedFrom(scns, i, j, a);
      MovedFrom(scns, i, j, b);
    }
  }

  /** The links and indices after the relinking, section by section of the old list. */
  ghost predicate NextIs(scns: seq<Scn>, i: nat, j: nat, o: nat)
    requires i < |scns| && j < |scns| && o < |scns|
    reads scns[o]
  {
    scns[o].link == if o == i then At(scns, j + 1) else if o == j then scns[i] else if o + 1 == i then At(scns, i + 1)
                    else At(scns, o + 1)
  }

  ghost predicate IndexIs(scns: seq<Scn>, i: nat, j: nat, o: nat)
    requires o < |scns|
    reads scns[o]
  {
    scns[o].index == if o == i then j + Off(i, j, j) + 1 else o + Off(i, j, o)
  }

  lemma Reordered(scns: seq<Scn>, i: nat, j: nat)
    requires Distinct(scns) && 0 < i < |scns| && j < |scns| && i != j && i != j + 1
    requires forall o {:trigger NextIs(scns, i, j, o)} | 0 <= o < |scns| :: NextIs(scns, i, j, o)
    requires forall o {:trigger IndexIs(scns, i, j, o)} | 0 <= o < |scns| :: IndexIs(scns, i, j, o)
    ensures var ns := Moved(scns, i, j);
            && Distinct(ns) && ns[0] == scns[0]
            && ns[|ns| - 1] == (if i == |ns| - 1 then scns[i - 1] else if j == |ns| - 1 then scns[i] else scns[|ns| - 1])
            && (forall s :: s in ns ==> s in scns)
            && (forall k {:trigger LinkedAt(ns, k)} | 0 <= k < |ns| :: LinkedAt(ns, k))
            && (forall k {:trigger ShiftedAt(ns, k, 0)} | 0 <= k < |ns| :: ShiftedAt(ns, k, 0))
  {
    hide Moved, NextIs, IndexIs;
    var ns := Moved(scns, i, j);
    MovedDistinct(scns, i, j);
    MovedFrom(scns, i, j, 0);
    MovedFrom(scns, i, j, |ns| - 1);
    forall k | 0 <= k < |ns|
      ensures LinkedAt(ns, k) && ShiftedAt(ns, k, 0) && ns[k] in scns
    {
      MovedFrom(scns, i, j, k);
      OneReordered(scns, i, j, k);
    }
  }

  lemma OneReordered(scns: seq<Scn>, i: nat, j: nat, k: nat)
    requires 0 < i < |scns| && j < |scns| && i != j && i != j + 1 && k < |scns|
    requires NextIs(scns, i, j, Origin(i, j, k)) && IndexIs(scns, i, j, Origin(i, j, k))
    ensures LinkedAt(Moved(scns, i, j), k) && ShiftedAt(Moved(scns, i, j), k, 0)
  {
    hide Moved;
    MovedFrom(scns, i, j, k);
    if k + 1 < |scns| {
      MovedFrom(scns, i, j, k + 1);
    }
  }

  /** The header's section references after a deletion. */
  twostate predicate Renumbered(s: Scn, index: nat)
    reads s
  {
    && s.shType == old(s.shType)
    && s.shLink == (if LinksSection(s.shType) then NewIndex(old(s.shLink), index) else old(s.shLink))
    && s.shInfo == (if InfoNamesSection(s.shType) then NewIndex(old(s.shInfo), index) else old(s.shInfo))
  }
}
