/** util.c: binary searches over the metadata tables. */
module SiteSearch {
  import opened Bytes
  import opened Machine

  ghost predicate SortedByAddr(s: seq<CallSite>) {
    forall i, j | 0 <= i < j < |s| :: s[i].addr < s[j].addr
  }

  ghost predicate SortedById(s: seq<CallSite>) {
    forall i, j | 0 <= i < j < |s| :: s[i].id < s[j].id
  }

  ghost predicate FunctionsSorted(s: seq<UnwindAddr>) {
    forall i, j | 0 <= i < j < |s| :: s[i].addr < s[j].addr
  }

  /** Finds the call site with a return address exactly when there is one. */
  method GetSiteByAddr(sites: seq<CallSite>, retAddr: int) returns (found: bool, cs: CallSite)
    requires SortedByAddr(sites)
    ensures found ==> cs in sites && cs.addr == retAddr
    ensures !found ==> forall s | s in sites :: s.addr != retAddr
  {
    found, cs := false, EMPTY_CALL_SITE;
    var min, max := 0, |sites| - 1;
    while max >= min
      invariant 0 <= min <= max + 1 <= |sites|
      invariant forall i | 0 <= i < |sites| && (i < min || max < i) :: sites[i].addr != retAddr
      decreases max - min
    {
      var mid := (max + min) / 2;
      if sites[mid].addr == retAddr {
        return true, sites[mid];
      } else if retAddr > sites[mid].addr {
        min := mid + 1;
      } else {
        max := mid - 1;
      }
    }
  }

  /** The same search by identifier. */
  method GetSiteById(sites: seq<CallSite>, id: nat) returns (found: bool, cs: CallSite)
    requires SortedById(sites)
    ensures found ==> cs in sites && cs.id == id
    ensures !found ==> forall s | s in sites :: s.id != id
  {
    found, cs := false, EMPTY_CALL_SITE;
    var min, max := 0, |sites| - 1;
    while max >= min
      invariant 0 <= min <= max + 1 <= |sites|
      invariant forall i | 0 <= i < |sites| && (i < min || max < i) :: sites[i].id != id
      decreases max - min
    {
      var mid := (max + min) / 2;
      if sites[mid].id == id {
        return true, sites[mid];
      } else if id > sites[mid].id {
        min := mid + 1;
      } else {
        max := mid - 1;
      }
    }
  }

  /** The function that encloses an address: the last one starting at or below it.  The range of
      the last function has no end. */
  method GetUnwindOffsetByAddr(fns: seq<UnwindAddr>, addr: u64) returns (found: bool, meta: UnwindAddr)
    requires FunctionsSorted(fns)
    ensures found <==> |fns| > 0 && fns[0].addr <= addr
    ensures found ==> meta in fns && meta.addr <= addr && forall f | f in fns && f.addr <= addr :: f.addr <= meta.addr
  {
    found, meta := false, UnwindAddr(0, 0, 0);
    var min, max := 0, |fns| - 1;
    while max >= min
      invariant 0 <= min <= max + 1 <= |fns|
      invariant forall i | 0 <= i < min :: fns[i].addr <= addr
      invariant forall i | max < i < |fns| :: addr < fns[i].addr
      invariant min > 0 ==> min < |fns| && fns[min].addr <= addr
      decreases max - min
    {
      var mid := (max + min) / 2;
      if mid == |fns| - 1 {
        if fns[mid].addr <= addr {
          found, meta := true, fns[mid];
        }
        break;
      }
      if fns[mid].addr <= addr && addr < fns[mid + 1].addr {
        found, meta := true, fns[mid];
        break;
      } else if addr > fns[mid].addr {
        min := mid + 1;
      } else {
        max := mid - 1;
      }
    }
  }
}
