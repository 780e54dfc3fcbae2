/** How the live-value records of a source and a destination call site are matched: a record
    and the duplicate records after it describe one value, and the k-th value of one site is
    the k-th value of the other. */
module Pairing {
  import opened Machine

  /** The record after i's duplicates. */
  function NextHead(vs: seq<LiveValue>, i: nat): (k: nat)
    requires i < |vs|
    ensures i < k <= |vs| && (forall j | i < j < k :: vs[j].isDuplicate) && (k < |vs| ==> !vs[k].isDuplicate)
    decreases |vs| - i
  {
    if i + 1 < |vs| && vs[i + 1].isDuplicate then NextHead(vs, i + 1) else i + 1
  }

  /** The source record that destination record j is filled from. */
  function Head(sv: seq<LiveValue>, dv: seq<LiveValue>, j: nat): nat
    requires j < |dv|
  {
    if j == 0 then 0
    else
      var i := Head(sv, dv, j - 1);
      if dv[j].isDuplicate || i >= |sv| then i else NextHead(sv, i)
  }

  /** How many values the first n records describe. */
  function Values(vs: seq<LiveValue>, n: nat): nat
    requires n <= |vs|
  {
    if n == 0 then 0 else Values(vs, n - 1) + if vs[n - 1].isDuplicate then 0 else 1
  }

  /** Both sites describe the same number of values, and matched records agree on size and
      type.  A duplicate is never a stack allocation; a stack allocation is kept in memory;
      a pointer is a full word in a register or memory. */
  ghost predicate PairOk(sv: seq<LiveValue>, dv: seq<LiveValue>) {
    && (|sv| == 0 <==> |dv| == 0)
    && (|dv| > 0 ==> !sv[0].isDuplicate && !dv[0].isDuplicate
                     && Head(sv, dv, |dv| - 1) < |sv| && NextHead(sv, Head(sv, dv, |dv| - 1)) == |sv|)
    && forall j {:trigger dv[j]} | 0 <= j < |dv| :: Head(sv, dv, j) < |sv| && TypesOk(sv[Head(sv, dv, j)], dv[j])
  }

  ghost predicate TypesOk(s: LiveValue, d: LiveValue) {
    && !s.isDuplicate
    && s.ValSize() == d.ValSize() && s.isPtr == d.isPtr && s.isAlloca == d.isAlloca
    && (d.isDuplicate ==> !d.isAlloca)
    && (s.isAlloca ==> s.kind.SmDirect? && d.kind.SmDirect?)
    && (s.isPtr && !s.isAlloca ==> (s.kind.SmRegister? || s.kind.SmIndirect?) && s.size == 8)
    && !s.kind.SmConstIdx?
    && (s.kind.SmRegister? || s.kind.SmConstant? ==> s.ValSize() <= 8)
  }

  /** The pairing counts values: a destination record and its source record are preceded by
      equally many values of their own site. */
  lemma {:induction false} HeadCounts(sv: seq<LiveValue>, dv: seq<LiveValue>, j: nat)
    requires j < |dv| && |sv| > 0 && !sv[0].isDuplicate && !dv[0].isDuplicate
    requires Head(sv, dv, j) < |sv|
    ensures !sv[Head(sv, dv, j)].isDuplicate
    ensures Values(sv, Head(sv, dv, j) + 1) == Values(dv, j + 1)
  {
    if j > 0 {
      HeadCounts(sv, dv, j - 1);
      var i := Head(sv, dv, j - 1);
      if !dv[j].isDuplicate {
        DuplicatesAddNothing(sv, i + 1, NextHead(sv, i));
      }
    }
  }

  lemma {:induction false} DuplicatesAddNothing(vs: seq<LiveValue>, m: nat, n: nat)
    requires m <= n <= |vs| && forall j | m <= j < n :: vs[j].isDuplicate
    ensures Values(vs, n) == Values(vs, m)
  {
    if m < n {
      DuplicatesAddNothing(vs, m, n - 1);
    }
  }

  /** Different destination values are filled from different source records. */
  lemma {:induction false} HeadsDiffer(sv: seq<LiveValue>, dv: seq<LiveValue>, i: nat, j: nat)
    requires i < j < |dv| && Head(sv, dv, j) < |sv| && !dv[j].isDuplicate
    ensures Head(sv, dv, i) < Head(sv, dv, j)
  {
    HeadGrows(sv, dv, i, j - 1);
  }

  lemma {:induction false} HeadGrows(sv: seq<LiveValue>, dv: seq<LiveValue>, i: nat, j: nat)
    requires i <= j < |dv|
    ensures Head(sv, dv, i) <= Head(sv, dv, j)
  {
    if i < j {
      HeadGrows(sv, dv, i, j - 1);
    }
  }

  /** The duplicates of a destination value are filled from the same source record, and the
      value after them from the next one. */
  lemma {:induction false} HeadOfNext(sv: seq<LiveValue>, dv: seq<LiveValue>, j: nat, k: nat)
    requires j <= k < |dv| && k < NextHead(dv, j)
    ensures Head(sv, dv, k) == Head(sv, dv, j)
    ensures k + 1 == NextHead(dv, j) < |dv| && Head(sv, dv, j) < |sv| ==>
              Head(sv, dv, k + 1) == NextHead(sv, Head(sv, dv, j))
  {
    if j < k {
      HeadOfNext(sv, dv, j, k - 1);
    }
  }
}
