/** nlist.c: looking names up in an ELF symbol table through a chained hash index. */
module NList {

  const PRIME := 217

  datatype Option<T> = None | Some(value: T)

  /** A symbol; it has no name if st_name lies outside the string table. */
  datatype Sym = Sym(name: Option<string>, value: nat, shndx: nat)

  datatype Entry = Entry(name: string, hash: nat, next: nat)

  /** What nlist() reports for one name: value and section, 0 if there is no such symbol. */
  datatype Answer = Answer(value: nat, scnum: nat)

  // ---------- what a lookup means ----------

  predicate Named(syms: seq<Sym>, i: nat, name: string)
    requires i < |syms|
  {
    i > 0 && name != "" && syms[i].name == Some(name)
  }

  /** A backward linear scan: the largest index below n, from 1 on, with that name, or 0. */
  function Scan(syms: seq<Sym>, name: string, n: nat): (i: nat)
    requires n <= |syms|
    ensures i == 0 || i < n
  {
    if n == 0 then 0 else if Named(syms, n - 1, name) then n - 1 else Scan(syms, name, n - 1)
  }

  /** The scan finds a name exactly if some symbol from 1 on carries it, and then the last one. */
  lemma {:induction false} ScanFinds(syms: seq<Sym>, name: string, n: nat, j: nat)
    requires n <= |syms|
    ensures Scan(syms, name, n) != 0 ==> Named(syms, Scan(syms, name, n), name)
    ensures j < n && Named(syms, j, name) ==> j <= Scan(syms, name, n)
  {
    if n > 0 {
      ScanFinds(syms, name, n - 1, j);
    }
  }

  /** The answer tells the fields of the last symbol with the name, or nothing if no symbol has it. */
  ghost predicate Tells(syms: seq<Sym>, name: string, a: Answer) {
    || (exists i | 0 <= i < |syms| && Named(syms, i, name) ::
          && (forall j | i < j < |syms| :: !Named(syms, j, name))
          && a.value == syms[i].value && a.scnum == syms[i].shndx)
    || ((forall i | 0 <= i < |syms| :: !Named(syms, i, name)) && a.value == 0 && a.scnum == 0)
  }

  lemma AnswerTells(syms: seq<Sym>, name: string)
    ensures Tells(syms, name, AnswerOf(syms, name))
  {
    var i := Scan(syms, name, |syms|);
    forall j | 0 <= j < |syms| && Named(syms, j, name)
      ensures j <= i
    {
      ScanFinds(syms, name, |syms|, j);
    }
    ScanFinds(syms, name, |syms|, 0);
  }

  function AnswerOf(syms: seq<Sym>, name: string): Answer {
    var i := Scan(syms, name, |syms|);
    if i == 0 then Answer(0, 0) else Answer(syms[i].value, syms[i].shndx)
  }

  // ---------- the index ----------

  predicate InBucket(syms: seq<Sym>, hash: string -> nat, i: nat, h: nat)
    requires i < |syms|
  {
    i > 0 && syms[i].name.Some? && syms[i].name.value != "" && hash(syms[i].name.value) % PRIME == h
  }

  /** The last symbol below n that belongs to bucket h, or 0. */
  function Head(syms: seq<Sym>, hash: string -> nat, h: nat, n: nat): (i: nat)
    requires n <= |syms|
    ensures i == 0 || (i < n && InBucket(syms, hash, i, h))
  {
    if n == 0 then 0 else if InBucket(syms, hash, n - 1, h) then n - 1 else Head(syms, hash, h, n - 1)
  }

  /** Symbols outside a name's bucket cannot carry the name. */
  lemma {:induction false} ScanFromHead(syms: seq<Sym>, hash: string -> nat, name: string, n: nat)
    requires n <= |syms| && name != ""
    ensures var i := Head(syms, hash, hash(name) % PRIME, n);
            Scan(syms, name, n) == if i == 0 then 0 else Scan(syms, name, i + 1)
  {
    if n > 0 && !InBucket(syms, hash, n - 1, hash(name) % PRIME) {
      ScanFromHead(syms, hash, name, n - 1);
    }
  }

  predicate EntryOk(syms: seq<Sym>, hash: string -> nat, i: nat, e: Entry)
    requires i < |syms|
  {
    i > 0 && syms[i].name.Some? && syms[i].name.value != "" ==>
      e == Entry(syms[i].name.value, hash(syms[i].name.value), Head(syms, hash, hash(syms[i].name.value) % PRIME, i))
  }

  class Index {
    const syms: seq<Sym>
    const hash: string -> nat
    const first: array<nat>
    const table: array<Entry>

    /** The first n symbols are in their chains, last one first. */
    ghost predicate Indexed(n: nat)
      reads this, first, table
    {
      && n <= |syms| == table.Length && first.Length == PRIME
      && (forall h | 0 <= h < PRIME :: first[h] == Head(syms, hash, h, n))
      && (forall i | 0 <= i < n :: EntryOk(syms, hash, i, table[i]))
    }

    constructor (syms: seq<Sym>, hash: string -> nat)
      ensures this.syms == syms && this.hash == hash && fresh(first) && fresh(table)
      ensures first.Length == PRIME && table.Length == |syms|
      ensures (forall h | 0 <= h < PRIME :: first[h] == 0)
    {
      this.syms, this.hash := syms, hash;
      first := new nat[PRIME](_ => 0);
      table := new Entry[|syms|](_ => Entry("", 0, 0));
    }

    /** The loop that fills the index; it gives up on a symbol without a name. */
    method Build() returns (ok: bool)
      requires first.Length == PRIME && table.Length == |syms| && |syms| > 0
      requires forall h | 0 <= h < PRIME :: first[h] == 0
      modifies first, table
      ensures ok <==> forall i | 1 <= i < |syms| :: syms[i].name.Some?
      ensures ok ==> Indexed(|syms|)
    {
      var i := 1;
      OneSymbol(syms, hash);
      while i < |syms|
        invariant 1 <= i <= |syms| && Indexed(i)
        invariant forall j | 1 <= j < i :: syms[j].name.Some?
      {
        if syms[i].name.None? {
          return false;
        }
        var name := syms[i].name.value;
        if name != "" {
          var h := hash(name) % PRIME;
          table[i] := Entry(name, hash(name), first[h]);
          first[h] := i;
        }
        i := i + 1;
      }
      ok := true;
    }

    /** One lookup: along the chain of the name's bucket. */
    method Lookup(name: string) returns (i: nat)
      requires Indexed(|syms|) && name != ""
      ensures i == Scan(syms, name, |syms|)
    {
      var h := hash(name);
      i := first[h % PRIME];
      ScanFromHead(syms, hash, name, |syms|);
      while i != 0
        invariant i != 0 ==> i < |syms| && InBucket(syms, hash, i, h % PRIME)
        invariant Scan(syms, name, |syms|) == if i == 0 then 0 else Scan(syms, name, i + 1)
        decreases i
      {
        assert EntryOk(syms, hash, i, table[i]);
        if table[i].hash == h && table[i].name == name {
          return;
        }
        ScanFromHead(syms, hash, name, i);
        i := table[i].next;
      }
    }

    /** The loop over the names of an nlist array, up to the first empty one. */
    method LookupAll(names: seq<string>) returns (answers: seq<Answer>)
      requires Indexed(|syms|)
      ensures |answers| <= |names| && (|answers| < |names| ==> names[|answers|] == "")
      ensures forall k | 0 <= k < |answers| :: names[k] != "" && Tells(syms, names[k], answers[k])
    {
      hide Tells;
      answers := [];
      for k := 0 to |names|
        invariant |answers| == k
        invariant forall j | 0 <= j < k :: names[j] != "" && Tells(syms, names[j], answers[j])
      {
        if names[k] == "" {
          return;
        }
        AnswerTells(syms, names[k]);
        var i := Lookup(names[k]);
        answers := answers + [if i != 0 then Answer(syms[i].value, syms[i].shndx) else Answer(0, 0)];
      }
    }
  }

  lemma OneSymbol(syms: seq<Sym>, hash: string -> nat)
    requires |syms| > 0
    ensures forall h | 0 <= h < PRIME :: Head(syms, hash, h, 1) == 0
  {
  }
}
