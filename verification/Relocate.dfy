/** The self-relocators of the two 64-bit targets: the dynamic section scan, the relocation loop, and what sets them apart. */
module Relocate {
  import Arithmetic
  import opened Bytes
  import opened Machine

  const DT_NULL := 0
  const DT_RELA := 7
  const DT_RELASZ := 8
  const DT_RELAENT := 9
  const R_X86_64_RELATIVE := 8
  const R_AARCH64_RELATIVE := 1027

  // ---------- entries and what they do

  datatype Rela = Rela(offset: Word, info: Word, addend: Word) {
    function Type(): nat {
      info % 0x1_0000_0000
    }

    function Target(ldbase: Word): (a: Word) {
      (ldbase + offset) % TWO64
    }
  }

  /** A target takes its own old content, or the addend of the entry, as the value to which the load base is added. */
  datatype Form = Implicit(relative: nat) | Explicit(relative: nat)

  const X86_64 := Implicit(R_X86_64_RELATIVE)
  const AARCH64 := Explicit(R_AARCH64_RELATIVE)

  ghost predicate InMemory(e: Rela, form: Form, ldbase: Word, size: nat) {
    e.Type() == form.relative ==> e.Target(ldbase) + 8 <= size
  }

  function Applied(m: seq<Byte>, e: Rela, form: Form, ldbase: Word): (r: seq<Byte>)
    requires InMemory(e, form, ldbase, |m|)
    ensures |r| == |m|
  {
    if e.Type() != form.relative then m
    else
      var a := e.Target(ldbase);
      var base := if form.Implicit? then Load64(m, a) else e.addend;
      Store64(m, a, (base + ldbase) % TWO64)
  }

  ghost predicate AllInMemory(es: seq<Rela>, form: Form, ldbase: Word, size: nat) {
    forall k :: 0 <= k < |es| ==> InMemory(es[k], form, ldbase, size)
  }

  /** The entries applied in order. */
  function Relocated(m: seq<Byte>, es: seq<Rela>, form: Form, ldbase: Word): (r: seq<Byte>)
    requires AllInMemory(es, form, ldbase, |m|)
    ensures |r| == |m|
  {
    if es == [] then m else Applied(Relocated(m, es[..|es| - 1], form, ldbase), es[|es| - 1], form, ldbase)
  }

  /** A byte that no applied entry covers. */
  ghost predicate Untouched(es: seq<Rela>, form: Form, ldbase: Word, x: nat) {
    forall k :: 0 <= k < |es| && es[k].Type() == form.relative ==> !(es[k].Target(ldbase) <= x < es[k].Target(ldbase) + 8)
  }

  lemma {:induction false} UntouchedStays(m: seq<Byte>, es: seq<Rela>, form: Form, ldbase: Word, x: nat)
    requires AllInMemory(es, form, ldbase, |m|) && x < |m| && Untouched(es, form, ldbase, x)
    ensures Relocated(m, es, form, ldbase)[x] == m[x]
    decreases |es|
  {
    hide Store64, Load64, Rela.Type, Rela.Target;
    if es != [] {
      var e, front := es[|es| - 1], es[..|es| - 1];
      UntouchedStays(m, front, form, ldbase, x);
      assert InMemory(e, form, ldbase, |m|);
      if e.Type() == form.relative {
        var was := Relocated(m, front, form, ldbase);
        var a := e.Target(ldbase);
        StoredElsewhere(was, a, ((if form.Implicit? then Load64(was, a) else e.addend) + ldbase) % TWO64, x);
      }
    }
  }

  // ---------- the table in memory

  function At(rel: nat, relent: nat, k: nat): nat {
    rel + k * relent
  }

  /** The bytes of an entry that the loop reads: offset and info, and the addend in the explicit form. */
  function EntrySize(form: Form): nat {
    if form.Explicit? then 24 else 16
  }

  function EntryAt(m: seq<Byte>, a: nat, form: Form): Rela
    requires a + EntrySize(form) <= |m|
  {
    Rela(Load64(m, a), Load64(m, a + 8), if form.Explicit? then Load64(m, a + 16) else 0)
  }

  ghost predicate TableFits(size: nat, rel: nat, relent: nat, n: nat, form: Form) {
    forall k :: 0 <= k < n ==> At(rel, relent, k) + EntrySize(form) <= size
  }

  function Table(m: seq<Byte>, rel: nat, relent: nat, n: nat, form: Form): (es: seq<Rela>)
    requires TableFits(|m|, rel, relent, n, form)
    ensures |es| == n && forall k :: 0 <= k < n ==> es[k] == EntryAt(m, At(rel, relent, k), form)
  {
    seq(n, k requires 0 <= k < n => EntryAt(m, At(rel, relent, k), form))
  }

  /** No applied entry writes into the table. */
  ghost predicate TableSafe(es: seq<Rela>, rel: nat, relent: nat, form: Form, ldbase: Word) {
    forall k, x :: 0 <= k < |es| && At(rel, relent, k) <= x < At(rel, relent, k) + EntrySize(form) ==> Untouched(es, form, ldbase, x)
  }

  lemma UntouchedFront(es: seq<Rela>, n: nat, form: Form, ldbase: Word, x: nat)
    requires n <= |es| && Untouched(es, form, ldbase, x)
    ensures Untouched(es[..n], form, ldbase, x)
  {
  }

  /** Entry k still reads as at the start. */
  lemma EntryKept(m: seq<Byte>, rel: nat, relent: nat, n: nat, form: Form, ldbase: Word, k: nat)
    requires k < n && TableFits(|m|, rel, relent, n, form)
    requires AllInMemory(Table(m, rel, relent, n, form), form, ldbase, |m|)
    requires TableSafe(Table(m, rel, relent, n, form), rel, relent, form, ldbase)
    ensures var es := Table(m, rel, relent, n, form);
            EntryAt(Relocated(m, es[..k], form, ldbase), At(rel, relent, k), form) == es[k]
  {
    hide At, Relocated, Load64, Untouched;
    var es := Table(m, rel, relent, n, form);
    var now, a := Relocated(m, es[..k], form, ldbase), At(rel, relent, k);
    forall x | a <= x < a + EntrySize(form)
      ensures now[x] == m[x]
    {
      UntouchedFront(es, k, form, ldbase, x);
      UntouchedStays(m, es[..k], form, ldbase, x);
    }
    LoadSame(now, m, a);
    LoadSame(now, m, a + 8);
    if form.Explicit? {
      LoadSame(now, m, a + 16);
    }
  }

  // ---------- the dynamic section

  datatype Dyn = Dyn(tag: nat, val: Word)

  /** The value of the last entry with the tag, if there is one. */
  function LastWith(dyn: seq<Dyn>, tag: nat): (r: seq<Word>) {
    if dyn == [] then []
    else if dyn[|dyn| - 1].tag == tag then [dyn[|dyn| - 1].val]
    else LastWith(dyn[..|dyn| - 1], tag)
  }

  /** LastWith finds an entry exactly when there is one, and none behind it has the tag. */
  lemma {:induction false} LastWithIs(dyn: seq<Dyn>, tag: nat)
    ensures LastWith(dyn, tag) == [] <==> forall k :: 0 <= k < |dyn| ==> dyn[k].tag != tag
    ensures LastWith(dyn, tag) != [] ==>
              exists k :: 0 <= k < |dyn| && dyn[k] == Dyn(tag, LastWith(dyn, tag)[0]) && forall j :: k < j < |dyn| ==> dyn[j].tag != tag
  {
    if dyn != [] {
      var front := dyn[..|dyn| - 1];
      if dyn[|dyn| - 1].tag == tag {
        assert dyn[|dyn| - 1] == Dyn(tag, LastWith(dyn, tag)[0]);
      } else {
        LastWithIs(front, tag);
        if LastWith(front, tag) != [] {
          var k :| 0 <= k < |front| && front[k] == Dyn(tag, LastWith(dyn, tag)[0]) && forall j :: k < j < |front| ==> front[j].tag != tag;
          assert dyn[k] == front[k];
          assert forall j :: k < j < |front| ==> dyn[j] == front[j];
        }
      }
    }
  }

  /** A machine word read as a signed number. */
  function Signed(w: Word): int {
    if w < TWO64 / 2 then w else w - TWO64
  }

  function Or(v: seq<Word>, otherwise: Word): Word {
    if v == [] then otherwise else v[0]
  }

  /** Where the table starts; zero when no entry gives it. */
  function TableStart(dyn: seq<Dyn>, ldbase: Word): Word {
    var v := LastWith(dyn, DT_RELA);
    if v == [] then 0 else (v[0] + ldbase) % TWO64
  }

  /** Entries the loop goes through: the last one may reach past the end of the table. */
  function Count(relsz: int, relent: int): nat
    requires relent > 0
  {
    if relsz <= 0 then 0 else (relsz + relent - 1) / relent
  }

  lemma CountIs(relsz: int, relent: int, k: nat)
    requires relent > 0
    ensures k < Count(relsz, relent) <==> relsz - k * relent > 0
  {
    if relsz > 0 {
      var n := Count(relsz, relent);
      var r := (relsz + relent - 1) % relent;
      assert n * relent + r == relsz + relent - 1;
      if k < n {
        Arithmetic.MulMonotone(n, k + 1, relent);
        assert (k + 1) * relent == k * relent + relent;
      } else {
        Arithmetic.MulMonotone(k, n, relent);
      }
    } else {
      Arithmetic.MulMonotone(k, 0, relent);
    }
  }

  datatype Status = Success | LoadError

  /** The scan of the dynamic section, up to its null entry. */
  method Scan(dyn: array<Dyn>, ghost n: nat, ldbase: Word) returns (rel: Word, relsz: Word, relent: Word)
    requires n < dyn.Length && dyn[n].tag == DT_NULL && forall k :: 0 <= k < n ==> dyn[k].tag != DT_NULL
    ensures rel == TableStart(dyn[..n], ldbase)
    ensures relsz == Or(LastWith(dyn[..n], DT_RELASZ), 0)
    ensures relent == Or(LastWith(dyn[..n], DT_RELAENT), 0)
  {
    rel, relsz, relent := 0, 0, 0;
    var i := 0;
    while dyn[i].tag != DT_NULL
      invariant i <= n
      invariant rel == TableStart(dyn[..i], ldbase)
      invariant relsz == Or(LastWith(dyn[..i], DT_RELASZ), 0)
      invariant relent == Or(LastWith(dyn[..i], DT_RELAENT), 0)
      decreases n - i
    {
      match dyn[i].tag {
        case 7 => rel := (dyn[i].val + ldbase) % TWO64;
        case 8 => relsz := dyn[i].val;
        case 9 => relent := dyn[i].val;
        case _ =>
      }
      assert dyn[..i + 1][..i] == dyn[..i];
      i := i + 1;
    }
  }

  /** One round of the loop. */
  method Apply(mem: array<Byte>, a: nat, form: Form, ldbase: Word, ghost e: Rela)
    requires a + EntrySize(form) <= mem.Length && e == EntryAt(mem[..], a, form) && InMemory(e, form, ldbase, mem.Length)
    modifies mem
    ensures mem[..] == Applied(old(mem[..]), e, form, ldbase)
  {
    hide Load64, Put;
    if Load64(mem[..], a + 8) % 0x1_0000_0000 == form.relative {
      var addr := (ldbase + Load64(mem[..], a)) % TWO64;
      if form.Implicit? {
        Write(mem, addr, 8, (Load64(mem[..], addr) + ldbase) % TWO64);
      } else {
        Write(mem, addr, 8, (ldbase + Load64(mem[..], a + 16)) % TWO64);
      }
    }
  }

  /** What the loop needs: the table and the targets lie in memory, and no target in the table. */
  ghost predicate Ready(m: seq<Byte>, rel: nat, relent: int, relsz: int, form: Form, ldbase: Word) {
    && relent > 0
    && TableFits(|m|, rel, relent, Count(relsz, relent), form)
    && AllInMemory(Table(m, rel, relent, Count(relsz, relent), form), form, ldbase, |m|)
    && TableSafe(Table(m, rel, relent, Count(relsz, relent), form), rel, relent, form, ldbase)
  }

  method ApplyTable(mem: array<Byte>, table: nat, size: int, relent: int, form: Form, ldbase: Word)
    requires Ready(mem[..], table, relent, size, form, ldbase)
    modifies mem
    ensures mem[..] == Relocated(old(mem[..]), Table(old(mem[..]), table, relent, Count(size, relent), form), form, ldbase)
  {
    hide EntryAt, Applied, Count, TableSafe, InMemory;
    ghost var m, n := mem[..], Count(size, relent);
    ghost var es := Table(m, table, relent, n, form);
    var rel, relsz := table, size;
    ghost var k := 0;
    CountIs(size, relent, 0);
    while relsz > 0
      invariant k <= n && rel == At(table, relent, k) && relsz == size - k * relent
      invariant relsz > 0 <==> k < n
      invariant mem[..] == Relocated(m, es[..k], form, ldbase)
      decreases n - k
    {
      EntryKept(m, table, relent, n, form, ldbase, k);
      Apply(mem, rel, form, ldbase, es[k]);
      RelocatedMore(m, es, form, ldbase, k);
      CountIs(size, relent, k + 1);
      assert (k + 1) * relent == k * relent + relent;
      rel := rel + relent;
      relsz := relsz - relent;
      k := k + 1;
    }
    assert es[..n] == es;
  }

  lemma RelocatedMore(m: seq<Byte>, es: seq<Rela>, form: Form, ldbase: Word, k: nat)
    requires k < |es| && AllInMemory(es, form, ldbase, |m|)
    ensures Relocated(m, es[..k + 1], form, ldbase) == Applied(Relocated(m, es[..k], form, ldbase), es[k], form, ldbase)
  {
    assert es[..k + 1][..k] == es[..k];
  }

  /** What a call needs, when the dynamic section gives it a table to go through. */
  ghost predicate CanRelocate(m: seq<Byte>, dyn: seq<Dyn>, form: Form, ldbase: Word) {
    var rel, relent := TableStart(dyn, ldbase), Signed(Or(LastWith(dyn, DT_RELAENT), 0));
    rel != 0 && relent != 0 ==> Ready(m, rel, relent, Signed(Or(LastWith(dyn, DT_RELASZ), 0)), form, ldbase)
  }

  function AfterRelocate(m: seq<Byte>, dyn: seq<Dyn>, form: Form, ldbase: Word): (r: seq<Byte>)
    requires CanRelocate(m, dyn, form, ldbase)
    ensures |r| == |m|
  {
    var rel, relent := TableStart(dyn, ldbase), Signed(Or(LastWith(dyn, DT_RELAENT), 0));
    var relsz := Signed(Or(LastWith(dyn, DT_RELASZ), 0));
    if rel == 0 || relent == 0 then m else Relocated(m, Table(m, rel, relent, Count(relsz, relent), form), form, ldbase)
  }

  function RelocateStatus(dyn: seq<Dyn>, ldbase: Word): Status {
    if (TableStart(dyn, ldbase) == 0) != (Signed(Or(LastWith(dyn, DT_RELAENT), 0)) == 0) then LoadError else Success
  }

  method Relocate(mem: array<Byte>, ldbase: Word, dyn: array<Dyn>, ghost n: nat, form: Form) returns (status: Status)
    requires n < dyn.Length && dyn[n].tag == DT_NULL && forall k :: 0 <= k < n ==> dyn[k].tag != DT_NULL
    requires CanRelocate(mem[..], dyn[..n], form, ldbase)
    modifies mem
    ensures mem[..] == AfterRelocate(old(mem[..]), old(dyn[..n]), form, ldbase)
    ensures status == RelocateStatus(old(dyn[..n]), ldbase)
  {
    hide LastWith, Relocated, Table, AllInMemory, TableSafe, TableFits;
    var rel, relsz, relent := Scan(dyn, n, ldbase);
    if rel == 0 && relent == 0 {
      return Success;
    }
    if rel == 0 || relent == 0 {
      return LoadError;
    }
    ApplyTable(mem, rel, Signed(relsz), Signed(relent), form, ldbase);
    status := Success;
  }

  // ---------- what relocation means

  ghost predicate SameOrApart(a: nat, b: nat) {
    a == b || a + 8 <= b || b + 8 <= a
  }

  /** No entry applied overlaps the word at a in part. */
  ghost predicate NoneAcross(es: seq<Rela>, form: Form, ldbase: Word, a: nat) {
    forall k :: 0 <= k < |es| && es[k].Type() == form.relative ==> SameOrApart(es[k].Target(ldbase), a)
  }

  /** Applied entries write to words that are the same or do not overlap. */
  ghost predicate WholeWords(es: seq<Rela>, form: Form, ldbase: Word) {
    forall k :: 0 <= k < |es| && es[k].Type() == form.relative ==> NoneAcross(es, form, ldbase, es[k].Target(ldbase))
  }

  /** Applied entries write to different words. */
  ghost predicate Disjoint(es: seq<Rela>, form: Form, ldbase: Word) {
    forall j, k :: 0 <= j < k < |es| && es[j].Type() == form.relative && es[k].Type() == form.relative ==>
      es[j].Target(ldbase) != es[k].Target(ldbase) && SameOrApart(es[j].Target(ldbase), es[k].Target(ldbase))
  }

  /** The addends of the applied entries whose target is a, in the order of the table. */
  function Naming(es: seq<Rela>, form: Form, ldbase: Word, a: nat): (r: seq<Word>) {
    if es == [] then []
    else
      var e := es[|es| - 1];
      Naming(es[..|es| - 1], form, ldbase, a) + if e.Type() == form.relative && e.Target(ldbase) == a then [e.addend] else []
  }

  /** There is one for each such entry. */
  lemma {:induction false} NamingHolds(es: seq<Rela>, form: Form, ldbase: Word, k: nat)
    requires k < |es| && es[k].Type() == form.relative
    ensures es[k].addend in Naming(es, form, ldbase, es[k].Target(ldbase))
    decreases |es|
  {
    if k < |es| - 1 {
      NamingHolds(es[..|es| - 1], form, ldbase, k);
    }
  }

  lemma {:induction false} NoneNames(es: seq<Rela>, form: Form, ldbase: Word, a: nat)
    requires forall k :: 0 <= k < |es| && es[k].Type() == form.relative ==> es[k].Target(ldbase) != a
    ensures Naming(es, form, ldbase, a) == []
    decreases |es|
  {
    if es != [] {
      NoneNames(es[..|es| - 1], form, ldbase, a);
    }
  }

  lemma {:induction false} OneNames(es: seq<Rela>, form: Form, ldbase: Word, k: nat)
    requires k < |es| && es[k].Type() == form.relative
    requires forall j :: 0 <= j < |es| && j != k && es[j].Type() == form.relative ==> es[j].Target(ldbase) != es[k].Target(ldbase)
    ensures Naming(es, form, ldbase, es[k].Target(ldbase)) == [es[k].addend]
    decreases |es|
  {
    hide Rela.Type, Rela.Target, SameOrApart;
    if k < |es| - 1 {
      OneNames(es[..|es| - 1], form, ldbase, k);
    } else {
      NoneNames(es[..|es| - 1], form, ldbase, es[k].Target(ldbase));
    }
  }

  lemma DisjointWhole(es: seq<Rela>, form: Form, ldbase: Word)
    requires Disjoint(es, form, ldbase)
    ensures WholeWords(es, form, ldbase)
  {
    hide Rela.Type, Rela.Target;
    forall k, j | 0 <= k < |es| && es[k].Type() == form.relative && 0 <= j < |es| && es[j].Type() == form.relative
      ensures SameOrApart(es[j].Target(ldbase), es[k].Target(ldbase))
    {
      if j < k || k < j {
        assert SameOrApart(es[k].Target(ldbase), es[j].Target(ldbase)) || SameOrApart(es[j].Target(ldbase), es[k].Target(ldbase));
      }
    }
  }

  /** A word after the entries that name it: the implicit form adds the load base for each, the explicit form keeps the last. */
  function Total(was: Word, naming: seq<Word>, form: Form, ldbase: Word): Word {
    if naming == [] then was
    else if form.Implicit? then Sum(was, |naming|, ldbase)
    else (naming[|naming| - 1] + ldbase) % TWO64
  }

  function Sum(was: Word, n: nat, ldbase: Word): Word {
    (was + n * ldbase) % TWO64
  }

  lemma SumMore(was: Word, n: nat, ldbase: Word)
    ensures Sum(was, 0, ldbase) == was
    ensures (Sum(was, n, ldbase) + ldbase) % TWO64 == Sum(was, n + 1, ldbase)
  {
    assert (n + 1) * ldbase == n * ldbase + ldbase;
    Arithmetic.WrapAdd(ldbase, was + n * ldbase, TWO64);
  }

  /** What an entry leaves at its target. */
  function Expected(m: seq<Byte>, e: Rela, form: Form, ldbase: Word): Word
    requires e.Type() == form.relative && InMemory(e, form, ldbase, |m|)
  {
    ((if form.Implicit? then Load64(m, e.Target(ldbase)) else e.addend) + ldbase) % TWO64
  }

  /** Every word that is not overlapped in part gets the load base once for each entry that names it, or the last addend. */
  lemma {:induction false} RelocatedWord(m: seq<Byte>, es: seq<Rela>, form: Form, ldbase: Word, a: nat)
    requires AllInMemory(es, form, ldbase, |m|) && NoneAcross(es, form, ldbase, a) && a + 8 <= |m|
    ensures Load64(Relocated(m, es, form, ldbase), a) == Total(Load64(m, a), Naming(es, form, ldbase, a), form, ldbase)
    decreases |es|
  {
    hide Load64, Store64, Rela.Type, Rela.Target, Sum;
    if es != [] {
      var e, front := es[|es| - 1], es[..|es| - 1];
      RelocatedWord(m, front, form, ldbase, a);
      SumMore(Load64(m, a), |Naming(front, form, ldbase, a)|, ldbase);
      assert InMemory(e, form, ldbase, |m|);
      if e.Type() == form.relative {
        var was := Relocated(m, front, form, ldbase);
        assert SameOrApart(e.Target(ldbase), a);
        if e.Target(ldbase) == a {
          LoadStored(was, a, Expected(was, e, form, ldbase));
        } else {
          LoadElsewhere(was, e.Target(ldbase), Expected(was, e, form, ldbase), a);
        }
      }
    }
  }

  /** Each target of a relative entry gets the load base exactly once; UntouchedStays says that nothing else changes. */
  lemma RelocatedOnce(m: seq<Byte>, es: seq<Rela>, form: Form, ldbase: Word, k: nat)
    requires AllInMemory(es, form, ldbase, |m|) && Disjoint(es, form, ldbase)
    requires k < |es| && es[k].Type() == form.relative
    ensures InMemory(es[k], form, ldbase, |m|)
    ensures Load64(Relocated(m, es, form, ldbase), es[k].Target(ldbase)) == Expected(m, es[k], form, ldbase)
  {
    hide Load64, Relocated, Rela.Type, Rela.Target, NoneAcross, Naming;
    assert InMemory(es[k], form, ldbase, |m|);
    DisjointWhole(es, form, ldbase);
    OneNames(es, form, ldbase, k);
    RelocatedWord(m, es, form, ldbase, es[k].Target(ldbase));
  }

  /** The last addend that a relative target is given is what it holds with all load bases but the last. */
  ghost predicate HoldsAddends(m: seq<Byte>, es: seq<Rela>, form: Form, ldbase: Word)
    requires AllInMemory(es, form, ldbase, |m|)
  {
    forall k :: 0 <= k < |es| && es[k].Type() == form.relative ==>
      InMemory(es[k], form, ldbase, |m|) && HoldsAddend(Load64(m, es[k].Target(ldbase)), Naming(es, form, ldbase, es[k].Target(ldbase)), ldbase)
  }

  ghost predicate HoldsAddend(was: Word, naming: seq<Word>, ldbase: Word) {
    naming != [] ==> Sum(was, |naming| - 1, ldbase) == naming[|naming| - 1]
  }

  /** A target that is named once must hold its addend. */
  lemma HoldsAddendOnce(m: seq<Byte>, es: seq<Rela>, form: Form, ldbase: Word)
    requires AllInMemory(es, form, ldbase, |m|) && Disjoint(es, form, ldbase)
    ensures HoldsAddends(m, es, form, ldbase)
       <==> forall k :: 0 <= k < |es| && es[k].Type() == form.relative ==>
              InMemory(es[k], form, ldbase, |m|) && Load64(m, es[k].Target(ldbase)) == es[k].addend
  {
    hide Load64, Rela.Type, Rela.Target, Naming;
    forall k | 0 <= k < |es| && es[k].Type() == form.relative
      ensures InMemory(es[k], form, ldbase, |m|)
      ensures HoldsAddend(Load64(m, es[k].Target(ldbase)), Naming(es, form, ldbase, es[k].Target(ldbase)), ldbase)
         <==> Load64(m, es[k].Target(ldbase)) == es[k].addend
    {
      assert InMemory(es[k], form, ldbase, |m|);
      OneNames(es, form, ldbase, k);
      SumMore(Load64(m, es[k].Target(ldbase)), 0, ldbase);
    }
  }

  /** The two totals of a word that is named are equal exactly when it holds what it must. */
  lemma TotalsAgreeIff(was: Word, naming: seq<Word>, relative: nat, ldbase: Word)
    ensures Total(was, naming, Implicit(relative), ldbase) == Total(was, naming, Explicit(relative), ldbase)
       <==> HoldsAddend(was, naming, ldbase)
  {
    hide Sum;
    if naming != [] {
      var n := |naming| - 1;
      SumMore(was, n, ldbase);
      SumsAgreeIff(Sum(was, n, ldbase), naming[n], ldbase);
    }
  }

  lemma SumsAgreeIff(a: Word, b: Word, c: Word)
    ensures (a + c) % TWO64 == (b + c) % TWO64 <==> a == b
  {
  }

  /**
   On one table whose targets do not overlap in part, adding to what is there and storing base plus addend come to the
   same exactly when the addends are there to begin with.
   */
  lemma FormsAgreeIff(m: seq<Byte>, es: seq<Rela>, relative: nat, ldbase: Word)
    requires AllInMemory(es, Implicit(relative), ldbase, |m|) && WholeWords(es, Implicit(relative), ldbase)
    ensures AllInMemory(es, Explicit(relative), ldbase, |m|)
    ensures Relocated(m, es, Implicit(relative), ldbase) == Relocated(m, es, Explicit(relative), ldbase)
       <==> HoldsAddends(m, es, Implicit(relative), ldbase)
  {
    hide Relocated, Load64, HoldsAddend, WholeWords, AllInMemory, InMemory, Rela.Type, Rela.Target;
    SameForms(es, relative, ldbase, |m|);
    var r, s := Relocated(m, es, Implicit(relative), ldbase), Relocated(m, es, Explicit(relative), ldbase);
    forall k | 0 <= k < |es| && es[k].Type() == relative
      ensures InMemory(es[k], Implicit(relative), ldbase, |m|) && es[k].Target(ldbase) + 8 <= |m|
      ensures Load64(r, es[k].Target(ldbase)) == Load64(s, es[k].Target(ldbase))
         <==> HoldsAddend(Load64(m, es[k].Target(ldbase)), Naming(es, Implicit(relative), ldbase, es[k].Target(ldbase)), ldbase)
    {
      WordsAgreeIff(m, es, relative, ldbase, k);
    }
    if HoldsAddends(m, es, Implicit(relative), ldbase) {
      forall b | 0 <= b < |m|
        ensures r[b] == s[b]
      {
        AgreeAt(m, es, relative, ldbase, b);
      }
      assert r == s;
    }
  }

  lemma WordsAgreeIff(m: seq<Byte>, es: seq<Rela>, relative: nat, ldbase: Word, k: nat)
    requires AllInMemory(es, Implicit(relative), ldbase, |m|) && WholeWords(es, Implicit(relative), ldbase)
    requires AllInMemory(es, Explicit(relative), ldbase, |m|)
    requires k < |es| && es[k].Type() == relative
    ensures InMemory(es[k], Implicit(relative), ldbase, |m|) && es[k].Target(ldbase) + 8 <= |m|
    ensures Load64(Relocated(m, es, Implicit(relative), ldbase), es[k].Target(ldbase))
         == Load64(Relocated(m, es, Explicit(relative), ldbase), es[k].Target(ldbase))
       <==> HoldsAddend(Load64(m, es[k].Target(ldbase)), Naming(es, Implicit(relative), ldbase, es[k].Target(ldbase)), ldbase)
  {
    hide Relocated, Load64, Total, HoldsAddend, Naming, Rela.Type, Rela.Target, SameOrApart;
    assert InMemory(es[k], Implicit(relative), ldbase, |m|);
    var a := es[k].Target(ldbase);
    assert NoneAcross(es, Implicit(relative), ldbase, a);
    RelocatedWord(m, es, Implicit(relative), ldbase, a);
    RelocatedWord(m, es, Explicit(relative), ldbase, a);
    SameNaming(es, relative, ldbase, a);
    TotalsAgreeIff(Load64(m, a), Naming(es, Implicit(relative), ldbase, a), relative, ldbase);
  }

  lemma {:induction false} SameNaming(es: seq<Rela>, relative: nat, ldbase: Word, a: nat)
    ensures Naming(es, Implicit(relative), ldbase, a) == Naming(es, Explicit(relative), ldbase, a)
    decreases |es|
  {
    if es != [] {
      SameNaming(es[..|es| - 1], relative, ldbase, a);
    }
  }

  /** The form of the table does not matter to its targets. */
  lemma SameForms(es: seq<Rela>, relative: nat, ldbase: Word, size: nat)
    ensures AllInMemory(es, Implicit(relative), ldbase, size) <==> AllInMemory(es, Explicit(relative), ldbase, size)
  {
    hide Rela.Type, Rela.Target;
    assert forall k :: 0 <= k < |es| ==> (InMemory(es[k], Implicit(relative), ldbase, size) <==> InMemory(es[k], Explicit(relative), ldbase, size));
  }

  lemma AgreeAt(m: seq<Byte>, es: seq<Rela>, relative: nat, ldbase: Word, b: nat)
    requires AllInMemory(es, Implicit(relative), ldbase, |m|) && WholeWords(es, Implicit(relative), ldbase)
    requires AllInMemory(es, Explicit(relative), ldbase, |m|)
    requires HoldsAddends(m, es, Implicit(relative), ldbase) && b < |m|
    ensures Relocated(m, es, Implicit(relative), ldbase)[b] == Relocated(m, es, Explicit(relative), ldbase)[b]
  {
    hide Relocated, Load64, WholeWords, HoldsAddend, AllInMemory, Rela.Type, Rela.Target;
    var i, x := Implicit(relative), Explicit(relative);
    if k :| 0 <= k < |es| && es[k].Type() == relative && es[k].Target(ldbase) <= b < es[k].Target(ldbase) + 8 {
      WordsAgreeIff(m, es, relative, ldbase, k);
      SameWord(Relocated(m, es, i, ldbase), Relocated(m, es, x, ldbase), es[k].Target(ldbase), b);
    } else {
      UntouchedStays(m, es, i, ldbase, b);
      UntouchedStays(m, es, x, ldbase, b);
    }
  }

  /** The implicit form does not look at addends, so entries read without them relocate alike. */
  lemma {:induction false} AddendUnused(m: seq<Byte>, es: seq<Rela>, es': seq<Rela>, relative: nat, ldbase: Word)
    requires |es| == |es'| && forall k :: 0 <= k < |es| ==> es'[k] == es[k].(addend := es'[k].addend)
    requires AllInMemory(es, Implicit(relative), ldbase, |m|)
    ensures AllInMemory(es', Implicit(relative), ldbase, |m|)
    ensures Relocated(m, es', Implicit(relative), ldbase) == Relocated(m, es, Implicit(relative), ldbase)
    decreases |es|
  {
    hide Load64, Store64;
    assert forall k :: 0 <= k < |es| ==> InMemory(es[k], Implicit(relative), ldbase, |m|);
    if es != [] {
      AddendUnused(m, es[..|es| - 1], es'[..|es| - 1], relative, ldbase);
      var n := |es| - 1;
      assert es'[n] == es[n].(addend := es'[n].addend);
    }
  }

  // ---------- the same in the words of the file

  /** The last entry with the tag gives v. */
  ghost predicate Gives(dyn: seq<Dyn>, tag: nat, v: Word) {
    exists k :: 0 <= k < |dyn| && dyn[k] == Dyn(tag, v) && forall j :: k < j < |dyn| ==> dyn[j].tag != tag
  }

  ghost predicate Silent(dyn: seq<Dyn>, tag: nat) {
    forall k :: 0 <= k < |dyn| ==> dyn[k].tag != tag
  }

  lemma GivesLast(dyn: seq<Dyn>, tag: nat, v: Word)
    requires Gives(dyn, tag, v)
    ensures LastWith(dyn, tag) == [v]
  {
    LastWithIs(dyn, tag);
  }

  lemma SilentLast(dyn: seq<Dyn>, tag: nat)
    requires Silent(dyn, tag)
    ensures LastWith(dyn, tag) == []
  {
    LastWithIs(dyn, tag);
  }

  /** Before entry k, some of the table's bytes are still to come. */
  ghost predicate Reached(size: nat, step: nat, k: nat) {
    k * step < size
  }

  ghost predicate BytesThere(length: nat, rel: nat, size: nat, step: nat, width: nat) {
    forall k: nat :: Reached(size, step, k) ==> rel + k * step + width <= length
  }

  /** Entry k of the table at rel is of the type and names the word at x. */
  ghost predicate Names(m: seq<Byte>, rel: nat, size: nat, step: nat, relative: nat, ldbase: Word, k: nat, x: nat)
    requires BytesThere(|m|, rel, size, step, 16)
  {
    && Reached(size, step, k)
    && Load64(m, rel + k * step + 8) % 0x1_0000_0000 == relative
    && x == (ldbase + Load64(m, rel + k * step)) % 0x1_0000_0000_0000_0000
  }

  /** What the dynamic section says: a table of size bytes that starts at rel, its entries step apart. */
  ghost predicate Describes(dyn: seq<Dyn>, ldbase: Word, rel: nat, size: nat, step: nat) {
    && 0 < size < 0x8000_0000_0000_0000 && 0 < step < 0x8000_0000_0000_0000 && rel > 0
    && Gives(dyn, 8, size) && Gives(dyn, 9, step)
    && exists v: Word :: Gives(dyn, 7, v) && rel == (v + ldbase) % 0x1_0000_0000_0000_0000
  }

  /** The numbers that the scan finds. */
  lemma DescribedTable(m: seq<Byte>, dyn: seq<Dyn>, form: Form, ldbase: Word, rel: nat, size: nat, step: nat)
    requires Describes(dyn, ldbase, rel, size, step) && CanRelocate(m, dyn, form, ldbase)
    ensures Ready(m, rel, step, size, form, ldbase)
    ensures AfterRelocate(m, dyn, form, ldbase) == Relocated(m, Table(m, rel, step, Count(size, step), form), form, ldbase)
    ensures RelocateStatus(dyn, ldbase) == Success
    ensures BytesThere(|m|, rel, size, step, EntrySize(form))
  {
    hide LastWith, Relocated, Table, AllInMemory, TableSafe, Count, Gives;
    var v: Word :| Gives(dyn, 7, v) && rel == (v + ldbase) % 0x1_0000_0000_0000_0000;
    GivesLast(dyn, 7, v);
    GivesLast(dyn, 8, size);
    GivesLast(dyn, 9, step);
    forall k: nat | Reached(size, step, k)
      ensures rel + k * step + EntrySize(form) <= |m|
    {
      CountIs(size, step, k);
      assert At(rel, step, k) + EntrySize(form) <= |m|;
    }
  }

  /** Entry k as the words of the file give it. */
  lemma NamesEntry(m: seq<Byte>, rel: nat, size: nat, step: nat, form: Form, ldbase: Word, k: nat, x: nat)
    requires step > 0 && BytesThere(|m|, rel, size, step, EntrySize(form)) && BytesThere(|m|, rel, size, step, 16)
    requires TableFits(|m|, rel, step, Count(size, step), form)
    ensures Names(m, rel, size, step, form.relative, ldbase, k, x) ==>
              var es := Table(m, rel, step, Count(size, step), form);
              k < |es| && es[k].Type() == form.relative && es[k].Target(ldbase) == x
              && (form.Explicit? ==> es[k].addend == Load64(m, rel + k * step + 16))
    ensures var es := Table(m, rel, step, Count(size, step), form);
            k < |es| && es[k].Type() == form.relative && es[k].Target(ldbase) == x ==> Names(m, rel, size, step, form.relative, ldbase, k, x)
  {
    hide Count, Load64;
    CountIs(size, step, k);
    if k < Count(size, step) {
      assert Table(m, rel, step, Count(size, step), form)[k] == EntryAt(m, At(rel, step, k), form);
    }
  }

  /** No other entry of the table names a word that overlaps the one at x. */
  ghost predicate NamedOnce(m: seq<Byte>, rel: nat, size: nat, step: nat, relative: nat, ldbase: Word, k: nat, x: nat)
    requires BytesThere(|m|, rel, size, step, 16)
  {
    forall j: nat, y: nat :: j != k && Names(m, rel, size, step, relative, ldbase, j, y) ==> y + 8 <= x || x + 8 <= y
  }

  lemma FileBytes(m: seq<Byte>, dyn: seq<Dyn>, form: Form, ldbase: Word, rel: nat, size: nat, step: nat)
    requires Describes(dyn, ldbase, rel, size, step) && CanRelocate(m, dyn, form, ldbase)
    ensures BytesThere(|m|, rel, size, step, 16)
    ensures BytesThere(|m|, rel, size, step, EntrySize(form))
  {
    DescribedTable(m, dyn, form, ldbase, rel, size, step);
  }

  /**
   The relocated image, from the bytes of the file: the word that an entry of the relative type names gets the load base,
   on top of what it held or of the entry's third word. The numbers are those of the two machines' tables.
   */
  lemma NamedWordRelocated(m: seq<Byte>, dyn: seq<Dyn>, form: Form, ldbase: Word, rel: nat, size: nat, step: nat, k: nat, x: nat)
    requires form == Implicit(8) || form == Explicit(1027)
    requires Describes(dyn, ldbase, rel, size, step) && CanRelocate(m, dyn, form, ldbase)
    requires BytesThere(|m|, rel, size, step, 16) && BytesThere(|m|, rel, size, step, EntrySize(form))
    requires Names(m, rel, size, step, form.relative, ldbase, k, x) && NamedOnce(m, rel, size, step, form.relative, ldbase, k, x)
    ensures x + 8 <= |m|
    ensures Load64(AfterRelocate(m, dyn, form, ldbase), x)
         == ((if form.Implicit? then Load64(m, x) else Load64(m, rel + k * step + 16)) + ldbase) % 0x1_0000_0000_0000_0000
  {
    hide Load64, Relocated, Table, Describes, CanRelocate, AfterRelocate, Names, Count, Rela.Type, Rela.Target, Naming, BytesThere, TableFits;
    DescribedTable(m, dyn, form, ldbase, rel, size, step);
    var es := Table(m, rel, step, Count(size, step), form);
    NamesEntry(m, rel, size, step, form, ldbase, k, x);
    assert InMemory(es[k], form, ldbase, |m|);
    forall j | 0 <= j < |es| && j != k && es[j].Type() == form.relative
      ensures es[j].Target(ldbase) + 8 <= x || x + 8 <= es[j].Target(ldbase)
    {
      NamesEntry(m, rel, size, step, form, ldbase, j, es[j].Target(ldbase));
    }
    OneNames(es, form, ldbase, k);
    RelocatedWord(m, es, form, ldbase, x);
    SumMore(Load64(m, x), 0, ldbase);
  }

  /** A byte outside every word that an entry of the relative type names stays. */
  lemma OtherBytesStay(m: seq<Byte>, dyn: seq<Dyn>, form: Form, ldbase: Word, rel: nat, size: nat, step: nat, b: nat)
    requires form == Implicit(8) || form == Explicit(1027)
    requires Describes(dyn, ldbase, rel, size, step) && CanRelocate(m, dyn, form, ldbase)
    requires BytesThere(|m|, rel, size, step, 16) && b < |m|
    requires forall k: nat, x: nat :: Names(m, rel, size, step, form.relative, ldbase, k, x) ==> !(x <= b < x + 8)
    ensures AfterRelocate(m, dyn, form, ldbase)[b] == m[b]
  {
    hide Load64, Relocated, Table, Describes, CanRelocate, AfterRelocate, Names, Count, Rela.Type, Rela.Target, BytesThere, TableFits;
    DescribedTable(m, dyn, form, ldbase, rel, size, step);
    var es := Table(m, rel, step, Count(size, step), form);
    forall k | 0 <= k < |es| && es[k].Type() == form.relative
      ensures !(es[k].Target(ldbase) <= b < es[k].Target(ldbase) + 8)
    {
      NamesEntry(m, rel, size, step, form, ldbase, k, es[k].Target(ldbase));
    }
    UntouchedStays(m, es, form, ldbase, b);
  }

  /** Without a table nothing changes: neither tag is there, or just one of them and the call fails. */
  lemma NoTable(m: seq<Byte>, dyn: seq<Dyn>, form: Form, ldbase: Word)
    requires CanRelocate(m, dyn, form, ldbase) && (Silent(dyn, 7) || Silent(dyn, 9))
    ensures AfterRelocate(m, dyn, form, ldbase) == m
    ensures Silent(dyn, 7) && Silent(dyn, 9) ==> RelocateStatus(dyn, ldbase) == Success
    ensures forall step: Word :: Silent(dyn, 7) && Gives(dyn, 9, step) && step != 0 ==> RelocateStatus(dyn, ldbase) == LoadError
    ensures forall v: Word :: Silent(dyn, 9) && Gives(dyn, 7, v) && (v + ldbase) % 0x1_0000_0000_0000_0000 != 0 ==>
              RelocateStatus(dyn, ldbase) == LoadError
  {
    hide LastWith, Gives;
    if Silent(dyn, 7) {
      SilentLast(dyn, 7);
    }
    if Silent(dyn, 9) {
      SilentLast(dyn, 9);
    }
    forall tag: nat, v: Word | Gives(dyn, tag, v)
      ensures LastWith(dyn, tag) == [v]
    {
      GivesLast(dyn, tag, v);
    }
  }

  // ---------- the two variants

  /** The same table for either machine: offsets and addends agree, and the relative entries are the same ones. */
  ghost predicate Retyped(es: seq<Rela>, es': seq<Rela>) {
    && |es| == |es'|
    && forall k :: 0 <= k < |es| ==>
         && es[k].offset == es'[k].offset && es[k].addend == es'[k].addend
         && (es[k].Type() == R_X86_64_RELATIVE <==> es'[k].Type() == R_AARCH64_RELATIVE)
  }

  lemma {:induction false} RetypedAlike(m: seq<Byte>, es: seq<Rela>, es': seq<Rela>, ldbase: Word)
    requires Retyped(es, es') && AllInMemory(es, Explicit(R_X86_64_RELATIVE), ldbase, |m|)
    ensures AllInMemory(es', AARCH64, ldbase, |m|)
    ensures Relocated(m, es', AARCH64, ldbase) == Relocated(m, es, Explicit(R_X86_64_RELATIVE), ldbase)
    decreases |es|
  {
    hide Load64, Store64, Rela.Type;
    assert forall k :: 0 <= k < |es| ==> InMemory(es[k], Explicit(R_X86_64_RELATIVE), ldbase, |m|);
    if es != [] {
      var n := |es| - 1;
      RetypedAlike(m, es[..n], es'[..n], ldbase);
      assert es[n].offset == es'[n].offset;
    }
  }

  /** The x86-64 loop and the AArch64 loop leave the same memory exactly when the relative targets held their addends. */
  lemma VariantsAgreeIff(m: seq<Byte>, es: seq<Rela>, es': seq<Rela>, ldbase: Word)
    requires Retyped(es, es') && AllInMemory(es, X86_64, ldbase, |m|) && WholeWords(es, X86_64, ldbase)
    ensures AllInMemory(es', AARCH64, ldbase, |m|)
    ensures Relocated(m, es, X86_64, ldbase) == Relocated(m, es', AARCH64, ldbase)
       <==> HoldsAddends(m, es, X86_64, ldbase)
  {
    hide Relocated, HoldsAddends, WholeWords, AllInMemory, Retyped;
    FormsAgreeIff(m, es, R_X86_64_RELATIVE, ldbase);
    RetypedAlike(m, es, es', ldbase);
  }
}
