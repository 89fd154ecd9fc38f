/** A run that wraps a reference count and reads the wrong page, under either release rule
    and however large the table is: 2^32 - 1 copies of one page and a rewrite of the first. */
module CountTrace {
  import opened Fingerprints
  import opened BloomFilters
  import opened Dedup
  import opened Backend
  import opened Engines
  import opened EngineSteps
  import opened Refinement
  import opened Exactness

  const FULL: nat := TWO_32 - 1

  datatype Copies = Copies(h: Hash, initial: seq<Page>, maxEntries: nat, bloomCapacity: nat, page: Page, other: Page)
  {
    predicate Apt() {
      |initial| >= 1 && maxEntries >= 1
    }

    function Fresh(): Engine {
      NewEngine(initial, maxEntries, bloomCapacity)
    }

    /** The page at the first `n` page offsets. */
    function Fill(n: nat): seq<Op> {
      if n == 0 then [SetPassthrough(false)] else Fill(n - 1) + [Write(4096 * (n - 1), page)]
    }

    /** Then the first copy is rewritten, and another page written elsewhere. */
    function Tail(): seq<Op> {
      [SetPassthrough(true), Write(4096 * FULL, other)]
    }

    function Trace(): seq<Op> {
      Fill(FULL) + [Write(0, page)] + Tail()
    }

    /** `n` offsets share slot 0, and it is the only slot handed out. */
    ghost predicate Holding(e: Engine, n: nat) {
      && e.table.Wf() && !e.passthrough
      && |e.store| == |initial| && e.alloc == Allocator([], 1, |initial|) && |e.store| >= 1 && e.store[0] == page
      && e.table.entries.Keys == {h(page)} && n < TWO_32
      && e.table.entries[h(page)] == DedupEntry(n, 0, PagePrefix(page))
      && 0 in e.translation
      && forall u :: u in e.translation ==> u < 4096 * n && e.translation[u] == DedupTo(h(page), 0)
    }
  }

  lemma FirstTracked(t: Table, fp: Fingerprint, page: Page)
    requires t.Wf() && t.entries == map[] && t.maxEntries >= 1
    ensures var (l, r) := t.Lookup(fp, page);
            var (u, ok) := l.Insert(fp, page, 0);
            r == Miss && ok && u.Wf() && u.entries == map[fp := DedupEntry(1, 0, PagePrefix(page))]
  {
    hide PagePrefix;
    LookupIgnoresFilter(t, fp, page);
    InsertKeepsWf(t.Lookup(fp, page).0, fp, page, 0);
  }

  lemma FirstUnique(s: Copies, e: Engine, mode: ReleaseMode)
    requires e.table.Wf() && e.table.entries == map[] && e.table.maxEntries >= 1 && !e.passthrough && |s.initial| >= 1
    requires e.translation == map[] && e.alloc == Allocator([], 0, |s.initial|) && |e.store| == |s.initial|
    ensures s.Holding(e.WriteDedup(0, s.h(s.page), s.page, mode).0, 1)
  {
    hide PagePrefix, Table.Wf, Table.Lookup, Table.Insert;
    FirstTracked(e.table, s.h(s.page), s.page);
  }

  lemma FirstCopy(s: Copies, e: Engine, mode: ReleaseMode)
    requires s.Apt() && e == s.Fresh().(passthrough := false)
    ensures s.Holding(Step(s.h, e, Write(0, s.page), mode).0, 1)
  {
    hide Copies.Holding, NormalizePage, Engine.WriteDedup;
    NormalizePageIdentity(s.page);
    FirstUnique(s, e.(stats := e.stats.(totalWrites := e.stats.totalWrites + 1)), mode);
  }

  lemma StoredPage(s: Copies, e: Engine, n: nat)
    requires s.Holding(e, n)
    ensures AlreadyStored(e, s.h(s.page), s.page)
    ensures e.table.Lookup(s.h(s.page), s.page).1 == Duplicate(0) && e.table.Lookup(s.h(s.page), s.page).0.Wf()
  {
    LookupIgnoresFilter(e.table, s.h(s.page), s.page);
    PrefixGuard(s.page, s.page);
  }

  lemma NextCopy(s: Copies, e: Engine, n: nat, mode: ReleaseMode)
    requires s.Holding(e, n) && n + 1 < TWO_32
    ensures s.Holding(Step(s.h, e, Write(4096 * n, s.page), mode).0, n + 1)
  {
    hide PagePrefix, NormalizePage, Table.Wf, Table.Lookup;
    NormalizePageIdentity(s.page);
    StoredPage(s, e, n);
    LookupKeepsEntries(e.table, s.h(s.page), s.page);
    AddReferenceKeepsWf(e.table.Lookup(s.h(s.page), s.page).0, s.h(s.page));
    assert 4096 * n !in e.translation;
  }

  lemma {:induction false} FilledUp(s: Copies, n: nat, mode: ReleaseMode)
    requires s.Apt() && 1 <= n < TWO_32
    ensures s.Holding(Run(s.h, s.Fresh(), s.Fill(n), mode), n)
  {
    hide Step, Copies.Holding, Copies.Fresh;
    var ops := s.Fill(n);
    assert ops[..|ops| - 1] == s.Fill(n - 1) && ops[|ops| - 1] == Write(4096 * (n - 1), s.page);
    var before := Run(s.h, s.Fresh(), s.Fill(n - 1), mode);
    if n == 1 {
      assert s.Fill(0)[..0] == [];
      assert before == s.Fresh().(passthrough := false) by { ToggledOff(s, mode); }
      FirstCopy(s, before, mode);
    } else {
      FilledUp(s, n - 1, mode);
      NextCopy(s, before, n - 1, mode);
    }
  }

  lemma ToggledOff(s: Copies, mode: ReleaseMode)
    ensures Run(s.h, s.Fresh(), s.Fill(0), mode) == s.Fresh().(passthrough := false)
  {
    assert s.Fill(0)[..0] == [];
  }

  /** The rewrite wraps the count to zero, so the release that follows frees the shared slot. */
  lemma RewriteFrees(s: Copies, e: Engine, mode: ReleaseMode)
    requires s.Holding(e, FULL)
    ensures WrapsCount(s.h, e, Write(0, s.page))
    ensures var (f, outcome) := Step(s.h, e, Write(0, s.page), mode);
            && outcome == Wrote(true) && f.alloc.free == [0] && f.store == e.store
            && f.translation == e.translation && |f.store| == f.alloc.max
  {
    hide PagePrefix, NormalizePage, Table.Wf, Table.Lookup;
    NormalizePageIdentity(s.page);
    StoredPage(s, e, FULL);
    LookupKeepsEntries(e.table, s.h(s.page), s.page);
    assert e.translation[0 := DedupTo(s.h(s.page), 0)] == e.translation;
  }

  /** The next fresh slot is the one that all copies still map. */
  lemma OverwritesCopies(s: Copies, e: Engine, mode: ReleaseMode)
    requires e.alloc.free == [0] && |e.store| == e.alloc.max >= 1
    requires 0 in e.translation && e.translation[0].slot == 0 && 4096 * FULL !in e.translation
    ensures Run(s.h, e, s.Tail(), mode).Peek(0) == Some(s.other)
  {
    hide NormalizePage;
    NormalizePageIdentity(s.other);
    var t := s.Tail();
    assert t[..1][..0] == [] && t[..1] == [SetPassthrough(true)];
    assert Run(s.h, e, t[..1], mode) == e.(passthrough := true);
  }

  /** A page written 2^32 - 1 times and rewritten once is lost at every offset: the first
      one, for instance, reads a page that was only ever written elsewhere. */
  lemma WrapLosesPage(s: Copies, mode: ReleaseMode)
    requires s.Apt()
    ensures WrapsCount(s.h, Run(s.h, s.Fresh(), s.Fill(FULL), mode), Write(0, s.page))
    ensures Run(s.h, s.Fresh(), s.Trace(), mode).Peek(0) == Some(s.other)
    ensures Expected(s.Trace(), Outcomes(s.h, s.Fresh(), s.Trace(), mode), 0) == s.page
  {
    hide Step, Run, Outcomes, Copies.Fill, Copies.Tail, WrapsCount;
    var ops, op := s.Fill(FULL), Write(0, s.page);
    var e := Run(s.h, s.Fresh(), ops, mode);
    FilledUp(s, FULL, mode);
    RewriteFrees(s, e, mode);
    var f := Step(s.h, e, op, mode).0;
    OneMore(s, ops, op, mode);
    OverwritesCopies(s, f, mode);
    RunAppend(s.h, s.Fresh(), ops + [op], s.Tail(), mode);
    LastWriteStands(s, ops, op, s.Tail(), mode);
  }

  lemma OneMore(s: Copies, ops: seq<Op>, op: Op, mode: ReleaseMode)
    ensures Run(s.h, s.Fresh(), ops + [op], mode) == Step(s.h, Run(s.h, s.Fresh(), ops, mode), op, mode).0
  {
    hide Step;
    assert (ops + [op])[..|ops|] == ops;
  }

  lemma LastWriteStands(s: Copies, ops: seq<Op>, op: Op, tail: seq<Op>, mode: ReleaseMode)
    requires op == Write(0, s.page) && tail == s.Tail()
    requires Step(s.h, Run(s.h, s.Fresh(), ops, mode), op, mode).1 == Wrote(true)
    ensures var all := ops + [op] + tail; Expected(all, Outcomes(s.h, s.Fresh(), all, mode), 0) == s.page
  {
    hide Step, Run, Outcomes, NormalizePage;
    NormalizePageIdentity(s.page);
    var all := ops + [op] + tail;
    var outs := Outcomes(s.h, s.Fresh(), all, mode);
    assert Untouched(tail, 0);
    ExpectedUntouched(ops + [op], tail, outs, 0);
    OutcomeAt(s.h, s.Fresh(), all, |ops|, mode);
    assert all[..|ops|] == ops && all[|ops|] == op;
    assert (ops + [op])[..|ops|] == ops;
  }
}
