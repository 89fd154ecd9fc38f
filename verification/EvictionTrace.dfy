/** A run that reads the wrong page, for every hash that tells its three pages apart and
    every store of at least three slots: one table entry suffices. */
module EvictionTrace {
  import opened Fingerprints
  import opened BloomFilters
  import opened Dedup
  import opened Backend
  import opened Engines
  import opened EngineSteps
  import opened Refinement

  /** The hash, the store and its filter, and three pages with three fingerprints. */
  datatype Setup = Setup(h: Hash, initial: seq<Page>, bloomCapacity: nat, a: Page, b: Page, c: Page)
  {
    predicate Apt() {
      |initial| >= 3 && h(a) != h(b) && h(a) != h(c) && h(b) != h(c)
    }

    function Fresh(): Engine {
      NewEngine(initial, 1, bloomCapacity)
    }

    function Trace(): seq<Op> {
      [SetPassthrough(false), Write(0, a), Write(4096, b), Write(8192, a), Discard(0), Write(12288, c)]
    }

    function After(n: nat): Engine
      requires n <= 6
    {
      if n == 0 then Fresh() else Step(h, After(n - 1), Trace()[n - 1], AsWritten).0
    }
  }

  /** What the trace needs to know of a reached state. */
  ghost predicate At(slots: nat, e: Engine, tracked: map<Fingerprint, nat>, tr: Translations, free: seq<nat>, next: nat)
  {
    && e.table.Wf() && e.table.maxEntries == 1 && !e.passthrough
    && e.table.entries.Keys == tracked.Keys
    && (forall fp :: fp in tracked ==> e.table.entries[fp].slot == tracked[fp] && e.table.entries[fp].refCount == 1)
    && e.translation == tr && e.alloc == Allocator(free, next, slots) && |e.store| == slots
  }

  /** Every full table of the trace holds one entry with one reference, so it has room. */
  lemma RoomAt(slots: nat, e: Engine, tracked: map<Fingerprint, nat>, tr: Translations, free: seq<nat>, next: nat)
    requires At(slots, e, tracked, tr, free, next)
    ensures e.table.MakeRoom().1 && e.table.MakeRoom().0.entries == map[]
  {
    var t := e.table;
    EvictPicksOldest(t);
    EvictKeepsWf(t);
    if t.entries != map[] {
      var fp :| fp in t.entries;
      var (u, ok) := t.Evict();
      assert Evictable(t.entries, fp);
      assert |u.entries| == 0;
    }
  }

  /** Tracking a new page in the trace replaces the one entry there may be. */
  lemma InsertAt(slots: nat, e: Engine, fp: Fingerprint, page: Page, slot: nat,
                 tracked: map<Fingerprint, nat>, tr: Translations, free: seq<nat>, next: nat)
    requires At(slots, e, tracked, tr, free, next) && fp !in tracked
    ensures var (t, ok) := e.table.Insert(fp, page, slot);
            && ok && t.Wf() && t.maxEntries == 1
            && t.entries == map[fp := DedupEntry(1, slot, PagePrefix(page))]
  {
    hide Table.Wf;
    RoomAt(slots, e, tracked, tr, free, next);
    InsertKeepsWf(e.table, fp, page, slot);
    MakeRoomKeepsLimit(e.table);
  }

  lemma MakeRoomKeepsLimit(t: Table)
    ensures t.MakeRoom().0.maxEntries == t.maxEntries
  {
  }

  lemma MissAt(slots: nat, e: Engine, fp: Fingerprint, page: Page,
               tracked: map<Fingerprint, nat>, tr: Translations, free: seq<nat>, next: nat)
    requires At(slots, e, tracked, tr, free, next) && fp !in tracked
    ensures var (l, r) := e.table.Lookup(fp, page);
            r == Miss && At(slots, e.(table := l), tracked, tr, free, next)
  {
    LookupIgnoresFilter(e.table, fp, page);
  }

  /** The slot the next allocation yields. */
  function NextSlot(free: seq<nat>, next: nat): nat {
    if free == [] then next else free[0]
  }

  lemma UniqueAt(slots: nat, e: Engine, v: nat, fp: Fingerprint, page: Page,
                 tracked: map<Fingerprint, nat>, tr: Translations, free: seq<nat>, next: nat)
    requires At(slots, e, tracked, tr, free, next) && v !in tr && fp !in tracked && NextSlot(free, next) < slots
    ensures var (f, ok) := e.WriteUnique(v, fp, page, AsWritten);
            var slot := NextSlot(free, next);
            && ok && At(slots, f, map[fp := slot], tr[v := DedupTo(fp, slot)],
                        if free == [] then [] else free[1..], if free == [] then next + 1 else next)
            && f.ReadSlot(slot) == Some(page)
  {
    hide Table.Wf, Table.Insert, PagePrefix;
    var slot := NextSlot(free, next);
    var (e1, s) := e.StoreFresh(page);
    assert s == Some(slot) && e1.table == e.table && e1.translation == tr && |e1.store| == slots && e1.store[slot] == page;
    InsertAt(slots, e, fp, page, slot, tracked, tr, free, next);
    var t := e.table.Insert(fp, page, slot).0;
    assert e.WriteUnique(v, fp, page, AsWritten).0 == e1.(table := t, translation := tr[v := DedupTo(fp, slot)]).CountUnique();
    assert map[fp := DedupEntry(1, slot, PagePrefix(page))].Keys == map[fp := slot].Keys == {fp};
  }

  /** Writing a page of an untracked fingerprint to an unmapped offset. */
  lemma WriteNew(h: Hash, slots: nat, e: Engine, v: nat, page: Page,
                 tracked: map<Fingerprint, nat>, tr: Translations, free: seq<nat>, next: nat)
    requires At(slots, e, tracked, tr, free, next) && v !in tr && h(page) !in tracked && NextSlot(free, next) < slots
    ensures var (f, outcome) := Step(h, e, Write(v, page), AsWritten);
            var slot := NextSlot(free, next);
            && At(slots, f, map[h(page) := slot], tr[v := DedupTo(h(page), slot)],
                  if free == [] then [] else free[1..], if free == [] then next + 1 else next)
            && f.ReadSlot(slot) == Some(page) && outcome == Wrote(true)
  {
    hide Table.Wf, Table.Lookup, Engine.WriteUnique, NormalizePage;
    NormalizePageIdentity(page);
    var e0 := e.(stats := e.stats.(totalWrites := e.stats.totalWrites + 1));
    assert At(slots, e0, tracked, tr, free, next) && !e.passthrough;
    hide At;
    MissAt(slots, e0, h(page), page, tracked, tr, free, next);
    var e1 := e0.(table := e0.table.Lookup(h(page), page).0);
    UniqueAt(slots, e1, v, h(page), page, tracked, tr, free, next);
  }

  /** Discarding offset 0, whose fingerprint is tracked in slot 2, frees slot 2. */
  lemma DiscardFirst(h: Hash, slots: nat, e: Engine, fp: Fingerprint, tr: Translations)
    requires At(slots, e, map[fp := 2], tr, [], 3) && 0 in tr && tr[0] == DedupTo(fp, 0) && slots >= 3
    ensures At(slots, Step(h, e, Discard(0), AsWritten).0, map[], tr - {0}, [2], 3)
  {
    hide Table.Wf;
    RemoveReferenceKeepsWf(e.table, fp);
  }

  lemma PeekAt(slots: nat, e: Engine, tracked: map<Fingerprint, nat>, tr: Translations, free: seq<nat>, next: nat, u: nat)
    requires At(slots, e, tracked, tr, free, next) && u in tr
    ensures e.Peek(u) == e.ReadSlot(tr[u].slot)
  {
  }

  lemma After1(s: Setup)
    requires s.Apt()
    ensures At(|s.initial|, s.After(1), map[], map[], [], 0)
  {
  }

  lemma After2(s: Setup)
    requires s.Apt()
    ensures At(|s.initial|, s.After(2), map[s.h(s.a) := 0], map[0 := DedupTo(s.h(s.a), 0)], [], 1)
  {
    hide At, Step;
    After1(s);
    WriteNew(s.h, |s.initial|, s.After(1), 0, s.a, map[], map[], [], 0);
    assert map[][0 := DedupTo(s.h(s.a), 0)] == map[0 := DedupTo(s.h(s.a), 0)];
  }

  lemma After3(s: Setup)
    requires s.Apt()
    ensures At(|s.initial|, s.After(3), map[s.h(s.b) := 1],
               map[0 := DedupTo(s.h(s.a), 0), 4096 := DedupTo(s.h(s.b), 1)], [], 2)
  {
    hide At, Step;
    After2(s);
    var tr := map[0 := DedupTo(s.h(s.a), 0)];
    WriteNew(s.h, |s.initial|, s.After(2), 4096, s.b, map[s.h(s.a) := 0], tr, [], 1);
    assert tr[4096 := DedupTo(s.h(s.b), 1)] == map[0 := DedupTo(s.h(s.a), 0), 4096 := DedupTo(s.h(s.b), 1)];
  }

  /** Both copies of A are mapped, only the second one tracked. */
  function Mapped(s: Setup): Translations {
    map[0 := DedupTo(s.h(s.a), 0), 4096 := DedupTo(s.h(s.b), 1), 8192 := DedupTo(s.h(s.a), 2)]
  }

  lemma After4(s: Setup)
    requires s.Apt()
    ensures At(|s.initial|, s.After(4), map[s.h(s.a) := 2], Mapped(s), [], 3)
    ensures Step(s.h, s.After(3), s.Trace()[3], AsWritten).1 == Wrote(true)
  {
    hide At, Step;
    After3(s);
    var tr := map[0 := DedupTo(s.h(s.a), 0), 4096 := DedupTo(s.h(s.b), 1)];
    WriteNew(s.h, |s.initial|, s.After(3), 8192, s.a, map[s.h(s.b) := 1], tr, [], 2);
    assert tr[8192 := DedupTo(s.h(s.a), 2)] == Mapped(s);
  }

  lemma After6(s: Setup)
    requires s.Apt()
    ensures s.After(6).Peek(8192) == Some(s.c)
  {
    hide At, Step;
    After4(s);
    DiscardFirst(s.h, |s.initial|, s.After(4), s.h(s.a), Mapped(s));
    WriteNew(s.h, |s.initial|, s.After(5), 12288, s.c, map[], Mapped(s) - {0}, [2], 3);
    var tr := (Mapped(s) - {0})[12288 := DedupTo(s.h(s.c), 2)];
    PeekAt(|s.initial|, s.After(6), map[s.h(s.c) := 2], tr, [2][1..], 3, 8192);
  }

  lemma {:induction false} AfterRuns(s: Setup, n: nat)
    requires n <= 6
    ensures Run(s.h, s.Fresh(), s.Trace()[..n], AsWritten) == s.After(n)
  {
    hide Step;
    if n > 0 {
      AfterRuns(s, n - 1);
      assert s.Trace()[..n][..n - 1] == s.Trace()[..n - 1];
    }
  }

  /** The page written at offset 8192 is lost although no later call touches it: with one
      table entry, A is evicted and tracked again, and discarding its first copy frees the
      slot of its second, which the write of C then takes. */
  lemma EvictionLosesPage(s: Setup)
    requires s.Apt()
    ensures Run(s.h, s.Fresh(), s.Trace(), AsWritten).Peek(8192) == Some(s.c)
    ensures Expected(s.Trace(), Outcomes(s.h, s.Fresh(), s.Trace(), AsWritten), 8192) == s.a != s.c
  {
    hide Setup.After, At, Step, Run, Outcomes;
    After6(s);
    After4(s);
    AfterRuns(s, 6);
    AfterRuns(s, 3);
    var ops := s.Trace();
    assert ops[..6] == ops;
    var outs := Outcomes(s.h, s.Fresh(), ops, AsWritten);
    OutcomeAt(s.h, s.Fresh(), ops, 3, AsWritten);
    LastWriteAtThird(s, outs);
  }

  lemma {:induction false} LastWriteAtThird(s: Setup, outs: seq<Outcome>)
    requires |outs| == 6 && outs[3] == Wrote(true)
    ensures Expected(s.Trace(), outs, 8192) == s.a
  {
    var t := s.Trace();
    NormalizePageIdentity(s.a);
    assert Expected(t[..5], outs[..5], 8192) == s.a by {
      assert t[..5][..4] == t[..4] && outs[..5][..4] == outs[..4];
      assert Expected(t[..4], outs[..4], 8192) == s.a;
    }
  }
}
