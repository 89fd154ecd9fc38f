/** Optimal sharing: with room for every slot in the table, no passthrough, and a hash
    that tells the written pages apart, the store holds one slot per distinct page. */
module Sharing {
  import opened Fingerprints
  import opened BloomFilters
  import opened Dedup
  import opened Backend
  import opened Engines
  import opened Ownership
  import opened EngineSteps
  import opened Refinement
  import opened Conservation

  /** The normalized pages a run writes. */
  function Written(ops: seq<Op>): set<Page> {
    set i | 0 <= i < |ops| && ops[i].Write? :: NormalizePage(ops[i].data)
  }

  ghost predicate TellsApart(h: Hash, pages: set<Page>) {
    forall p, q :: p in pages && q in pages && h(p) == h(q) ==> p == q
  }

  ghost predicate AllDeduplicated(e: Engine) {
    forall u :: u in e.translation ==> e.translation[u].kind.Deduplicated?
  }

  ghost predicate ReadsFrom(e: Engine, pages: set<Page>) {
    forall u :: u in e.translation ==> e.Peek(u).Some? && e.Peek(u).value in pages
  }

  /** The distinct contents of mapped pages. */
  function LiveContents(e: Engine): set<Page> {
    set u | u in e.translation && e.Peek(u).Some? :: e.Peek(u).value
  }

  // ----- A deduplicating write maps its page to the index -----

  /** A tracked fingerprint's page is the page of some mapped offset. */
  lemma TrackedIsWritten(h: Hash, e: Engine, fp: Fingerprint, pages: set<Page>)
    requires Owns(h, e) && fp in e.table.entries && ReadsFrom(e, pages)
    ensures e.table.entries[fp].slot < |e.store| && e.store[e.table.entries[fp].slot] in pages
    ensures h(e.store[e.table.entries[fp].slot]) == fp
  {
    var u := TrackedSlotMapped(e.translation, e.table.entries, fp);
    assert e.Peek(u).Some?;
  }

  lemma InsertSucceeds(h: Hash, e: Engine, fp: Fingerprint, page: Page)
    requires Inv(h, e, AsWritten) && Ample(e) && fp !in e.table.entries && !e.alloc.Exhausted()
    ensures InsertAccepts(e.table, fp)
  {
    hide Inv;
    AmpleHasRoom(h, e, AsWritten);
  }

  /** `f` maps `v` to a deduplicated page and leaves other mappings alone. */
  ghost predicate MapsDeduplicated(e: Engine, f: Engine, v: nat) {
    && v in f.translation && f.translation[v].kind.Deduplicated?
    && forall u :: u in f.translation && u != v ==> u in e.translation && f.translation[u] == e.translation[u]
  }

  lemma ReplaceMaps(e: Engine, v: nat, t: Translation)
    requires t.kind.Deduplicated?
    ensures MapsDeduplicated(e, e.Replace(v, t, AsWritten), v)
  {
    hide Engine.Release;
    if v in e.translation {
      ReleaseLocal(e.(translation := e.translation[v := t]), e.translation, e.translation[v], AsWritten);
    }
  }

  lemma WriteUniqueDeduplicates(h: Hash, e: Engine, v: nat, page: Page)
    requires Inv(h, e, AsWritten) && Ample(e) && h(page) !in e.table.entries
    ensures var (f, ok) := e.WriteUnique(v, h(page), page, AsWritten);
            ok ==> MapsDeduplicated(e, f, v)
  {
    hide Inv, MapsDeduplicated, Engine.Replace, InsertAccepts;
    var (e1, slot) := e.StoreFresh(page);
    if slot.Some? {
      InsertSucceeds(h, e, h(page), page);
      TableOf(h, e);
      InsertRefuses(e.table, h(page), page, slot.value);
      AcceptsInserts(e.table, h(page), page, slot.value);
      var t := e1.table.Insert(h(page), page, slot.value).0;
      var e2 := e1.(table := t).CountUnique();
      ReplaceMaps(e2, v, DedupTo(h(page), slot.value));
      MapsAlike(e2, e, e2.Replace(v, DedupTo(h(page), slot.value), AsWritten), v);
    }
  }

  lemma TableOf(h: Hash, e: Engine)
    requires Inv(h, e, AsWritten)
    ensures e.table.Wf()
  {
  }

  lemma AcceptsInserts(t: Table, fp: Fingerprint, page: Page, slot: nat)
    requires t.Wf() && InsertAccepts(t, fp)
    ensures t.Insert(fp, page, slot).1
  {
    InsertRefuses(t, fp, page, slot);
  }

  lemma MapsAlike(e: Engine, e0: Engine, f: Engine, v: nat)
    requires e.translation == e0.translation && MapsDeduplicated(e, f, v)
    ensures MapsDeduplicated(e0, f, v)
  {
  }

  /** With no collision among the written pages a write never falls back to a direct mapping. */
  lemma WriteDeduplicates(h: Hash, e: Engine, v: nat, page: Page, pages: set<Page>)
    requires Inv(h, e, AsWritten) && Ample(e)
    requires ReadsFrom(e, pages) && page in pages && TellsApart(h, pages)
    ensures var (f, ok) := e.WriteDedup(v, h(page), page, AsWritten);
            ok ==> MapsDeduplicated(e, f, v)
  {
    hide MapsDeduplicated, Engine.Replace, Engine.WriteUnique, Owned, Settled, Table.Wf;
    var fp := h(page);
    var (l, r) := e.table.Lookup(fp, page);
    LookupIgnoresFilter(e.table, fp, page);
    var e1 := e.(table := l);
    if fp in e.table.entries {
      TrackedIsWritten(h, e, fp, pages);
      assert AlreadyStored(e, fp, page);
      LookupFindsStored(h, e, fp, page, AsWritten);
      var e2 := e1.(table := l.AddReference(fp).0).CountDuplicate();
      ReplaceMaps(e2, v, DedupTo(fp, r.slot));
      MapsAlike(e2, e, e2.Replace(v, DedupTo(fp, r.slot), AsWritten), v);
    } else {
      WriteUniqueDeduplicates(h, e1, v, page);
      var (f, ok) := e1.WriteUnique(v, fp, page, AsWritten);
      if ok { MapsAlike(e1, e, f, v); }
    }
  }

  // ----- The invariant of a sharing run -----

  ghost predicate Shares(h: Hash, e: Engine, pages: set<Page>) {
    Inv(h, e, AsWritten) && Ample(e) && !e.passthrough && AllDeduplicated(e) && ReadsFrom(e, pages)
  }

  lemma FewerMappings(e: Engine, f: Engine, pages: set<Page>)
    requires AllDeduplicated(e) && ReadsFrom(e, pages) && f.store == e.store
    requires forall u :: u in f.translation ==> u in e.translation && f.translation[u] == e.translation[u]
    ensures AllDeduplicated(f) && ReadsFrom(f, pages)
  {
    forall u | u in f.translation
      ensures f.Peek(u).Some? && f.Peek(u).value in pages
    {
      assert f.Peek(u) == e.Peek(u);
    }
  }

  lemma WriteShares(h: Hash, e: Engine, v: nat, data: seq<Byte>, pages: set<Page>)
    requires Shares(h, e, pages) && !WrapsCount(h, e, Write(v, data))
    requires NormalizePage(data) in pages && TellsApart(h, pages)
    ensures Shares(h, e.HandleWrite(h, v, data, AsWritten).0, pages)
  {
    hide Inv, Engine.HandleWrite, TellsApart, AllDeduplicated, ReadsFrom, ActsFlat, MapsDeduplicated, StaleInsert, WrapsCount;
    AmpleNeverStale(h, e, Write(v, data));
    WriteActsFlat(h, e, v, data, AsWritten);
    StepKeepsSizes(h, e, Write(v, data), AsWritten);
    WriteKeepsToggle(h, e, v, data);
    var (f, ok) := e.HandleWrite(h, v, data, AsWritten);
    if ok {
      HandleWriteDeduplicates(h, e, v, data, pages);
      OneMoreMapping(e, f, v, data, pages);
    } else {
      WriteFailsOnlyWhenFull(h, e, v, data, AsWritten);
      FewerMappings(e, f, pages);
    }
  }

  lemma HandleWriteDeduplicates(h: Hash, e: Engine, v: nat, data: seq<Byte>, pages: set<Page>)
    requires Shares(h, e, pages) && NormalizePage(data) in pages && TellsApart(h, pages)
    ensures var (f, ok) := e.HandleWrite(h, v, data, AsWritten);
            ok ==> MapsDeduplicated(e, f, v)
  {
    hide Inv, Engine.WriteDedup, TellsApart, AllDeduplicated, MapsDeduplicated;
    var e1 := e.(stats := e.stats.(totalWrites := e.stats.totalWrites + 1));
    InvIgnoresStats(h, e, e1.stats, e.passthrough, AsWritten);
    SameMappings(e, e1, pages);
    WriteDeduplicates(h, e1, v, NormalizePage(data), pages);
    var (f, ok) := e1.WriteDedup(v, h(NormalizePage(data)), NormalizePage(data), AsWritten);
    if ok { MapsAlike(e1, e, f, v); }
  }

  lemma SameMappings(e: Engine, f: Engine, pages: set<Page>)
    requires AllDeduplicated(e) && ReadsFrom(e, pages) && f.store == e.store && f.translation == e.translation
    ensures AllDeduplicated(f) && ReadsFrom(f, pages)
  {
    FewerMappings(e, f, pages);
  }

  lemma OneMoreMapping(e: Engine, f: Engine, v: nat, data: seq<Byte>, pages: set<Page>)
    requires AllDeduplicated(e) && ReadsFrom(e, pages) && NormalizePage(data) in pages
    requires MapsDeduplicated(e, f, v) && ActsFlat(e, Write(v, data), f, Wrote(true))
    ensures AllDeduplicated(f) && ReadsFrom(f, pages)
  {
    forall u | u in f.translation
      ensures f.Peek(u).Some? && f.Peek(u).value in pages
    {
      if u != v { assert e.Peek(u).Some?; }
    }
  }

  lemma WriteKeepsToggle(h: Hash, e: Engine, v: nat, data: seq<Byte>)
    ensures e.HandleWrite(h, v, data, AsWritten).0.passthrough == e.passthrough
  {
    hide Engine.Release;
    TogglesKept(e.(stats := e.stats.(totalWrites := e.stats.totalWrites + 1)), v, h(NormalizePage(data)), NormalizePage(data));
  }

  lemma ReplaceKeepsToggle(e: Engine, v: nat, t: Translation)
    ensures e.Replace(v, t, AsWritten).passthrough == e.passthrough
  {
  }

  lemma TogglesKept(e: Engine, v: nat, fp: Fingerprint, page: Page)
    ensures e.WriteDirect(v, page, AsWritten).0.passthrough == e.passthrough
    ensures e.WriteUnique(v, fp, page, AsWritten).0.passthrough == e.passthrough
    ensures e.WriteDedup(v, fp, page, AsWritten).0.passthrough == e.passthrough
  {
    hide Engine.Replace;
    forall x: Engine, t: Translation
      ensures x.Replace(v, t, AsWritten).passthrough == x.passthrough
    {
      ReplaceKeepsToggle(x, v, t);
    }
  }

  lemma DiscardKeepsRest(e: Engine, v: nat)
    ensures var f := e.HandleDiscard(v, AsWritten);
            f.translation == e.translation - {v} && f.store == e.store && f.passthrough == e.passthrough
  {
    hide Engine.Release;
    if v in e.translation {
      var e1 := e.(stats := e.stats.(discards := e.stats.discards + 1), translation := e.translation - {v});
      ReleaseLocal(e1, e1.translation, e.translation[v], AsWritten);
    } else {
      assert e.translation - {v} == e.translation;
    }
  }

  lemma DiscardShares(h: Hash, e: Engine, v: nat, pages: set<Page>)
    requires Shares(h, e, pages)
    ensures Shares(h, e.HandleDiscard(v, AsWritten), pages)
  {
    hide Inv, Engine.HandleDiscard, AllDeduplicated, ReadsFrom, ActsFlat;
    DiscardActsFlat(h, e, v, AsWritten);
    StepKeepsSizes(h, e, Discard(v), AsWritten);
    DiscardKeepsRest(e, v);
    FewerMappings(e, e.HandleDiscard(v, AsWritten), pages);
  }

  /** No call turns passthrough on. */
  ghost predicate NoPassthrough(ops: seq<Op>) {
    forall i :: 0 <= i < |ops| ==> ops[i] != SetPassthrough(true)
  }

  lemma StepShares(h: Hash, e: Engine, op: Op, pages: set<Page>)
    requires Shares(h, e, pages) && !WrapsCount(h, e, op) && op != SetPassthrough(true)
    requires op.Write? ==> NormalizePage(op.data) in pages
    requires TellsApart(h, pages)
    ensures Shares(h, Step(h, e, op, AsWritten).0, pages)
  {
    hide Inv, Engine.HandleWrite, Engine.HandleDiscard, TellsApart, WrapsCount;
    match op
    case Write(v, data) => WriteShares(h, e, v, data, pages);
    case Discard(v) => DiscardShares(h, e, v, pages);
    case Read(v) => InvIgnoresStats(h, e, e.stats.(totalReads := e.stats.totalReads + 1), e.passthrough, AsWritten);
    case SetPassthrough(on) => InvIgnoresStats(h, e, e.stats, on, AsWritten);
  }

  lemma WrittenPrefix(ops: seq<Op>, n: nat)
    requires n <= |ops|
    ensures Written(ops[..n]) <= Written(ops)
    ensures n < |ops| && ops[n].Write? ==> NormalizePage(ops[n].data) in Written(ops)
  {
  }

  lemma {:induction false} RunShares(h: Hash, e: Engine, ops: seq<Op>, pages: set<Page>)
    requires Shares(h, e, pages) && e.translation == map[] && Harmless(h, e, ops, AsWritten) && NoPassthrough(ops)
    requires Written(ops) <= pages && TellsApart(h, pages)
    ensures Shares(h, Run(h, e, ops, AsWritten), pages)
  {
    hide Inv, Step, TellsApart, StaleInsert, WrapsCount;
    if ops != [] {
      var last := |ops| - 1;
      WrittenPrefix(ops, last);
      HarmlessPrefix(h, e, ops, last, AsWritten);
      RunShares(h, e, ops[..last], pages);
      StepShares(h, Run(h, e, ops[..last], AsWritten), ops[last], pages);
    }
  }

  // ----- One slot per content -----

  /** Slots and contents correspond one to one. */
  lemma SameSlotIffSamePage(h: Hash, e: Engine, u: nat, w: nat, pages: set<Page>)
    requires Shares(h, e, pages) && u in e.translation && w in e.translation
    ensures e.Peek(u).Some? && e.Peek(w).Some?
    ensures e.translation[u].slot == e.translation[w].slot <==> e.Peek(u) == e.Peek(w)
  {
    TrackedContent(h, e, e.translation[u].kind.fp);
    TrackedContent(h, e, e.translation[w].kind.fp);
  }

  function PagesOf(e: Engine, us: set<nat>): set<Page> {
    set u | u in us && e.Peek(u).Some? :: e.Peek(u).value
  }

  ghost predicate OneToOne(e: Engine, us: set<nat>) {
    && us <= e.translation.Keys && (forall u :: u in us ==> e.Peek(u).Some?)
    && forall u, w :: u in us && w in us ==>
         (e.translation[u].slot == e.translation[w].slot <==> e.Peek(u) == e.Peek(w))
  }

  lemma {:induction false} Correspond(e: Engine, us: set<nat>)
    requires OneToOne(e, us)
    ensures |SlotsOf(e.translation, us)| == |PagesOf(e, us)|
    decreases |us|
  {
    if us != {} {
      var u :| u in us;
      var rest := set w | w in us && e.Peek(w) != e.Peek(u);
      assert rest < us by { assert u in us && u !in rest; }
      CardProper(rest, us);
      Correspond(e, rest);
      CorrespondStep(e, us, rest, u);
    }
  }

  lemma CorrespondStep(e: Engine, us: set<nat>, rest: set<nat>, u: nat)
    requires OneToOne(e, us) && u in us && rest == set w | w in us && e.Peek(w) != e.Peek(u)
    ensures |SlotsOf(e.translation, us)| == |SlotsOf(e.translation, rest)| + 1
    ensures |PagesOf(e, us)| == |PagesOf(e, rest)| + 1
  {
    assert SlotsOf(e.translation, us) == SlotsOf(e.translation, rest) + {e.translation[u].slot};
    assert e.translation[u].slot !in SlotsOf(e.translation, rest);
    assert PagesOf(e, us) == PagesOf(e, rest) + {e.Peek(u).value};
    assert e.Peek(u).value !in PagesOf(e, rest);
  }

  lemma CardProper(s: set<nat>, t: set<nat>)
    requires s < t
    ensures |s| < |t|
  {
    assert t == s + (t - s);
  }

  /** Optimal sharing over every run: owned slots are exactly as many as the distinct
      contents of mapped pages. */
  lemma OptimalSharing(h: Hash, initial: seq<Page>, maxEntries: nat, bloomCapacity: nat,
                       ops: seq<Op>)
    requires NoPassthrough(ops) && maxEntries >= |initial| && TellsApart(h, Written(ops))
    requires NeverWraps(h, NewEngine(initial, maxEntries, bloomCapacity).(passthrough := false), ops, AsWritten)
    ensures var e := NewEngine(initial, maxEntries, bloomCapacity).(passthrough := false);
            var f := Run(h, e, ops, AsWritten);
            |OwnedSlots(f)| == |LiveContents(f)|
  {
    hide Inv, TellsApart, NeverWraps, Harmless;
    var e0 := NewEngine(initial, maxEntries, bloomCapacity);
    var e := e0.(passthrough := false);
    NewEngineInv(h, initial, maxEntries, bloomCapacity, AsWritten);
    InvIgnoresStats(h, e0, e0.stats, false, AsWritten);
    AmpleHarmless(h, e, ops);
    RunShares(h, e, ops, Written(ops));
    var f := Run(h, e, ops, AsWritten);
    hide Run, Shares;
    forall u, w | u in f.translation && w in f.translation
      ensures f.Peek(u).Some? && (f.translation[u].slot == f.translation[w].slot <==> f.Peek(u) == f.Peek(w))
    {
      SameSlotIffSamePage(h, f, u, w, Written(ops));
    }
    Correspond(f, f.translation.Keys);
    assert OwnedSlots(f) == SlotsOf(f.translation, f.translation.Keys);
    assert LiveContents(f) == PagesOf(f, f.translation.Keys);
  }
}
