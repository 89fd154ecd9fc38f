/** The harmful steps are exactly what the engine gets wrong: they and only they lead,
    through calls that are themselves harmless, to a read of the wrong page. */
module Exactness {
  import opened Fingerprints
  import opened BloomFilters
  import opened Dedup
  import opened Backend
  import opened Engines
  import opened Ownership
  import opened EngineSteps
  import opened Refinement

  ghost predicate QueueFits(e: Engine) {
    |e.store| == e.alloc.max && forall i :: i in e.alloc.free ==> i < e.alloc.max
  }

  /** The slot that `v` reads from is waiting to be handed out again. */
  ghost predicate Dangling(e: Engine, v: nat) {
    QueueFits(e) && v in e.translation && e.translation[v].slot in e.alloc.free
  }

  /** Discarding `u` would free the slot of `v`. */
  ghost predicate WouldDangle(e: Engine, u: nat, v: nat, mode: ReleaseMode) {
    && QueueFits(e) && u != v && u in e.translation && v in e.translation
    && e.translation[u].kind.Deduplicated? && e.translation[u].kind.fp in e.table.entries
    && var entry := e.table.entries[e.translation[u].kind.fp];
       && entry.refCount <= 1 && entry.slot == e.translation[v].slot && entry.slot < e.alloc.max
       && (mode == SlotChecked ==> e.translation[u].slot == entry.slot)
  }

  lemma ReleaseKeepsQueueFits(e: Engine, t: Translation, mode: ReleaseMode)
    requires QueueFits(e)
    ensures QueueFits(e.Release(t, mode))
    ensures forall i :: i in e.alloc.free ==> i in e.Release(t, mode).alloc.free
  {
  }

  // ----- What a stale insertion leaves behind -----

  /** The new entry and mapping right before the old mapping is released. */
  lemma StaleTracks(h: Hash, e: Engine, v: nat, data: seq<Byte>) returns (e1: Engine, t: Table, slot: nat)
    requires Inv(h, e, AsWritten) && StaleInsert(h, e, Write(v, data))
    ensures var page := NormalizePage(data); var fp := h(page);
            && e.HandleWrite(h, v, data, AsWritten) ==
                 (e1.(table := t).CountUnique().Replace(v, DedupTo(fp, slot), AsWritten), true)
            && fp in t.entries && t.entries[fp].refCount == 1 && t.entries[fp].slot == slot
            && QueueFits(e1) && slot < e1.alloc.max && e1.store[slot] == page
            && e1.translation == e.translation
  {
    hide Owned, Settled, Table.Wf, Engine.Replace, Engine.StoreFresh, QueueFits, HasOrphan, Table.MakeRoom;
    var page := NormalizePage(data);
    var fp := h(page);
    var (l, miss) := e.table.Lookup(fp, page);
    LookupIgnoresFilter(e.table, fp, page);
    var e0 := e.(stats := e.stats.(totalWrites := e.stats.totalWrites + 1), table := l);
    InvAfterLookup(h, e, fp, page, e0.stats);
    QueueFitsAfterStore(h, e0, page);
    e1 := e0.StoreFresh(page).0;
    slot := e0.StoreFresh(page).1.value;
    InsertRefuses(l, fp, page, slot);
    t := l.Insert(fp, page, slot).0;
  }

  lemma InvAfterLookup(h: Hash, e: Engine, fp: Fingerprint, page: Page, stats: Stats)
    requires Inv(h, e, AsWritten)
    ensures Inv(h, e.(stats := stats, table := e.table.Lookup(fp, page).0), AsWritten)
  {
    hide Owned, Settled, Table.Wf;
    LookupIgnoresFilter(e.table, fp, page);
  }

  lemma QueueFitsAfterStore(h: Hash, e: Engine, page: Page)
    requires Owns(h, e) && !e.alloc.Exhausted()
    ensures QueueFits(e.StoreFresh(page).0)
    ensures var (f, slot) := e.StoreFresh(page);
            && slot.Some? && slot.value < f.alloc.max && f.store[slot.value] == page
            && f.translation == e.translation && f.table == e.table && f.passthrough == e.passthrough
  {
    AllocateQueue(e.alloc, e.alloc.Allocate().1.value);
  }

  lemma StaleInsertDangles(h: Hash, e: Engine, v: nat, data: seq<Byte>) returns (u: nat)
    requires Inv(h, e, AsWritten) && StaleInsert(h, e, Write(v, data))
    ensures var (f, ok) := e.HandleWrite(h, v, data, AsWritten);
            && ok && f.Peek(v) == Some(NormalizePage(data))
            && (Dangling(f, v) || WouldDangle(f, u, v, AsWritten))
  {
    hide Inv, Engine.HandleWrite;
    var page := NormalizePage(data);
    var fp := h(page);
    u :| u in e.translation && e.translation[u].kind == Deduplicated(fp);
    var e1, t, slot := StaleTracks(h, e, v, data);
    var e2 := e1.(table := t).CountUnique();
    var e3 := e2.(translation := e2.translation[v := DedupTo(fp, slot)]);
    if v in e.translation {
      ReleaseLocal(e3, e3.translation, e.translation[v], AsWritten);
      ReleaseKeepsQueueFits(e3, e.translation[v], AsWritten);
      ReleaseElsewhere(e3, e.translation[v], fp, AsWritten);
    }
  }

  // ----- What a wrapped count leaves behind -----

  /** The index and mapping right before the old mapping is released: a count of zero. */
  lemma WrapShares(h: Hash, e: Engine, v: nat, data: seq<Byte>, mode: ReleaseMode) returns (e1: Engine)
    requires Inv(h, e, mode) && WrapsCount(h, e, Write(v, data))
    ensures var page := NormalizePage(data); var fp := h(page);
            && fp in e.table.entries && var entry := e.table.entries[fp];
            && e.HandleWrite(h, v, data, mode) == (e1.Replace(v, DedupTo(fp, entry.slot), mode), true)
            && fp in e1.table.entries && e1.table.entries[fp] == entry.(refCount := 0)
            && QueueFits(e1) && entry.slot < e1.alloc.max && e1.ReadSlot(entry.slot) == Some(page)
            && e1.translation == e.translation
  {
    hide Counted, Exclusive, NoLeak, Placed, Settled, Table.Wf, Engine.Replace, Table.Lookup, NormalizePage;
    var page := NormalizePage(data);
    var fp := h(page);
    var e0 := e.(stats := e.stats.(totalWrites := e.stats.totalWrites + 1));
    assert Inv(h, e0, mode) by { InvIgnoresStats(h, e, e0.stats, e.passthrough, mode); }
    LookupFindsStored(h, e0, fp, page, mode);
    LookupKeepsEntries(e.table, fp, page);
    var t := e.table.Lookup(fp, page).0;
    e1 := e0.(table := t.AddReference(fp).0).CountDuplicate();
  }

  lemma InvCounted(h: Hash, e: Engine, mode: ReleaseMode)
    requires Inv(h, e, mode)
    ensures Counted(e.translation, e.table.entries)
  {
  }

  lemma WrapDangles(h: Hash, e: Engine, v: nat, data: seq<Byte>, mode: ReleaseMode) returns (u: nat)
    requires Inv(h, e, mode) && WrapsCount(h, e, Write(v, data))
    ensures var (f, ok) := e.HandleWrite(h, v, data, mode);
            && ok && f.Peek(v) == Some(NormalizePage(data))
            && (Dangling(f, v) || WouldDangle(f, u, v, mode))
  {
    hide Inv, WrapsCount, Counted, Engine.HandleWrite, Engine.Release, NormalizePage;
    var e1 := WrapShares(h, e, v, data, mode);
    var fp := h(NormalizePage(data));
    var slot := e.table.entries[fp].slot;
    InvCounted(h, e, mode);
    u := TrackedSlotMapped(e.translation, e.table.entries, fp);
    var e2 := e1.(translation := e1.translation[v := DedupTo(fp, slot)]);
    if v in e.translation {
      ReleaseLocal(e2, e2.translation, e.translation[v], mode);
      ReleaseKeepsQueueFits(e2, e.translation[v], mode);
      ReleaseElsewhere(e2, e.translation[v], fp, mode);
    }
  }

  lemma HarmfulDangles(h: Hash, e: Engine, op: Op, mode: ReleaseMode) returns (u: nat)
    requires Inv(h, e, mode) && Harmful(h, e, op, mode)
    ensures op.Write?
    ensures var (f, ok) := e.HandleWrite(h, op.offset, op.data, mode);
            && ok && f.Peek(op.offset) == Some(NormalizePage(op.data))
            && (Dangling(f, op.offset) || WouldDangle(f, u, op.offset, mode))
  {
    hide Inv, Engine.HandleWrite, Dangling, WouldDangle;
    assert op.Write? by { HarmfulIsWrite(h, e, op, mode); }
    hide StaleInsert, WrapsCount;
    if mode == AsWritten && StaleInsert(h, e, op) {
      u := StaleInsertDangles(h, e, op.offset, op.data);
    } else {
      u := WrapDangles(h, e, op.offset, op.data, mode);
    }
  }

  lemma HarmfulIsWrite(h: Hash, e: Engine, op: Op, mode: ReleaseMode)
    requires Harmful(h, e, op, mode)
    ensures op.Write? && !e.passthrough
  {
  }

  // ----- Dangling slots -----

  /** Releasing a mapping of another page leaves the entry of `fp` alone; releasing one of
      its own, when at most one reference is counted, frees the entry's slot. */
  lemma ReleaseElsewhere(e: Engine, t: Translation, fp: Fingerprint, mode: ReleaseMode)
    requires fp in e.table.entries && e.table.entries[fp].refCount <= 1
    ensures var f := e.Release(t, mode);
            if t.kind == Deduplicated(fp) && (mode == SlotChecked ==> t.slot == e.table.entries[fp].slot) then
              e.table.entries[fp].slot < e.alloc.max ==> e.table.entries[fp].slot in f.alloc.free
            else fp in f.table.entries && f.table.entries[fp] == e.table.entries[fp]
  {
  }

  lemma DiscardDangles(e: Engine, u: nat, v: nat, mode: ReleaseMode)
    requires WouldDangle(e, u, v, mode)
    ensures var f := e.HandleDiscard(u, mode);
            Dangling(f, v) && f.Peek(v) == e.Peek(v)
  {
    var e1 := e.(stats := e.stats.(discards := e.stats.discards + 1), translation := e.translation - {u});
    var t := e.translation[u];
    ReleaseLocal(e1, e1.translation, t, mode);
    ReleaseKeepsQueueFits(e1, t, mode);
    ReleaseElsewhere(e1, t, t.kind.fp, mode);
  }

  // ----- Draining the queue -----

  /** Passthrough writes of `data` at `w`. */
  function Rewrites(w: nat, data: Page, n: nat): seq<Op> {
    seq(n, i => Write(w, data))
  }

  /** One passthrough write takes the oldest free slot and moves every other one up. */
  lemma RewriteAdvances(h: Hash, e: Engine, v: nat, w: nat, data: Page, k: nat, mode: ReleaseMode)
    requires Dangling(e, v) && w != v && e.passthrough
    requires k < |e.alloc.free| && e.alloc.free[k] == e.translation[v].slot
    ensures var f := e.HandleWrite(h, w, data, mode).0;
            && f.passthrough && QueueFits(f) && v in f.translation && f.translation[v] == e.translation[v]
            && (k == 0 ==> f.Peek(v) == Some(data))
            && (k > 0 ==> Dangling(f, v) && k - 1 < |f.alloc.free| && f.alloc.free[k - 1] == f.translation[v].slot)
  {
    hide Engine.Release;
    NormalizePageIdentity(data);
    var e0 := e.(stats := e.stats.(totalWrites := e.stats.totalWrites + 1));
    var (e1, s) := e0.StoreFresh(data);
    assert e.alloc.free[0] in e.alloc.free;
    assert s == Some(e.alloc.free[0]) && e1.alloc.free == e.alloc.free[1..];
    assert forall i :: i in e.alloc.free[1..] ==> i in e.alloc.free;
    var e2 := e1.CountUnique();
    var e3 := e2.(translation := e2.translation[w := DirectTo(s.value)]);
    if w in e.translation {
      ReleaseLocal(e3, e3.translation, e.translation[w], mode);
      ReleaseKeepsQueueFits(e3, e.translation[w], mode);
      ReleaseKeepsOrder(e3, e.translation[w], mode);
    }
  }

  lemma ReleaseKeepsOrder(e: Engine, t: Translation, mode: ReleaseMode)
    ensures var f := e.Release(t, mode);
            |e.alloc.free| <= |f.alloc.free| && forall i :: 0 <= i < |e.alloc.free| ==> f.alloc.free[i] == e.alloc.free[i]
  {
  }

  lemma {:induction false} RunAppend(h: Hash, e: Engine, a: seq<Op>, b: seq<Op>, mode: ReleaseMode)
    ensures Run(h, e, a + b, mode) == Run(h, Run(h, e, a, mode), b, mode)
    decreases |b|
  {
    hide Step;
    if b == [] {
      assert a + b == a;
    } else {
      var last := |b| - 1;
      RunAppend(h, e, a, b[..last], mode);
      assert (a + b)[..|a + b| - 1] == a + b[..last];
    }
  }

  /** Enough passthrough writes elsewhere overwrite the page that `v` still maps. */
  lemma {:induction false} RewritesReach(h: Hash, e: Engine, v: nat, w: nat, data: Page, k: nat, mode: ReleaseMode)
    requires Dangling(e, v) && w != v && e.passthrough
    requires k < |e.alloc.free| && e.alloc.free[k] == e.translation[v].slot
    ensures Run(h, e, Rewrites(w, data, k + 1), mode).Peek(v) == Some(data)
    decreases k
  {
    hide Engine.HandleWrite, QueueFits;
    var one := [Write(w, data)];
    var f := e.HandleWrite(h, w, data, mode).0;
    assert one[..0] == [];
    assert Run(h, e, one, mode) == f;
    RewriteAdvances(h, e, v, w, data, k, mode);
    if k == 0 {
      assert Rewrites(w, data, 1) == one;
    } else {
      RewritesReach(h, f, v, w, data, k - 1, mode);
      RunAppend(h, e, one, Rewrites(w, data, k), mode);
      assert one + Rewrites(w, data, k) == Rewrites(w, data, k + 1);
    }
  }

  // ----- The diverging continuation -----

  /** A page that differs from `page`. */
  function Other(page: Page): (other: Page)
    ensures other[0] != page[0]
  {
    var other := Filled(if page[0] == 0 then 1 else 0);
    other
  }

  /** A dangling mapping ends up reading a page that was never written there. */
  lemma DanglingDiverges(h: Hash, e: Engine, v: nat, w: nat, page: Page, mode: ReleaseMode) returns (cont: seq<Op>)
    requires Dangling(e, v) && w != v
    ensures cont != [] && cont[0] == SetPassthrough(true)
    ensures forall i :: 1 <= i < |cont| ==> cont[i] == Write(w, Other(page))
    ensures Run(h, e, cont, mode).Peek(v) == Some(Other(page))
  {
    var other := Other(page);
    var on := [SetPassthrough(true)];
    var e1 := e.(passthrough := true);
    assert on[..0] == [];
    assert Run(h, e, on, mode) == e1;
    var k :| 0 <= k < |e.alloc.free| && e.alloc.free[k] == e.translation[v].slot;
    RewritesReach(h, e1, v, w, other, k, mode);
    cont := on + Rewrites(w, other, k + 1);
    RunAppend(h, e, on, Rewrites(w, other, k + 1), mode);
  }

  // ----- Exactness of the hypothesis -----

  lemma DanglingBreaks(h: Hash, f: Engine, u: nat, v: nat, mode: ReleaseMode)
    requires Dangling(f, v) || WouldDangle(f, u, v, mode)
    ensures !Inv(h, f, mode)
  {
    hide Counted, NoLeak, Indexed, Table.Wf, QueueOk;
    if Dangling(f, v) {
      assert !Placed(f.translation, f.alloc);
    } else if Exclusive(f.translation, f.table.entries) && (mode == AsWritten ==> Clean(f.table.entries, f.translation)) {
      SharedByTwo(f, u, v, mode);
    }
  }

  lemma SharedByTwo(f: Engine, u: nat, v: nat, mode: ReleaseMode)
    requires WouldDangle(f, u, v, mode)
    requires Exclusive(f.translation, f.table.entries) && (mode == AsWritten ==> Clean(f.table.entries, f.translation))
    ensures !Counted(f.translation, f.table.entries)
  {
    assert !Stale(f.table.entries, f.translation[u]);
    assert f.translation[u].slot == f.translation[v].slot;
    CardAtLeastTwo(Sharers(f.translation, f.translation[u]), u, v);
  }

  /** The ownership invariant survives a call exactly when the call is neither a stale
      insertion (under the release as written) nor wraps a count. */
  lemma InvariantExactlyKept(h: Hash, e: Engine, op: Op, mode: ReleaseMode)
    requires Inv(h, e, mode)
    ensures Inv(h, Step(h, e, op, mode).0, mode) <==> !Harmful(h, e, op, mode)
  {
    hide Inv, Harmful, Engine.HandleWrite, Dangling, WouldDangle;
    if Harmful(h, e, op, mode) {
      var u := HarmfulDangles(h, e, op, mode);
      DanglingBreaks(h, e.HandleWrite(h, op.offset, op.data, mode).0, u, op.offset, mode);
    } else {
      StepActsFlat(h, e, op, mode);
    }
  }

  /** No call of `ops` writes or discards `v`. */
  ghost predicate Untouched(ops: seq<Op>, v: nat) {
    forall i :: 0 <= i < |ops| ==>
      (ops[i].Write? ==> ops[i].offset != v) && (ops[i].Discard? ==> ops[i].offset != v)
  }

  /** A continuation that spoils a reading: at most one discard of a mapped offset, then
      passthrough writes of one page at one offset. */
  ghost predicate Spoils(e: Engine, cont: seq<Op>, n: nat, w: nat, other: Page) {
    && n <= 1 && n < |cont| && cont[n] == SetPassthrough(true)
    && (n == 1 ==> cont[0].Discard? && cont[0].offset in e.translation)
    && forall i :: n < i < |cont| ==> cont[i] == Write(w, other)
  }

  /** After a harmful call at `v` there are calls, all harmless and none touching `v`,
      after which `v` reads another page. */
  lemma HarmfulDiverges(h: Hash, e: Engine, op: Op, w: nat, mode: ReleaseMode) returns (cont: seq<Op>, n: nat)
    requires Inv(h, e, mode) && Harmful(h, e, op, mode) && op.Write? && w != op.offset
    ensures var f := Step(h, e, op, mode).0;
            var other := Other(NormalizePage(op.data));
            && Untouched(cont, op.offset) && Harmless(h, f, cont, mode)
            && Spoils(f, cont, n, w, other)
            && Run(h, f, cont, mode).Peek(op.offset) == Some(other) != Some(NormalizePage(op.data))
  {
    hide Inv, Harmful, Engine.HandleWrite, Engine.HandleDiscard, Dangling, Harmless, NormalizePage;
    var v := op.offset;
    var page := NormalizePage(op.data);
    var u := HarmfulDangles(h, e, op, mode);
    var f := e.HandleWrite(h, v, op.data, mode).0;
    if Dangling(f, v) {
      cont := DanglingDiverges(h, f, v, w, page, mode);
      n := 0;
    } else {
      DiscardDangles(f, u, v, mode);
      var g := f.HandleDiscard(u, mode);
      var tail := DanglingDiverges(h, g, v, w, page, mode);
      var drop := [Discard(u)];
      assert drop[..0] == [];
      assert Run(h, f, drop, mode) == g;
      RunAppend(h, f, drop, tail, mode);
      cont := drop + tail;
      n := 1;
    }
    PassthroughHarmless(h, f, cont, n, mode);
  }

  lemma {:induction false} PassthroughStays(h: Hash, e: Engine, ops: seq<Op>, n: nat, mode: ReleaseMode)
    requires n < |ops| && ops[n] == SetPassthrough(true) && forall i :: n < i < |ops| ==> ops[i].Write?
    ensures Run(h, e, ops, mode).passthrough
    decreases |ops|
  {
    hide Engine.HandleWrite;
    var last := |ops| - 1;
    if n < last {
      PassthroughStays(h, e, ops[..last], n, mode);
      var before := Run(h, e, ops[..last], mode);
      WriteKeepsPassthrough(h, before, ops[last].offset, ops[last].data, mode);
    }
  }

  lemma WriteKeepsPassthrough(h: Hash, e: Engine, v: nat, data: seq<Byte>, mode: ReleaseMode)
    requires e.passthrough
    ensures e.HandleWrite(h, v, data, mode).0.passthrough
  {
    hide Engine.Release;
    var e0 := e.(stats := e.stats.(totalWrites := e.stats.totalWrites + 1));
    var (e1, s) := e0.StoreFresh(NormalizePage(data));
    if s.Some? && v in e.translation {
      var e2 := e1.CountUnique();
      var e3 := e2.(translation := e2.translation[v := DirectTo(s.value)]);
      ReleaseLocal(e3, e3.translation, e.translation[v], mode);
    }
  }

  lemma PassthroughHarmless(h: Hash, e: Engine, cont: seq<Op>, n: nat, mode: ReleaseMode)
    requires n < |cont| && cont[n] == SetPassthrough(true)
    requires forall i :: 0 <= i < n ==> !cont[i].Write?
    requires forall i :: n < i < |cont| ==> cont[i].Write?
    ensures Harmless(h, e, cont, mode)
  {
    hide Harmful;
    forall i | 0 <= i < |cont|
      ensures !Harmful(h, Run(h, e, cont[..i], mode), cont[i], mode)
    {
      if n < i {
        PassthroughStays(h, e, cont[..i], n, mode);
      }
      if Harmful(h, Run(h, e, cont[..i], mode), cont[i], mode) {
        HarmfulIsWrite(h, Run(h, e, cont[..i], mode), cont[i], mode);
      }
    }
  }

  lemma {:induction false} ExpectedUntouched(ops: seq<Op>, cont: seq<Op>, outcomes: seq<Outcome>, v: nat)
    requires |outcomes| == |ops| + |cont| && Untouched(cont, v)
    ensures Expected(ops + cont, outcomes, v) == Expected(ops, outcomes[..|ops|], v)
    decreases |cont|
  {
    if cont == [] {
      assert ops + cont == ops && outcomes[..|ops|] == outcomes;
    } else {
      var last := |cont| - 1;
      assert (ops + cont)[..|ops + cont| - 1] == ops + cont[..last];
      assert outcomes[..|outcomes| - 1][..|ops|] == outcomes[..|ops|];
      ExpectedUntouched(ops, cont[..last], outcomes[..|outcomes| - 1], v);
    }
  }

  /** `cont` is a harmless continuation of `ops` after which some offset reads the wrong page. */
  ghost predicate Diverges(h: Hash, e: Engine, ops: seq<Op>, cont: seq<Op>, mode: ReleaseMode) {
    Harmless(h, Run(h, e, ops, mode), cont, mode) && !ReadsExpected(h, e, ops + cont, mode)
  }

  lemma HarmlessAppend(h: Hash, e: Engine, a: seq<Op>, b: seq<Op>, mode: ReleaseMode)
    requires Harmless(h, e, a, mode) && Harmless(h, Run(h, e, a, mode), b, mode)
    ensures Harmless(h, e, a + b, mode)
  {
    hide Harmful, Run;
    forall i | 0 <= i < |a + b|
      ensures !Harmful(h, Run(h, e, (a + b)[..i], mode), (a + b)[i], mode)
    {
      if i < |a| {
        assert (a + b)[..i] == a[..i];
      } else {
        assert (a + b)[..i] == a + b[..i - |a|];
        RunAppend(h, e, a, b[..i - |a|], mode);
      }
    }
  }

  lemma HarmlessOne(h: Hash, e: Engine, op: Op, mode: ReleaseMode)
    requires !Harmful(h, e, op, mode)
    ensures Harmless(h, e, [op], mode)
  {
    assert [op][..0] == [];
  }

  /** A call of `op` after a harmless run leads some harmless continuation to a wrong read
      exactly when it is harmful itself: the hypotheses of the refinement cannot be
      weakened at any point of any run, under either release rule. */
  lemma HarmfulExactly(h: Hash, initial: seq<Page>, maxEntries: nat, bloomCapacity: nat,
                       ops: seq<Op>, op: Op, mode: ReleaseMode)
    requires Harmless(h, NewEngine(initial, maxEntries, bloomCapacity), ops, mode)
    ensures var e := NewEngine(initial, maxEntries, bloomCapacity);
            Harmful(h, Run(h, e, ops, mode), op, mode) <==> exists cont :: Diverges(h, e, ops + [op], cont, mode)
  {
    var e := NewEngine(initial, maxEntries, bloomCapacity);
    var reached := Run(h, e, ops, mode);
    hide Harmful, ReadsExpected, Run, Inv, Harmless;
    NewEngineInv(h, initial, maxEntries, bloomCapacity, mode);
    if Harmful(h, reached, op, mode) {
      DivergesIfHarmful(h, e, ops, op, mode);
    } else {
      forall cont | Diverges(h, e, ops + [op], cont, mode)
        ensures false
      {
        HarmlessOne(h, reached, op, mode);
        HarmlessAppend(h, e, ops, [op], mode);
        HarmlessAppend(h, e, ops + [op], cont, mode);
        RunKeeps(h, e, ops + [op] + cont, mode);
      }
    }
  }

  lemma DivergesIfHarmful(h: Hash, e: Engine, ops: seq<Op>, op: Op, mode: ReleaseMode)
    requires Inv(h, e, mode) && e.translation == map[] && Harmless(h, e, ops, mode)
    requires Harmful(h, Run(h, e, ops, mode), op, mode)
    ensures exists cont :: Diverges(h, e, ops + [op], cont, mode)
  {
    hide Harmful, Inv, Step, NormalizePage, Harmless;
    var reached := Run(h, e, ops, mode);
    RunKeeps(h, e, ops, mode);
    HarmfulIsWrite(h, reached, op, mode);
    var cont, n := HarmfulDiverges(h, reached, op, op.offset + 1, mode);
    var all := ops + [op] + cont;
    assert (ops + [op])[..|ops|] == ops;
    assert Run(h, e, ops + [op], mode) == Step(h, reached, op, mode).0;
    RunAppend(h, e, ops + [op], cont, mode);
    LastingWrite(h, e, ops, op, cont, mode);
    assert Diverges(h, e, ops + [op], cont, mode);
  }

  /** The flat device still holds the harmful write after an untouching continuation. */
  lemma LastingWrite(h: Hash, e: Engine, ops: seq<Op>, op: Op, cont: seq<Op>, mode: ReleaseMode)
    requires var reached := Run(h, e, ops, mode); Inv(h, reached, mode) && Harmful(h, reached, op, mode)
    requires op.Write? && Untouched(cont, op.offset)
    ensures var all := ops + [op] + cont;
            Expected(all, Outcomes(h, e, all, mode), op.offset) == NormalizePage(op.data)
  {
    hide Inv, Harmful, Engine.HandleWrite, NormalizePage, Dangling, WouldDangle;
    var reached := Run(h, e, ops, mode);
    var all := ops + [op] + cont;
    ExpectedUntouched(ops + [op], cont, Outcomes(h, e, all, mode), op.offset);
    OutcomesPrefix(h, e, all, |ops| + 1, mode);
    assert all[..|ops| + 1] == ops + [op];
    var u := HarmfulDangles(h, reached, op, mode);
    assert (ops + [op])[..|ops|] == ops;
  }
}
