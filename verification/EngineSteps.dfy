/** Every engine call keeps the ownership invariant and acts on readable pages like a
    flat device, except two kinds of step, each named exactly. */
module EngineSteps {
  import opened Fingerprints
  import opened BloomFilters
  import opened Dedup
  import opened Backend
  import opened Engines
  import opened Ownership

  ghost predicate Owns(h: Hash, e: Engine) {
    Owned(h, e.table.entries, e.store, e.translation, e.alloc)
  }

  /** The invariant of every call. The code as written also needs the index and the
      translations to agree on each fingerprint's slot; a table with room for every
      slot never evicts, so there every deduplicated translation stays tracked. */
  ghost predicate Inv(h: Hash, e: Engine, mode: ReleaseMode) {
    && Owns(h, e) && e.table.Wf()
    && Settled(e.table.entries, e.translation, AgreementOf(e, mode))
  }

  /** As many table entries as slots. */
  predicate Ample(e: Engine) {
    e.table.maxEntries >= e.alloc.max
  }

  ghost function AgreementOf(e: Engine, mode: ReleaseMode): Agreement {
    Agreement(mode == AsWritten, Ample(e))
  }

  /** Some translation still names `fp` although the index has forgotten it. */
  ghost predicate HasOrphan(e: Engine, fp: Fingerprint) {
    fp !in e.table.entries && exists u :: u in e.translation && e.translation[u].kind == Deduplicated(fp)
  }

  ghost predicate InsertAccepts(t: Table, fp: Fingerprint) {
    fp !in t.entries && (|t.entries| < t.maxEntries || exists k :: Evictable(t.entries, k))
  }

  /** The step that the code as written gets wrong: with a slot and a table entry to be
      had, it tracks anew a fingerprint that an evicted translation still names. */
  ghost predicate StaleInsert(h: Hash, e: Engine, op: Op) {
    && op.Write? && !e.passthrough && !e.alloc.Exhausted()
    && InsertAccepts(e.table, h(NormalizePage(op.data)))
    && HasOrphan(e, h(NormalizePage(op.data)))
  }

  /** `page` is already tracked under `fp`: storing it again needs no slot. */
  ghost predicate AlreadyStored(e: Engine, fp: Fingerprint, page: Page) {
    fp in e.table.entries && e.ReadSlot(e.table.entries[fp].slot) == Some(page)
  }

  /** The step that any release rule gets wrong: it shares a page whose 32-bit count is at
      its maximum, so the count wraps to zero. */
  ghost predicate WrapsCount(h: Hash, e: Engine, op: Op) {
    && op.Write? && !e.passthrough
    && var page := NormalizePage(op.data);
       AlreadyStored(e, h(page), page) && e.table.entries[h(page)].refCount + 1 == TWO_32
  }

  /** The two steps that break the invariant. */
  ghost predicate Harmful(h: Hash, e: Engine, op: Op, mode: ReleaseMode) {
    (mode == AsWritten && StaleInsert(h, e, op)) || WrapsCount(h, e, op)
  }

  /** `f` reads like `e` except that `v` reads `page`. */
  ghost predicate ReadsWith(e: Engine, f: Engine, v: nat, page: Page) {
    forall u :: f.Peek(u) == if u == v then Some(page) else e.Peek(u)
  }

  // ----- Spare offsets -----

  lemma Bound(s: set<nat>) returns (b: nat)
    ensures forall x :: x in s ==> x < b
  {
    if s == {} {
      b := 0;
    } else {
      var x :| x in s;
      var c := Bound(s - {x});
      assert forall y :: y in s ==> y == x || y in s - {x};
      b := if x < c then c else x + 1;
    }
  }

  lemma SpareOffset(tr: Translations, v: nat) returns (w: nat)
    ensures w !in tr && w != v
  {
    w := Bound(tr.Keys + {v});
    assert w !in tr.Keys + {v};
  }

  // ----- Releasing and replacing -----

  lemma ReleaseByFingerprintKeeps(h: Hash, e: Engine, u: nat)
    requires Owns(h, e) && u in e.translation && e.translation[u].kind.Deduplicated?
    requires !Stale(e.table.entries, e.translation[u])
    ensures var t := e.translation[u];
            Owns(h, e.(translation := e.translation - {u}).ReleaseByFingerprint(t.kind.fp, t.slot))
  {
    var tr, entries := e.translation, e.table.entries;
    var fp := tr[u].kind.fp;
    if fp in entries && entries[fp].refCount > 1 {
      DropReference(h, entries, e.store, tr, e.alloc, fp, u);
    } else {
      SoleSharer(h, entries, e.store, tr, e.alloc, u);
      FreeLastOwner(h, entries, if fp in entries then entries - {fp} else entries, e.store, tr, e.alloc, u);
    }
  }

  lemma ReleaseByFingerprintSettled(h: Hash, e: Engine, u: nat, g: Agreement)
    requires Owns(h, e) && u in e.translation && e.translation[u].kind.Deduplicated?
    requires !Stale(e.table.entries, e.translation[u])
    requires Settled(e.table.entries, e.translation, g)
    ensures var t := e.translation[u];
            Settled(e.ReleaseByFingerprint(t.kind.fp, t.slot).table.entries, e.translation - {u}, g)
  {
    hide Owned, Settled;
    var tr, entries := e.translation, e.table.entries;
    var fp := tr[u].kind.fp;
    DropSettled(entries, tr, u, g);
    if fp in entries {
      if entries[fp].refCount > 1 {
        RecountSettled(entries, tr - {u}, fp, WrappingDecrement(entries[fp].refCount), g);
      } else {
        SoleSharer(h, entries, e.store, tr, e.alloc, u);
        LastSettled(entries, tr, u, g);
      }
    }
  }

  lemma ReleasePrivately(h: Hash, e: Engine, u: nat, mode: ReleaseMode)
    requires Inv(h, e, mode) && u in e.translation && !Tracked(e.table.entries, e.translation[u])
    ensures Inv(h, e.(translation := e.translation - {u}).FreeSlot(e.translation[u].slot), mode)
  {
    hide Owned, Settled, Table.Wf;
    SoleSharer(h, e.table.entries, e.store, e.translation, e.alloc, u);
    FreeLastOwner(h, e.table.entries, e.table.entries, e.store, e.translation, e.alloc, u);
    DropSettled(e.table.entries, e.translation, u, AgreementOf(e, mode));
  }

  lemma ReleaseByFingerprintLocal(e: Engine, fp: Fingerprint, slot: nat)
    ensures var f := e.ReleaseByFingerprint(fp, slot);
            && f.table == e.table.RemoveReference(fp).0 && f.table.maxEntries == e.table.maxEntries
            && f.alloc.max == e.alloc.max && f.translation == e.translation
  {
  }

  lemma ReleaseCounted(h: Hash, e: Engine, u: nat, mode: ReleaseMode)
    requires Inv(h, e, mode) && u in e.translation && e.translation[u].kind.Deduplicated?
    requires !Stale(e.table.entries, e.translation[u])
    ensures var t := e.translation[u];
            Inv(h, e.(translation := e.translation - {u}).ReleaseByFingerprint(t.kind.fp, t.slot), mode)
  {
    hide Owns, Settled, Table.Wf, Table.RemoveReference, Engine.ReleaseByFingerprint;
    var t := e.translation[u];
    ReleaseByFingerprintKeeps(h, e, u);
    RemoveReferenceKeepsWf(e.table, t.kind.fp);
    ReleaseByFingerprintSettled(h, e, u, AgreementOf(e, mode));
    ReleaseByFingerprintLocal(e, t.kind.fp, t.slot);
    ReleaseByFingerprintLocal(e.(translation := e.translation - {u}), t.kind.fp, t.slot);
  }

  lemma ReleaseKeeps(h: Hash, e: Engine, u: nat, mode: ReleaseMode)
    requires Inv(h, e, mode) && u in e.translation
    ensures var f := e.(translation := e.translation - {u}).Release(e.translation[u], mode);
            Inv(h, f, mode) && f.store == e.store && f.translation == e.translation - {u}
  {
    hide Owned, Settled, Table.Wf, Inv, Engine.ReleaseByFingerprint;
    var t := e.translation[u];
    if mode == AsWritten { NotStale(h, e, u); }
    if t.kind.Direct? || Stale(e.table.entries, t) {
      ReleasePrivately(h, e, u, mode);
    } else {
      ReleaseCounted(h, e, u, mode);
    }
    ReleaseLocal(e.(translation := e.translation - {u}), e.translation - {u}, t, mode);
  }

  lemma NotStale(h: Hash, e: Engine, u: nat)
    requires Inv(h, e, AsWritten) && u in e.translation
    ensures !Stale(e.table.entries, e.translation[u])
  {
  }

  /** Release looks at nothing but the index and the allocator. */
  lemma ReleaseLocal(e: Engine, tr: Translations, t: Translation, mode: ReleaseMode)
    ensures e.(translation := tr).Release(t, mode) == e.Release(t, mode).(translation := tr)
    ensures e.Release(t, mode).store == e.store && e.Release(t, mode).translation == e.translation
    ensures e.Release(t, mode).passthrough == e.passthrough && e.Release(t, mode).stats == e.stats
  {
  }

  lemma ReplaceKeeps(h: Hash, e: Engine, v: nat, t: Translation, spare: nat, mode: ReleaseMode)
    requires spare !in e.translation && spare != v
    requires Inv(h, e.(translation := e.translation[spare := t]), mode)
    ensures var f := e.Replace(v, t, mode);
            Inv(h, f, mode) && f.store == e.store && f.translation == e.translation[v := t]
  {
    hide Owned, Settled, Table.Wf;
    var held := e.(translation := e.translation[spare := t]);
    if v in e.translation {
      ReleaseKeeps(h, held, v, mode);
      var bare := held.translation - {v};
      assert (bare - {spare})[v := bare[spare]] == e.translation[v := t];
      var f := held.(translation := bare).Release(e.translation[v], mode);
      MoveKeeps(h, f.table.entries, f.store, bare, f.alloc, spare, v);
      MoveSettled(f.table.entries, bare, spare, v, AgreementOf(e, mode));
      ReleaseLocal(e, bare, e.translation[v], mode);
      ReleaseLocal(e, e.translation[v := t], e.translation[v], mode);
    } else {
      assert (held.translation - {spare})[v := t] == e.translation[v := t];
      MoveKeeps(h, e.table.entries, e.store, held.translation, e.alloc, spare, v);
      MoveSettled(e.table.entries, held.translation, spare, v, AgreementOf(e, mode));
    }
  }

  // ----- Writes -----

  /** Storing a page in a fresh slot disturbs no readable page. */
  lemma StoreFreshKeeps(h: Hash, e: Engine, page: Page, spare: nat, mode: ReleaseMode)
    requires Inv(h, e, mode) && spare !in e.translation
    ensures var (f, slot) := e.StoreFresh(page);
            && (slot.None? <==> e.alloc.Exhausted())
            && f.translation == e.translation && f.table == e.table
            && (slot.None? ==> f == e)
            && (slot.Some? ==>
                  && slot.value < |f.store| && f.store[slot.value] == page
                  && Inv(h, f.(translation := e.translation[spare := DirectTo(slot.value)]), mode)
                  && forall u :: u in e.translation ==> f.Peek(u) == e.Peek(u))
  {
    var slot := e.alloc.Allocate().1;
    if slot.Some? {
      HoldKeeps(h, e.table.entries, e.store, e.translation, e.alloc, slot.value, page, spare);
      HoldSettled(e.table.entries, e.translation, spare, slot.value, AgreementOf(e, mode));
    }
  }

  /** Mapping `v` to the slot of a freshly stored page changes what `v` reads and nothing else. */
  lemma FreshReads(e: Engine, e1: Engine, f: Engine, v: nat, t: Translation, page: Page)
    requires e1.translation == e.translation && forall u :: u in e.translation ==> e1.Peek(u) == e.Peek(u)
    requires f.store == e1.store && f.translation == e1.translation[v := t]
    requires e1.ReadSlot(t.slot) == Some(page)
    ensures ReadsWith(e, f, v, page) && f.translation.Keys == e.translation.Keys + {v}
  {
    forall u
      ensures f.Peek(u) == if u == v then Some(page) else e.Peek(u)
    {
      if u != v && u in e.translation {
        assert e1.Peek(u) == e.Peek(u);
      }
    }
  }

  lemma WriteDirectKeeps(h: Hash, e: Engine, v: nat, page: Page, mode: ReleaseMode)
    requires Inv(h, e, mode)
    ensures var (f, ok) := e.WriteDirect(v, page, mode);
            && Inv(h, f, mode) && (ok <==> !e.alloc.Exhausted())
            && (ok ==> ReadsWith(e, f, v, page) && f.translation.Keys == e.translation.Keys + {v})
            && (!ok ==> f == e)
  {
    hide Owned, Settled, Table.Wf, ReadsWith;
    var spare := SpareOffset(e.translation, v);
    StoreFreshKeeps(h, e, page, spare, mode);
    var (e1, slot) := e.StoreFresh(page);
    if slot.Some? {
      ReplaceKeeps(h, e1.CountUnique(), v, DirectTo(slot.value), spare, mode);
      FreshReads(e, e1, e.WriteDirect(v, page, mode).0, v, DirectTo(slot.value), page);
    }
  }

  /** Tracked entries sit in pairwise different slots, none of them the held one. */
  lemma TrackedSlotsDiffer(h: Hash, e: Engine, spare: nat)
    requires Owns(h, e) && spare in e.translation && e.translation[spare].kind.Direct?
    ensures forall fp :: fp in e.table.entries ==>
              e.table.entries[fp].slot < e.alloc.next && e.table.entries[fp].slot != e.translation[spare].slot
    ensures forall fp, k :: fp in e.table.entries && k in e.table.entries && fp != k ==>
              e.table.entries[fp].slot != e.table.entries[k].slot
  {
    forall fp | fp in e.table.entries
      ensures e.table.entries[fp].slot < e.alloc.next && e.table.entries[fp].slot != e.translation[spare].slot
    {
      var u := TrackedSlotMapped(e.translation, e.table.entries, fp);
    }
    forall fp, k | fp in e.table.entries && k in e.table.entries && fp != k
      ensures e.table.entries[fp].slot != e.table.entries[k].slot
    {
      var u := TrackedSlotMapped(e.translation, e.table.entries, fp);
      var w := TrackedSlotMapped(e.translation, e.table.entries, k);
    }
  }

  /** Pigeonhole: entries in pairwise different slots below `n`. */
  lemma {:induction false} EntriesBelow(entries: Entries, keys: set<Fingerprint>, slots: set<nat>)
    requires keys <= entries.Keys
    requires forall fp :: fp in keys ==> entries[fp].slot in slots
    requires forall fp, k :: fp in keys && k in keys && fp != k ==> entries[fp].slot != entries[k].slot
    ensures |keys| <= |slots|
    decreases |keys|
  {
    if keys != {} {
      var fp :| fp in keys;
      EntriesBelow(entries, keys - {fp}, slots - {entries[fp].slot});
    }
  }

  function Below(n: nat): (s: set<nat>)
    ensures |s| == n && forall i: nat :: i in s <==> i < n
  {
    if n == 0 then {} else Below(n - 1) + {n - 1}
  }

  /** With as many entries as slots, a page waiting to be tracked always finds room, so
      eviction never runs. */
  lemma RoomForHeld(h: Hash, e: Engine, spare: nat)
    requires Owns(h, e) && spare in e.translation && e.translation[spare].kind.Direct?
    ensures |e.table.entries| < e.alloc.next <= e.alloc.max
  {
    TrackedSlotsDiffer(h, e, spare);
    var slots := Below(e.alloc.next) - {e.translation[spare].slot};
    EntriesBelow(e.table.entries, e.table.entries.Keys, slots);
  }

  lemma EvictInv(h: Hash, e: Engine, fp: Fingerprint, t: Table, mode: ReleaseMode)
    requires Inv(h, e, mode) && !Ample(e) && Evictable(e.table.entries, fp)
    requires t.Wf() && t.entries == e.table.entries - {fp} && t.maxEntries == e.table.maxEntries
    ensures Inv(h, e.(table := t), mode)
  {
    hide Owned, Clean, Table.Wf;
    EvictKeeps(h, e.table.entries, e.store, e.translation, e.alloc, fp);
  }

  lemma MakeRoomKeeps(h: Hash, e: Engine, spare: nat, mode: ReleaseMode)
    requires Inv(h, e, mode) && spare in e.translation && e.translation[spare].kind.Direct?
    ensures var (t, ok) := e.table.MakeRoom();
            && Inv(h, e.(table := t), mode)
            && (ok ==> |t.entries| < t.maxEntries) && (!ok ==> t.entries == e.table.entries)
            && (forall fp :: fp in t.entries ==> fp in e.table.entries)
            && t.maxEntries == e.table.maxEntries
  {
    hide Owned, Settled, Distinct, LruMatches;
    RoomForHeld(h, e, spare);
    if |e.table.entries| >= e.table.maxEntries {
      EvictPicksOldest(e.table);
      EvictKeepsWf(e.table);
      var (t, ok) := e.table.Evict();
      if ok {
        var s :| OldestEvictable(e.table, s) && t.entries == e.table.entries - {s.fp};
        EvictInv(h, e, s.fp, t, mode);
      }
    }
  }

  /** The page held at `spare` enters the index, or stays a direct mapping. */
  lemma InsertKeeps(h: Hash, e: Engine, fp: Fingerprint, page: Page, slot: nat, spare: nat, mode: ReleaseMode)
    requires Inv(h, e, mode) && spare in e.translation && e.translation[spare] == DirectTo(slot)
    requires slot < |e.store| && e.store[slot] == page && h(page) == fp
    requires mode == AsWritten && InsertAccepts(e.table, fp) ==> !HasOrphan(e, fp)
    ensures var (t, ok) := e.table.Insert(fp, page, slot);
            && (ok <==> InsertAccepts(e.table, fp))
            && Inv(h, e.(table := t, translation :=
                           e.translation[spare := if ok then DedupTo(fp, slot) else DirectTo(slot)]), mode)
  {
    hide Owned, Settled, Table.Wf;
    InsertRefuses(e.table, fp, page, slot);
    InsertKeepsWf(e.table, fp, page, slot);
    assert e.translation[spare := DirectTo(slot)] == e.translation;
    if fp !in e.table.entries {
      MakeRoomKeeps(h, e, spare, mode);
      var (roomy, ok) := e.table.MakeRoom();
      if ok {
        TrackKeeps(h, roomy.entries, e.store, e.translation, e.alloc, fp, slot, spare);
        if mode == AsWritten { NoOrphanToTrack(e, fp); }
        TrackSettled(roomy.entries, e.translation, fp, DedupEntry(1, slot, PagePrefix(page)), spare,
                     AgreementOf(e, mode));
      }
    }
  }

  lemma NoOrphanToTrack(e: Engine, fp: Fingerprint)
    requires fp !in e.table.entries && !HasOrphan(e, fp)
    ensures forall u :: u in e.translation ==> e.translation[u].kind != Deduplicated(fp)
  {
  }

  lemma SameOrphans(e: Engine, f: Engine, fp: Fingerprint)
    requires f.translation == e.translation && f.table.entries == e.table.entries
    requires f.table.maxEntries == e.table.maxEntries
    ensures HasOrphan(f, fp) <==> HasOrphan(e, fp)
    ensures InsertAccepts(f.table, fp) <==> InsertAccepts(e.table, fp)
  {
  }

  lemma SameReads(e: Engine, f: Engine, g: Engine, v: nat, page: Page)
    requires f.translation == e.translation && f.store == e.store
    requires ReadsWith(f, g, v, page)
    ensures ReadsWith(e, g, v, page)
  {
    assert forall u :: f.Peek(u) == e.Peek(u);
  }

  lemma HoldOrphans(e: Engine, fp: Fingerprint, spare: nat, slot: nat)
    requires spare !in e.translation && !HasOrphan(e, fp)
    ensures !HasOrphan(e.(translation := e.translation[spare := DirectTo(slot)]), fp)
  {
  }

  lemma WriteUniqueKeeps(h: Hash, e: Engine, v: nat, fp: Fingerprint, page: Page, mode: ReleaseMode)
    requires Inv(h, e, mode) && h(page) == fp
    requires mode == AsWritten && !e.alloc.Exhausted() && InsertAccepts(e.table, fp) ==> !HasOrphan(e, fp)
    ensures var (f, ok) := e.WriteUnique(v, fp, page, mode);
            && Inv(h, f, mode) && (ok <==> !e.alloc.Exhausted())
            && (ok ==> ReadsWith(e, f, v, page) && f.translation.Keys == e.translation.Keys + {v})
            && (!ok ==> f == e)
  {
    hide Owned, Settled, Table.Wf, HasOrphan, InsertAccepts, ReadsWith;
    var spare := SpareOffset(e.translation, v);
    StoreFreshKeeps(h, e, page, spare, mode);
    var (e1, slot) := e.StoreFresh(page);
    if slot.Some? {
      var held := e1.(translation := e1.translation[spare := DirectTo(slot.value)]);
      SameOrphans(e, e1, fp);
      if !HasOrphan(e1, fp) { HoldOrphans(e1, fp, spare, slot.value); }
      InsertKeeps(h, held, fp, page, slot.value, spare, mode);
      var (t, tracked) := e1.table.Insert(fp, page, slot.value);
      var entry := if tracked then DedupTo(fp, slot.value) else DirectTo(slot.value);
      assert held.translation[spare := entry] == e1.translation[spare := entry];
      ReplaceKeeps(h, e1.(table := t).CountUnique(), v, entry, spare, mode);
      FreshReads(e, e1, e.WriteUnique(v, fp, page, mode).0, v, entry, page);
    }
  }

  lemma TrackedInStore(h: Hash, e: Engine, fp: Fingerprint)
    requires Owns(h, e) && fp in e.table.entries
    ensures e.table.entries[fp].slot < |e.store|
  {
  }

  lemma ShareKeeps(h: Hash, e: Engine, v: nat, fp: Fingerprint, mode: ReleaseMode)
    requires Inv(h, e, mode) && fp in e.table.entries && e.table.entries[fp].refCount + 1 < TWO_32
    ensures var slot := e.table.entries[fp].slot;
            var f := e.(table := e.table.AddReference(fp).0).CountDuplicate().Replace(v, DedupTo(fp, slot), mode);
            && Inv(h, f, mode) && slot < |e.store|
            && ReadsWith(e, f, v, e.store[slot]) && f.translation.Keys == e.translation.Keys + {v}
  {
    hide Owned, Settled, Table.Wf;
    var spare := SpareOffset(e.translation, v);
    var slot := e.table.entries[fp].slot;
    TrackedInStore(h, e, fp);
    AddReferenceKeepsWf(e.table, fp);
    ReferenceKeeps(h, e.table.entries, e.store, e.translation, e.alloc, fp, spare);
    ReferenceSettled(e.table.entries, e.translation, fp,
                     WrappingIncrement(e.table.entries[fp].refCount), spare, AgreementOf(e, mode));
    ReplaceKeeps(h, e.(table := e.table.AddReference(fp).0).CountDuplicate(), v, DedupTo(fp, slot), spare, mode);
  }

  lemma LookupKeepsEntries(t: Table, fp: Fingerprint, page: Page)
    ensures t.Lookup(fp, page).0.entries == t.entries
  {
  }

  lemma LookupFindsStored(h: Hash, e: Engine, fp: Fingerprint, page: Page, mode: ReleaseMode)
    requires Inv(h, e, mode) && AlreadyStored(e, fp, page)
    ensures e.table.Lookup(fp, page).1 == Duplicate(e.table.entries[fp].slot)
  {
    LookupIgnoresFilter(e.table, fp, page);
    PrefixGuard(page, page);
  }

  lemma WriteDedupKeeps(h: Hash, e: Engine, v: nat, page: Page, mode: ReleaseMode)
    requires Inv(h, e, mode)
    requires AlreadyStored(e, h(page), page) ==> e.table.entries[h(page)].refCount + 1 < TWO_32
    requires mode == AsWritten && !e.alloc.Exhausted() && InsertAccepts(e.table, h(page)) ==> !HasOrphan(e, h(page))
    ensures var (f, ok) := e.WriteDedup(v, h(page), page, mode);
            && Inv(h, f, mode) && (ok <==> AlreadyStored(e, h(page), page) || !e.alloc.Exhausted())
            && (ok ==> ReadsWith(e, f, v, page) && f.translation.Keys == e.translation.Keys + {v})
            && (!ok ==> f.translation == e.translation && f.store == e.store && f.alloc == e.alloc
                        && f.table.entries == e.table.entries)
  {
    hide Owned, Settled, Table.Wf, HasOrphan, InsertAccepts, ReadsWith, Engine.WriteUnique, Engine.Replace;
    var fp := h(page);
    LookupIgnoresFilter(e.table, fp, page);
    if AlreadyStored(e, fp, page) { LookupFindsStored(h, e, fp, page, mode); }
    if fp in e.table.entries { TrackedInStore(h, e, fp); }
    var (t, r) := e.table.Lookup(fp, page);
    var e1 := e.(table := t);
    SameOrphans(e, e1, fp);
    match r
    case Miss =>
      WriteUniqueKeeps(h, e1, v, fp, page, mode);
      var (f, ok) := e1.WriteUnique(v, fp, page, mode);
      if ok { SameReads(e, e1, f, v, page); }
    case Duplicate(slot) =>
      if AlreadyStored(e, fp, page) {
        ShareKeeps(h, e1, v, fp, mode);
        SameReads(e, e1, e.WriteDedup(v, fp, page, mode).0, v, page);
      } else {
        WriteUniqueKeeps(h, e1, v, fp, page, mode);
        var (f, ok) := e1.WriteUnique(v, fp, page, mode);
        if ok { SameReads(e, e1, f, v, page); }
      }
  }
}
