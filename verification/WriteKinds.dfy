/** Which write counts as a duplicate: the one whose page finds a slot already owned. */
module WriteKinds {
  import opened Fingerprints
  import opened Dedup
  import opened Backend
  import opened Engines
  import opened Ownership
  import opened EngineSteps
  import opened Refinement
  import opened Conservation

  lemma ReplaceEffect(e: Engine, v: nat, t: Translation, mode: ReleaseMode)
    ensures var f := e.Replace(v, t, mode); f.translation == e.translation[v := t] && f.stats == e.stats
  {
    if v in e.translation {
      ReleaseLocal(e, e.translation[v := t], e.translation[v], mode);
    }
  }

  /** `f` counts a write at `v` that took a slot nobody owned in `e`. */
  ghost predicate CountsUnique(e: Engine, f: Engine, v: nat) {
    && f.stats.uniqueWrites == e.stats.uniqueWrites + 1 && f.stats.duplicateWrites == e.stats.duplicateWrites
    && v in f.translation && f.translation[v].slot !in OwnedSlots(e)
  }

  /** `f` counts a write at `v` that shares a slot owned in `e`. */
  ghost predicate CountsDuplicate(e: Engine, f: Engine, v: nat) {
    && f.stats.uniqueWrites == e.stats.uniqueWrites && f.stats.duplicateWrites == e.stats.duplicateWrites + 1
    && v in f.translation && f.translation[v].slot in OwnedSlots(e)
  }

  ghost predicate CountsNeither(e: Engine, f: Engine) {
    f.stats.uniqueWrites == e.stats.uniqueWrites && f.stats.duplicateWrites == e.stats.duplicateWrites
  }

  lemma FreshSlotUnowned(h: Hash, e: Engine, page: Page, mode: ReleaseMode)
    requires Inv(h, e, mode)
    ensures var (f, slot) := e.StoreFresh(page);
            && f.stats == e.stats && f.translation == e.translation
            && (slot.Some? ==> slot.value !in OwnedSlots(e))
  {
    hide Settled, Table.Wf;
    var slot := e.alloc.Allocate().1;
    if slot.Some? {
      var spare := SpareOffset(e.translation, 0);
      HoldKeeps(h, e.table.entries, e.store, e.translation, e.alloc, slot.value, page, spare);
    }
  }

  lemma DirectKind(h: Hash, e: Engine, v: nat, page: Page, mode: ReleaseMode)
    requires Inv(h, e, mode)
    ensures var (f, ok) := e.WriteDirect(v, page, mode); if ok then CountsUnique(e, f, v) else CountsNeither(e, f)
  {
    hide Inv, Engine.StoreFresh, Engine.Replace;
    FreshSlotUnowned(h, e, page, mode);
    var (e1, slot) := e.StoreFresh(page);
    if slot.Some? { ReplaceEffect(e1.CountUnique(), v, DirectTo(slot.value), mode); }
  }

  lemma UniqueKind(h: Hash, e: Engine, v: nat, fp: Fingerprint, page: Page, mode: ReleaseMode)
    requires Inv(h, e, mode)
    ensures var (f, ok) := e.WriteUnique(v, fp, page, mode); if ok then CountsUnique(e, f, v) else CountsNeither(e, f)
  {
    hide Inv, Engine.StoreFresh, Engine.Replace, Table.Insert;
    FreshSlotUnowned(h, e, page, mode);
    var (e1, slot) := e.StoreFresh(page);
    if slot.Some? {
      var (t, tracked) := e1.table.Insert(fp, page, slot.value);
      var entry := if tracked then DedupTo(fp, slot.value) else DirectTo(slot.value);
      ReplaceEffect(e1.(table := t).CountUnique(), v, entry, mode);
    }
  }

  lemma DedupKind(h: Hash, e: Engine, v: nat, page: Page, mode: ReleaseMode)
    requires Inv(h, e, mode)
    ensures var (f, ok) := e.WriteDedup(v, h(page), page, mode);
            if AlreadyStored(e, h(page), page) then ok && CountsDuplicate(e, f, v)
            else if ok then CountsUnique(e, f, v) else CountsNeither(e, f)
  {
    hide Owned, Settled, Table.Wf, Engine.WriteUnique, Engine.Replace, CountsUnique;
    var fp := h(page);
    LookupIgnoresFilter(e.table, fp, page);
    if fp in e.table.entries { TrackedInStore(h, e, fp); }
    var e1 := e.(table := e.table.Lookup(fp, page).0);
    if AlreadyStored(e, fp, page) {
      LookupFindsStored(h, e, fp, page, mode);
      var slot := e.table.entries[fp].slot;
      TrackedOwned(h, e, fp);
      ReplaceEffect(e1.(table := e1.table.AddReference(fp).0).CountDuplicate(), v, DedupTo(fp, slot), mode);
    } else {
      UniqueKind(h, e1, v, fp, page, mode);
      KindAlike(e, e1, e.WriteDedup(v, fp, page, mode).0, v);
    }
  }

  lemma TrackedOwned(h: Hash, e: Engine, fp: Fingerprint)
    requires Owns(h, e) && fp in e.table.entries
    ensures e.table.entries[fp].slot in OwnedSlots(e)
  {
    var u := TrackedSlotMapped(e.translation, e.table.entries, fp);
  }

  lemma KindAlike(e: Engine, e1: Engine, f: Engine, v: nat)
    requires e1.translation == e.translation && e1.stats.uniqueWrites == e.stats.uniqueWrites
    requires e1.stats.duplicateWrites == e.stats.duplicateWrites
    ensures CountsUnique(e1, f, v) ==> CountsUnique(e, f, v)
    ensures CountsDuplicate(e1, f, v) ==> CountsDuplicate(e, f, v)
    ensures CountsNeither(e1, f) ==> CountsNeither(e, f)
  {
  }

  /** In every state of the invariant a successful write counts as a duplicate, and shares a
      slot already owned, exactly when its page is stored and passthrough is off; any other
      counts as unique and maps a slot that nobody owned. A failed write counts as neither. */
  lemma WriteKind(h: Hash, e: Engine, v: nat, data: seq<Byte>, mode: ReleaseMode)
    requires Inv(h, e, mode)
    ensures var (f, ok) := e.HandleWrite(h, v, data, mode);
            if !ok then CountsNeither(e, f)
            else if NeedsSlot(h, e, data) then CountsUnique(e, f, v) else CountsDuplicate(e, f, v)
  {
    hide Inv, Engine.WriteDirect, Engine.WriteDedup, CountsUnique, CountsDuplicate, AlreadyStored, NormalizePage;
    var page := NormalizePage(data);
    var e1 := e.(stats := e.stats.(totalWrites := e.stats.totalWrites + 1));
    InvIgnoresStats(h, e, e1.stats, e.passthrough, mode);
    SameStored(e, e1, h(page), page);
    KindAlike(e, e1, e.HandleWrite(h, v, data, mode).0, v);
    if e.passthrough { DirectKind(h, e1, v, page, mode); } else { DedupKind(h, e1, v, page, mode); }
  }
}
