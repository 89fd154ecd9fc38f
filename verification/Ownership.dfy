/** Who owns each backend slot: the invariant that ties the index, the store, the
    translations and the allocator together, and how each primitive keeps it.

    A page being written is held at a `spare` offset that no translation uses until it
    replaces the old mapping, so every intermediate state satisfies the invariant too. */
module Ownership {
  import opened Fingerprints
  import opened Dedup
  import opened Backend

  /** The offsets mapped exactly to `t`. */
  ghost function Sharers(tr: Translations, t: Translation): set<nat> {
    set u | u in tr && tr[u] == t
  }

  /** `t` is counted by the index. Every other translation owns its slot privately. */
  ghost predicate Tracked(entries: Entries, t: Translation) {
    t.kind.Deduplicated? && t.kind.fp in entries && entries[t.kind.fp].slot == t.slot
  }

  /** `t` names a tracked fingerprint that now lives in another slot. */
  ghost predicate Stale(entries: Entries, t: Translation) {
    t.kind.Deduplicated? && t.kind.fp in entries && entries[t.kind.fp].slot != t.slot
  }

  ghost predicate QueueOk(a: Allocator) {
    && a.next <= a.max
    && (forall i :: i in a.free ==> i < a.next)
    && (forall i, j :: 0 <= i < j < |a.free| ==> a.free[i] != a.free[j])
  }

  ghost predicate Placed(tr: Translations, a: Allocator) {
    forall u :: u in tr ==> tr[u].slot < a.next && tr[u].slot !in a.free
  }

  ghost predicate Exclusive(tr: Translations, entries: Entries) {
    forall u, w :: u in tr && w in tr && u != w && tr[u].slot == tr[w].slot ==>
      tr[u] == tr[w] && Tracked(entries, tr[u])
  }

  ghost predicate Counted(tr: Translations, entries: Entries) {
    forall fp :: fp in entries ==>
      entries[fp].refCount == |Sharers(tr, DedupTo(fp, entries[fp].slot))| && entries[fp].refCount >= 1
  }

  ghost predicate NoLeak(tr: Translations, a: Allocator) {
    forall i :: 0 <= i < a.next && i !in a.free ==> exists u :: u in tr && tr[u].slot == i
  }

  /** Each tracked slot holds a page with that fingerprint and that prefix. */
  ghost predicate Indexed(h: Hash, entries: Entries, store: seq<Page>) {
    forall fp :: fp in entries ==>
      && entries[fp].slot < |store|
      && h(store[entries[fp].slot]) == fp
      && entries[fp].prefix == PagePrefix(store[entries[fp].slot])
  }

  ghost predicate Owned(h: Hash, entries: Entries, store: seq<Page>, tr: Translations, a: Allocator) {
    && |store| == a.max && QueueOk(a)
    && Placed(tr, a) && Exclusive(tr, entries) && Counted(tr, entries) && NoLeak(tr, a)
    && Indexed(h, entries, store)
  }

  /** Every translation of a tracked fingerprint uses its slot, and an untracked
      fingerprint has at most one translation. */
  ghost predicate Clean(entries: Entries, tr: Translations) {
    && (forall u :: u in tr ==> !Stale(entries, tr[u]))
    && (forall u, w :: u in tr && w in tr && u != w && tr[u].kind.Deduplicated? && tr[u].kind == tr[w].kind ==>
          tr[u].kind.fp in entries)
  }

  /** Nothing mapped has been evicted: every deduplicated translation is tracked. */
  ghost predicate Orphanless(entries: Entries, tr: Translations) {
    forall u :: u in tr && tr[u].kind.Deduplicated? ==> Tracked(entries, tr[u])
  }

  /** How far index and translations must agree. */
  datatype Agreement = Agreement(clean: bool, orphanless: bool)

  ghost predicate Settled(entries: Entries, tr: Translations, g: Agreement) {
    (g.clean ==> Clean(entries, tr)) && (g.orphanless ==> Orphanless(entries, tr))
  }

  // ----- Small facts -----

  lemma CardAtLeastTwo(s: set<nat>, u: nat, w: nat)
    requires u in s && w in s && u != w
    ensures |s| >= 2
  {
    assert {u, w} <= s;
    assert s == {u, w} + (s - {u, w});
    assert |s| == |{u, w}| + |s - {u, w}|;
  }

  lemma CardSubset(s: set<nat>, t: set<nat>)
    requires s <= t
    ensures |s| <= |t|
  {
    assert t == s + (t - s);
    assert |t| == |s| + |t - s|;
  }

  /** A tracked entry has a live translation, hence an owned slot. */
  lemma TrackedSlotMapped(tr: Translations, entries: Entries, fp: Fingerprint) returns (u: nat)
    requires Counted(tr, entries) && fp in entries
    ensures u in tr && tr[u] == DedupTo(fp, entries[fp].slot)
  {
    var s := Sharers(tr, DedupTo(fp, entries[fp].slot));
    assert s != {};
    u :| u in s;
  }

  // ----- Mapping one more offset, or one less -----

  lemma SharersAdd(tr: Translations, spare: nat, t: Translation, x: Translation)
    requires spare !in tr
    ensures Sharers(tr[spare := t], x) == Sharers(tr, x) + if t == x then {spare} else {}
  {
  }

  lemma SharersDrop(tr: Translations, u: nat, x: Translation)
    requires u in tr
    ensures Sharers(tr - {u}, x) == Sharers(tr, x) - {u}
    ensures tr[u] == x ==> |Sharers(tr - {u}, x)| == |Sharers(tr, x)| - 1
    ensures tr[u] != x ==> Sharers(tr - {u}, x) == Sharers(tr, x)
  {
    assert Sharers(tr - {u}, x) == Sharers(tr, x) - {u};
  }

  lemma NoLeakAdd(tr: Translations, a: Allocator, b: Allocator, spare: nat, t: Translation)
    requires NoLeak(tr, a) && spare !in tr
    requires forall i :: 0 <= i < b.next && i !in b.free && i != t.slot ==> i < a.next && i !in a.free
    ensures NoLeak(tr[spare := t], b)
  {
    var tr' := tr[spare := t];
    forall i | 0 <= i < b.next && i !in b.free
      ensures exists u :: u in tr' && tr'[u].slot == i
    {
      if i == t.slot {
        assert tr'[spare].slot == i;
      } else {
        var u :| u in tr && tr[u].slot == i;
        assert tr'[u].slot == i;
      }
    }
  }

  lemma NoLeakDrop(tr: Translations, a: Allocator, b: Allocator, u: nat)
    requires NoLeak(tr, a) && u in tr && b.next == a.next
    requires forall i :: i in a.free ==> i in b.free
    requires tr[u].slot in b.free || exists w :: w in tr && w != u && tr[w].slot == tr[u].slot
    ensures NoLeak(tr - {u}, b)
  {
    var tr' := tr - {u};
    forall i | 0 <= i < b.next && i !in b.free
      ensures exists w :: w in tr' && tr'[w].slot == i
    {
      var w :| w in tr && tr[w].slot == i;
      if w == u {
        var x :| x in tr && x != u && tr[x].slot == tr[u].slot;
        assert tr'[x].slot == i;
      } else {
        assert tr'[w].slot == i;
      }
    }
  }

  lemma ExclusiveAdd(tr: Translations, entries: Entries, spare: nat, t: Translation)
    requires Exclusive(tr, entries) && spare !in tr
    requires forall u :: u in tr && tr[u].slot == t.slot ==> tr[u] == t && Tracked(entries, t)
    ensures Exclusive(tr[spare := t], entries)
  {
  }

  /** A change of the index that keeps every shared translation tracked. */
  lemma ExclusiveReindex(tr: Translations, entries: Entries, entries': Entries)
    requires Exclusive(tr, entries)
    requires forall u, w :: u in tr && w in tr && u != w && tr[u] == tr[w] && Tracked(entries, tr[u]) ==>
               Tracked(entries', tr[u])
    ensures Exclusive(tr, entries')
  {
  }

  lemma ExclusiveDrop(tr: Translations, entries: Entries, u: nat)
    requires Exclusive(tr, entries) && u in tr
    ensures Exclusive(tr - {u}, entries)
  {
  }

  // ----- Allocation: the fresh page is held at `spare` -----

  lemma AllocateQueue(a: Allocator, slot: nat)
    requires QueueOk(a) && a.Allocate().1 == Some(slot)
    ensures var b := a.Allocate().0;
            && QueueOk(b) && slot < b.next && slot !in b.free && a.next <= b.next && b.max == a.max
            && (forall i :: i in b.free ==> i in a.free)
            && (forall i :: 0 <= i < b.next && i !in b.free && i != slot ==> i < a.next && i !in a.free)
            && (slot in a.free || slot >= a.next)
  {
    if a.free != [] {
      assert a.free[0] in a.free;
      assert forall i :: 0 <= i < |a.free| - 1 ==> a.free[1..][i] == a.free[i + 1];
      assert forall i :: i in a.free <==> i == a.free[0] || i in a.free[1..];
    }
  }

  lemma HoldKeeps(h: Hash, entries: Entries, store: seq<Page>, tr: Translations, a: Allocator,
                  slot: nat, page: Page, spare: nat)
    requires Owned(h, entries, store, tr, a) && a.Allocate().1 == Some(slot) && spare !in tr
    ensures slot < |store|
    ensures forall u :: u in tr ==> tr[u].slot != slot
    ensures Owned(h, entries, store[slot := page], tr[spare := DirectTo(slot)], a.Allocate().0)
  {
    hide Counted, NoLeak, Exclusive, Indexed;
    AllocateQueue(a, slot);
    var t := DirectTo(slot);
    TrackedNotHeld(tr, entries, slot);
    ExclusiveAdd(tr, entries, spare, t);
    NoLeakAdd(tr, a, a.Allocate().0, spare, t);
    HoldCounted(tr, entries, spare, slot);
    StoreElsewhere(h, entries, store, slot, page);
  }

  lemma TrackedNotHeld(tr: Translations, entries: Entries, slot: nat)
    requires Counted(tr, entries) && forall u :: u in tr ==> tr[u].slot != slot
    ensures forall fp :: fp in entries ==> entries[fp].slot != slot
  {
    forall fp | fp in entries
      ensures entries[fp].slot != slot
    {
      var u := TrackedSlotMapped(tr, entries, fp);
    }
  }

  lemma HoldCounted(tr: Translations, entries: Entries, spare: nat, slot: nat)
    requires Counted(tr, entries) && spare !in tr
    ensures Counted(tr[spare := DirectTo(slot)], entries)
  {
    forall fp | fp in entries
      ensures Sharers(tr[spare := DirectTo(slot)], DedupTo(fp, entries[fp].slot)) == Sharers(tr, DedupTo(fp, entries[fp].slot))
    {
      SharersAdd(tr, spare, DirectTo(slot), DedupTo(fp, entries[fp].slot));
    }
  }

  lemma StoreElsewhere(h: Hash, entries: Entries, store: seq<Page>, slot: nat, page: Page)
    requires Indexed(h, entries, store) && slot < |store| && forall fp :: fp in entries ==> entries[fp].slot != slot
    ensures Indexed(h, entries, store[slot := page])
  {
  }

  // ----- The index -----

  lemma EvictKeeps(h: Hash, entries: Entries, store: seq<Page>, tr: Translations, a: Allocator, fp: Fingerprint)
    requires Owned(h, entries, store, tr, a) && Evictable(entries, fp)
    ensures Owned(h, entries - {fp}, store, tr, a)
    ensures Clean(entries, tr) ==> Clean(entries - {fp}, tr)
  {
    hide Counted, NoLeak, Exclusive, Indexed, Clean;
    SingleNotShared(tr, entries, fp);
    ExclusiveReindex(tr, entries, entries - {fp});
    EvictCounted(tr, entries, fp);
    IndexedSubset(h, entries, entries - {fp}, store);
    if Clean(entries, tr) {
      EvictKeepsClean(entries, tr, fp);
    }
  }

  lemma SingleNotShared(tr: Translations, entries: Entries, fp: Fingerprint)
    requires Counted(tr, entries) && Evictable(entries, fp)
    ensures forall u, w :: u in tr && w in tr && u != w && tr[u] == tr[w] && Tracked(entries, tr[u]) ==>
              tr[u].kind.fp != fp
  {
    forall u, w | u in tr && w in tr && u != w && tr[u] == tr[w] && Tracked(entries, tr[u])
      ensures tr[u].kind.fp != fp
    {
      CardAtLeastTwo(Sharers(tr, tr[u]), u, w);
    }
  }

  lemma EvictCounted(tr: Translations, entries: Entries, fp: Fingerprint)
    requires Counted(tr, entries)
    ensures Counted(tr, entries - {fp})
  {
  }

  lemma EvictKeepsClean(entries: Entries, tr: Translations, fp: Fingerprint)
    requires Clean(entries, tr) && fp in entries
    requires forall u, w :: u in tr && w in tr && u != w && tr[u] == tr[w] && Tracked(entries, tr[u]) ==>
               tr[u].kind.fp != fp
    ensures Clean(entries - {fp}, tr)
  {
    forall u, w | u in tr && w in tr && u != w && tr[u].kind.Deduplicated? && tr[u].kind == tr[w].kind
      ensures tr[u].kind.fp in entries - {fp}
    {
      assert !Stale(entries, tr[u]) && !Stale(entries, tr[w]);
      assert tr[u] == tr[w];
    }
  }

  lemma TrackKeeps(h: Hash, entries: Entries, store: seq<Page>, tr: Translations, a: Allocator,
                   fp: Fingerprint, slot: nat, spare: nat)
    requires Owned(h, entries, store, tr, a)
    requires spare in tr && tr[spare] == DirectTo(slot)
    requires fp !in entries && slot < |store| && h(store[slot]) == fp
    ensures Owned(h, entries[fp := DedupEntry(1, slot, PagePrefix(store[slot]))], store,
                  tr[spare := DedupTo(fp, slot)], a)
  {
    assert forall u :: u in tr && u != spare ==> tr[u].slot != slot;
    TrackExclusive(tr, entries, fp, DedupEntry(1, slot, PagePrefix(store[slot])), spare);
    TrackCounted(tr, entries, fp, DedupEntry(1, slot, PagePrefix(store[slot])), spare);
    Remapped(tr, a, spare, DedupTo(fp, slot));
  }

  lemma TrackExclusive(tr: Translations, entries: Entries, fp: Fingerprint, entry: DedupEntry, spare: nat)
    requires Exclusive(tr, entries) && fp !in entries && spare in tr
    requires forall u :: u in tr && u != spare ==> tr[u].slot != entry.slot
    ensures Exclusive(tr[spare := DedupTo(fp, entry.slot)], entries[fp := entry])
  {
    var bare := tr - {spare};
    assert tr[spare := DedupTo(fp, entry.slot)] == bare[spare := DedupTo(fp, entry.slot)];
    ExclusiveDrop(tr, entries, spare);
    ExclusiveReindex(bare, entries, entries[fp := entry]);
    ExclusiveAdd(bare, entries[fp := entry], spare, DedupTo(fp, entry.slot));
  }

  lemma TrackCounted(tr: Translations, entries: Entries, fp: Fingerprint, entry: DedupEntry, spare: nat)
    requires Counted(tr, entries) && fp !in entries && spare in tr && tr[spare] == DirectTo(entry.slot)
    requires entry.refCount == 1 && forall u :: u in tr && u != spare ==> tr[u].slot != entry.slot
    ensures Counted(tr[spare := DedupTo(fp, entry.slot)], entries[fp := entry])
  {
    var t := DedupTo(fp, entry.slot);
    assert Sharers(tr[spare := t], t) == {spare};
    forall k | k in entries
      ensures Sharers(tr[spare := t], DedupTo(k, entries[k].slot)) == Sharers(tr, DedupTo(k, entries[k].slot))
    {
    }
  }

  /** Changing the kind of one translation moves no slot. */
  lemma Remapped(tr: Translations, a: Allocator, u: nat, t: Translation)
    requires u in tr && tr[u].slot == t.slot && Placed(tr, a) && NoLeak(tr, a)
    ensures Placed(tr[u := t], a) && NoLeak(tr[u := t], a)
  {
    var tr' := tr[u := t];
    forall i | 0 <= i < a.next && i !in a.free
      ensures exists w :: w in tr' && tr'[w].slot == i
    {
      var w :| w in tr && tr[w].slot == i;
      assert tr'[w].slot == i;
    }
  }

  lemma TrackSettled(entries: Entries, tr: Translations, fp: Fingerprint, entry: DedupEntry, spare: nat, g: Agreement)
    requires Settled(entries, tr, g) && spare in tr && tr[spare] == DirectTo(entry.slot) && fp !in entries
    requires g.clean ==> forall u :: u in tr ==> tr[u].kind != Deduplicated(fp)
    ensures Settled(entries[fp := entry], tr[spare := DedupTo(fp, entry.slot)], g)
  {
  }

  lemma ReferenceKeeps(h: Hash, entries: Entries, store: seq<Page>, tr: Translations, a: Allocator,
                       fp: Fingerprint, spare: nat)
    requires Owned(h, entries, store, tr, a) && fp in entries && spare !in tr && entries[fp].refCount + 1 < TWO_32
    ensures var e := entries[fp];
            Owned(h, entries[fp := e.(refCount := WrappingIncrement(e.refCount))], store,
                  tr[spare := DedupTo(fp, e.slot)], a)
  {
    hide Counted, NoLeak;
    var t := DedupTo(fp, entries[fp].slot);
    var u := TrackedSlotMapped(tr, entries, fp);
    forall w | w in tr && tr[w].slot == t.slot
      ensures tr[w] == t
    {
      assert w == u || tr[w] == tr[u];
    }
    ReferenceExclusive(tr, entries, fp, WrappingIncrement(entries[fp].refCount), spare);
    ReferenceCounted(tr, entries, fp, spare);
    NoLeakAdd(tr, a, a, spare, t);
  }

  lemma ReferenceExclusive(tr: Translations, entries: Entries, fp: Fingerprint, count: Count32, spare: nat)
    requires Exclusive(tr, entries) && fp in entries && spare !in tr
    requires forall w :: w in tr && tr[w].slot == entries[fp].slot ==> tr[w] == DedupTo(fp, entries[fp].slot)
    ensures Exclusive(tr[spare := DedupTo(fp, entries[fp].slot)], entries[fp := entries[fp].(refCount := count)])
  {
    ExclusiveReindex(tr, entries, entries[fp := entries[fp].(refCount := count)]);
    ExclusiveAdd(tr, entries[fp := entries[fp].(refCount := count)], spare, DedupTo(fp, entries[fp].slot));
  }

  lemma ReferenceCounted(tr: Translations, entries: Entries, fp: Fingerprint, spare: nat)
    requires Counted(tr, entries) && fp in entries && spare !in tr && entries[fp].refCount + 1 < TWO_32
    ensures Counted(tr[spare := DedupTo(fp, entries[fp].slot)],
                    entries[fp := entries[fp].(refCount := WrappingIncrement(entries[fp].refCount))])
  {
    var t := DedupTo(fp, entries[fp].slot);
    SharersAdd(tr, spare, t, t);
    forall k | k in entries && k != fp
      ensures Sharers(tr[spare := t], DedupTo(k, entries[k].slot)) == Sharers(tr, DedupTo(k, entries[k].slot))
    {
      SharersAdd(tr, spare, t, DedupTo(k, entries[k].slot));
    }
  }

  lemma ReferenceSettled(entries: Entries, tr: Translations, fp: Fingerprint, count: Count32, spare: nat, g: Agreement)
    requires Settled(entries, tr, g) && fp in entries && spare !in tr
    ensures Settled(entries[fp := entries[fp].(refCount := count)], tr[spare := DedupTo(fp, entries[fp].slot)], g)
  {
  }

  // ----- Releasing a translation -----

  lemma FreeKeepsQueue(a: Allocator, slot: nat)
    requires QueueOk(a) && slot < a.next && slot !in a.free
    ensures var b := a.Free(slot);
            QueueOk(b) && b.next == a.next && b.max == a.max
            && forall i :: i in b.free <==> i in a.free || i == slot
  {
  }

  /** The last owner of a slot gives it back. */
  lemma FreeLastOwner(h: Hash, entries: Entries, entries': Entries, store: seq<Page>, tr: Translations,
                      a: Allocator, u: nat)
    requires Owned(h, entries, store, tr, a) && u in tr
    requires forall w :: w in tr && w != u ==> tr[w].slot != tr[u].slot
    requires entries' == if Tracked(entries, tr[u]) then entries - {tr[u].kind.fp} else entries
    ensures Owned(h, entries', store, tr - {u}, a.Free(tr[u].slot))
  {
    hide Counted, NoLeak, Indexed;
    FreeKeepsQueue(a, tr[u].slot);
    NoLeakDrop(tr, a, a.Free(tr[u].slot), u);
    ExclusiveDrop(tr, entries, u);
    ExclusiveReindex(tr - {u}, entries, entries');
    FreeCounted(tr, entries, entries', u);
    IndexedSubset(h, entries, entries', store);
  }

  lemma FreeCounted(tr: Translations, entries: Entries, entries': Entries, u: nat)
    requires Counted(tr, entries) && u in tr
    requires entries' == if Tracked(entries, tr[u]) then entries - {tr[u].kind.fp} else entries
    ensures Counted(tr - {u}, entries')
  {
    forall k | k in entries'
      ensures Sharers(tr - {u}, DedupTo(k, entries'[k].slot)) == Sharers(tr, DedupTo(k, entries[k].slot))
    {
      SharersDrop(tr, u, DedupTo(k, entries[k].slot));
    }
  }

  lemma IndexedSubset(h: Hash, entries: Entries, entries': Entries, store: seq<Page>)
    requires Indexed(h, entries, store) && forall k :: k in entries' ==> k in entries && entries'[k] == entries[k]
    ensures Indexed(h, entries', store)
  {
  }

  lemma DropReference(h: Hash, entries: Entries, store: seq<Page>, tr: Translations, a: Allocator,
                      fp: Fingerprint, u: nat)
    requires Owned(h, entries, store, tr, a) && fp in entries && u in tr && tr[u] == DedupTo(fp, entries[fp].slot)
    requires entries[fp].refCount > 1
    ensures Owned(h, Decremented(entries, fp), store, tr - {u}, a)
  {
    DropCounted(tr, entries, fp, u);
    DropExclusive(tr, entries, fp, u);
    var other := OtherSharer(tr, entries, u);
    NoLeakDrop(tr, a, a, u);
  }

  ghost function Decremented(entries: Entries, fp: Fingerprint): Entries
    requires fp in entries
  {
    entries[fp := entries[fp].(refCount := WrappingDecrement(entries[fp].refCount))]
  }

  lemma DropExclusive(tr: Translations, entries: Entries, fp: Fingerprint, u: nat)
    requires Exclusive(tr, entries) && fp in entries && u in tr
    ensures Exclusive(tr - {u}, Decremented(entries, fp))
  {
    ExclusiveDrop(tr, entries, u);
    ExclusiveReindex(tr - {u}, entries, Decremented(entries, fp));
  }

  lemma OtherSharer(tr: Translations, entries: Entries, u: nat) returns (w: nat)
    requires Counted(tr, entries) && u in tr && Tracked(entries, tr[u]) && entries[tr[u].kind.fp].refCount > 1
    ensures w in tr && w != u && tr[w].slot == tr[u].slot
  {
    var s := Sharers(tr, tr[u]);
    assert u in s && |s - {u}| == |s| - 1;
    assert s - {u} != {};
    w :| w in s - {u};
  }

  lemma DropCounted(tr: Translations, entries: Entries, fp: Fingerprint, u: nat)
    requires Counted(tr, entries) && fp in entries && u in tr && tr[u] == DedupTo(fp, entries[fp].slot)
    requires entries[fp].refCount > 1
    ensures Counted(tr - {u}, Decremented(entries, fp))
  {
    SharersDrop(tr, u, tr[u]);
    forall k | k in entries && k != fp
      ensures Sharers(tr - {u}, DedupTo(k, entries[k].slot)) == Sharers(tr, DedupTo(k, entries[k].slot))
    {
      SharersDrop(tr, u, DedupTo(k, entries[k].slot));
    }
  }

  lemma SoleSharer(h: Hash, entries: Entries, store: seq<Page>, tr: Translations, a: Allocator, u: nat)
    requires Owned(h, entries, store, tr, a) && u in tr
    requires Tracked(entries, tr[u]) ==> entries[tr[u].kind.fp].refCount <= 1
    ensures forall w :: w in tr && w != u ==> tr[w].slot != tr[u].slot
  {
    forall w | w in tr && w != u && tr[w].slot == tr[u].slot
      ensures false
    {
      CardAtLeastTwo(Sharers(tr, tr[u]), u, w);
    }
  }

  // ----- Moving the held page to its offset -----

  lemma MoveKeeps(h: Hash, entries: Entries, store: seq<Page>, tr: Translations, a: Allocator, spare: nat, v: nat)
    requires Owned(h, entries, store, tr, a) && spare in tr && v !in tr
    ensures Owned(h, entries, store, (tr - {spare})[v := tr[spare]], a)
  {
    hide Counted, NoLeak, Indexed;
    var t := tr[spare];
    var bare := tr - {spare};
    ExclusiveDrop(tr, entries, spare);
    forall u | u in bare && bare[u].slot == t.slot
      ensures bare[u] == t && Tracked(entries, t)
    {
      assert tr[u].slot == tr[spare].slot;
    }
    ExclusiveAdd(bare, entries, v, t);
    MoveCounted(tr, entries, spare, v);
    NoLeakMove(tr, a, spare, v);
  }

  lemma MoveCounted(tr: Translations, entries: Entries, spare: nat, v: nat)
    requires Counted(tr, entries) && spare in tr && v !in tr
    ensures Counted((tr - {spare})[v := tr[spare]], entries)
  {
    var bare := tr - {spare};
    forall k | k in entries
      ensures |Sharers(bare[v := tr[spare]], DedupTo(k, entries[k].slot))| == |Sharers(tr, DedupTo(k, entries[k].slot))|
    {
      SharersDrop(tr, spare, DedupTo(k, entries[k].slot));
      SharersAdd(bare, v, tr[spare], DedupTo(k, entries[k].slot));
    }
  }

  lemma NoLeakMove(tr: Translations, a: Allocator, spare: nat, v: nat)
    requires NoLeak(tr, a) && spare in tr && v !in tr
    ensures NoLeak((tr - {spare})[v := tr[spare]], a)
  {
    var tr' := (tr - {spare})[v := tr[spare]];
    forall i | 0 <= i < a.next && i !in a.free
      ensures exists w :: w in tr' && tr'[w].slot == i
    {
      var w :| w in tr && tr[w].slot == i;
      assert tr'[if w == spare then v else w].slot == i;
    }
  }

  lemma MoveSettled(entries: Entries, tr: Translations, spare: nat, v: nat, g: Agreement)
    requires Settled(entries, tr, g) && spare in tr && v !in tr
    ensures Settled(entries, (tr - {spare})[v := tr[spare]], g)
  {
    var tr' := (tr - {spare})[v := tr[spare]];
    if g.clean {
      forall x, w | x in tr' && w in tr' && x != w && tr'[x].kind.Deduplicated? && tr'[x].kind == tr'[w].kind
        ensures tr'[x].kind.fp in entries
      {
        var x0 := if x == v then spare else x;
        var w0 := if w == v then spare else w;
        assert tr[x0].kind == tr[w0].kind;
      }
    }
  }

  // ----- Agreement through the remaining primitives -----

  lemma HoldSettled(entries: Entries, tr: Translations, spare: nat, slot: nat, g: Agreement)
    requires Settled(entries, tr, g) && spare !in tr
    ensures Settled(entries, tr[spare := DirectTo(slot)], g)
  {
  }

  lemma DropSettled(entries: Entries, tr: Translations, u: nat, g: Agreement)
    requires Settled(entries, tr, g)
    ensures Settled(entries, tr - {u}, g)
  {
  }

  lemma RecountSettled(entries: Entries, tr: Translations, fp: Fingerprint, count: Count32, g: Agreement)
    requires Settled(entries, tr, g) && fp in entries
    ensures Settled(entries[fp := entries[fp].(refCount := count)], tr, g)
  {
  }

  /** Forgetting a fingerprint together with its last translation. */
  lemma LastSettled(entries: Entries, tr: Translations, u: nat, g: Agreement)
    requires Settled(entries, tr, g) && u in tr && Tracked(entries, tr[u])
    requires forall w :: w in tr && w != u ==> tr[w].slot != tr[u].slot
    ensures Settled(entries - {tr[u].kind.fp}, tr - {u}, g)
  {
  }
}
