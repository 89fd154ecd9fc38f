/** Slots and references are conserved in every state of the ownership invariant. */
module Conservation {
  import opened Fingerprints
  import opened BloomFilters
  import opened Dedup
  import opened Backend
  import opened Engines
  import opened Ownership
  import opened EngineSteps
  import opened Refinement

  // ----- Counting images -----

  function SlotsOf(tr: Translations, us: set<nat>): set<nat>
    requires us <= tr.Keys
  {
    set u | u in us :: tr[u].slot
  }

  function EntrySlots(entries: Entries, keys: set<Fingerprint>): set<nat>
    requires keys <= entries.Keys
  {
    set fp | fp in keys :: entries[fp].slot
  }

  lemma {:induction false} SlotsOfCount(tr: Translations, us: set<nat>)
    requires us <= tr.Keys && forall u, w :: u in us && w in us && u != w ==> tr[u].slot != tr[w].slot
    ensures |SlotsOf(tr, us)| == |us|
    decreases |us|
  {
    if us != {} {
      var u :| u in us;
      SlotsOfCount(tr, us - {u});
      assert SlotsOf(tr, us) == SlotsOf(tr, us - {u}) + {tr[u].slot};
    }
  }

  lemma {:induction false} EntrySlotsCount(entries: Entries, keys: set<Fingerprint>)
    requires keys <= entries.Keys
    requires forall fp, k :: fp in keys && k in keys && fp != k ==> entries[fp].slot != entries[k].slot
    ensures |EntrySlots(entries, keys)| == |keys|
    decreases |keys|
  {
    if keys != {} {
      var fp :| fp in keys;
      EntrySlotsCount(entries, keys - {fp});
      assert EntrySlots(entries, keys) == EntrySlots(entries, keys - {fp}) + {entries[fp].slot};
    }
  }

  function QueueSet(q: seq<nat>): set<nat> {
    set i: nat | i in q
  }

  lemma {:induction false} QueueCount(q: seq<nat>)
    requires forall i, j :: 0 <= i < j < |q| ==> q[i] != q[j]
    ensures |QueueSet(q)| == |q|
  {
    if q != [] {
      var rest := q[..|q| - 1];
      var x := q[|q| - 1];
      QueueCount(rest);
      assert forall i :: i in q <==> i in rest || i == x;
      assert QueueSet(q) == QueueSet(rest) + {x};
    }
  }

  // ----- The partition of slots -----

  function Queued(e: Engine): set<nat> {
    QueueSet(e.alloc.free)
  }

  function DirectOffsets(e: Engine): set<nat> {
    set u | u in e.translation && e.translation[u].kind.Direct?
  }

  /** Offsets whose metadata was evicted while they stayed mapped. */
  ghost function OrphanOffsets(e: Engine): set<nat> {
    set u | u in e.translation && e.translation[u].kind.Deduplicated? && !Tracked(e.table.entries, e.translation[u])
  }

  function OwnedSlots(e: Engine): set<nat> {
    set u | u in e.translation :: e.translation[u].slot
  }

  lemma PrivateSlotsDiffer(h: Hash, e: Engine, u: nat, w: nat)
    requires Owns(h, e) && u in e.translation && w in e.translation && u != w
    requires !Tracked(e.table.entries, e.translation[u])
    ensures e.translation[u].slot != e.translation[w].slot
  {
  }

  lemma EntrySlotsDiffer(h: Hash, e: Engine, fp: Fingerprint, k: Fingerprint)
    requires Owns(h, e) && fp in e.table.entries && k in e.table.entries && fp != k
    ensures e.table.entries[fp].slot != e.table.entries[k].slot
  {
    var u := TrackedSlotMapped(e.translation, e.table.entries, fp);
    var w := TrackedSlotMapped(e.translation, e.table.entries, k);
  }

  /** A slot below the counter is queued, owned by one direct mapping, owned by one
      evicted mapping, or the slot of one tracked page. */
  ghost predicate HasOneOwner(e: Engine, i: nat) {
    InExactlyOne(Queued(e), SlotsOf(e.translation, DirectOffsets(e)), SlotsOf(e.translation, OrphanOffsets(e)),
                 EntrySlots(e.table.entries, e.table.entries.Keys), i)
  }

  ghost predicate InExactlyOne(a: set<nat>, b: set<nat>, c: set<nat>, d: set<nat>, i: nat) {
    && (i in a || i in b || i in c || i in d)
    && !(i in a && i in b) && !(i in a && i in c) && !(i in a && i in d)
    && !(i in b && i in c) && !(i in b && i in d) && !(i in c && i in d)
  }

  lemma OneOwner(h: Hash, e: Engine, i: nat)
    requires Owns(h, e) && i < e.alloc.next
    ensures HasOneOwner(e, i)
  {
    var tr, entries := e.translation, e.table.entries;
    if i !in e.alloc.free {
      var u :| u in tr && tr[u].slot == i;
      if Tracked(entries, tr[u]) {
        assert i in EntrySlots(entries, entries.Keys) by { assert entries[tr[u].kind.fp].slot == i; }
      } else if tr[u].kind.Direct? {
        assert u in DirectOffsets(e);
      } else {
        assert u in OrphanOffsets(e);
      }
    }
    forall fp | fp in entries && entries[fp].slot == i
      ensures i !in e.alloc.free
      ensures forall w :: w in tr && tr[w].slot == i ==> Tracked(entries, tr[w])
    {
      var u := TrackedSlotMapped(tr, entries, fp);
    }
  }

  lemma SlotsBelow(h: Hash, e: Engine)
    requires Owns(h, e)
    ensures forall i :: i in Queued(e) || i in OwnedSlots(e) || i in EntrySlots(e.table.entries, e.table.entries.Keys) ==>
              i < e.alloc.next
  {
    forall fp | fp in e.table.entries
      ensures e.table.entries[fp].slot < e.alloc.next
    {
      var u := TrackedSlotMapped(e.translation, e.table.entries, fp);
    }
  }

  lemma PartitionCount(a: set<nat>, b: set<nat>, c: set<nat>, d: set<nat>, n: nat)
    requires forall i: nat :: i < n ==> InExactlyOne(a, b, c, d, i)
    requires forall i: nat :: i in a || i in b || i in c || i in d ==> i < n
    ensures |a| + |b| + |c| + |d| == n
  {
    forall i: nat | i < n
      ensures i in a || i in b || i in c || i in d
      ensures !(i in a && i in b) && !(i in a + b && i in c) && !(i in a + b + c && i in d)
    {
      assert InExactlyOne(a, b, c, d, i);
    }
    assert |a + b| == |a| + |b| by { Disjoint(a, b, n); }
    assert |a + b + c| == |a + b| + |c| by { Disjoint(a + b, c, n); }
    assert |a + b + c + d| == |a + b + c| + |d| by { Disjoint(a + b + c, d, n); }
    assert a + b + c + d == Below(n);
  }

  lemma Disjoint(a: set<nat>, b: set<nat>, n: nat)
    requires forall i: nat :: i in a || i in b ==> i < n
    requires forall i: nat :: i < n ==> !(i in a && i in b)
    ensures |a + b| == |a| + |b|
  {
    assert a !! b;
  }

  /** Slot conservation: the queue is duplicate-free, every slot handed out so far has
      exactly one kind of owner, and the owners add up. */
  lemma SlotConservation(h: Hash, e: Engine)
    requires Owns(h, e)
    ensures forall i :: 0 <= i < e.alloc.next ==> HasOneOwner(e, i)
    ensures |e.alloc.free| + |DirectOffsets(e)| + |OrphanOffsets(e)| + |e.table.entries| == e.alloc.next <= e.alloc.max
  {
    forall i | 0 <= i < e.alloc.next
      ensures HasOneOwner(e, i)
    {
      OneOwner(h, e, i);
    }
    QueueBounded(h, e);
    OwnersAddUp(h, e);
  }

  lemma QueueBounded(h: Hash, e: Engine)
    requires Owns(h, e)
    ensures e.alloc.next <= e.alloc.max
    ensures |Queued(e)| == |e.alloc.free|
  {
    QueueCount(e.alloc.free);
  }

  lemma OwnersAddUp(h: Hash, e: Engine)
    requires Owns(h, e) && forall i :: 0 <= i < e.alloc.next ==> HasOneOwner(e, i)
    ensures |Queued(e)| + |DirectOffsets(e)| + |OrphanOffsets(e)| + |e.table.entries| == e.alloc.next
  {
    PrivateCounts(h, e);
    EntryCount(h, e);
    SlotsBelow(h, e);
    var d, o := SlotsOf(e.translation, DirectOffsets(e)), SlotsOf(e.translation, OrphanOffsets(e));
    assert d <= OwnedSlots(e) && o <= OwnedSlots(e);
    hide Owned, InExactlyOne, Queued, SlotsOf, EntrySlots, DirectOffsets, OrphanOffsets, OwnedSlots;
    var t := EntrySlots(e.table.entries, e.table.entries.Keys);
    forall i: nat | i < e.alloc.next
      ensures InExactlyOne(Queued(e), d, o, t, i)
    {
      assert HasOneOwner(e, i);
    }
    PartitionCount(Queued(e), d, o, t, e.alloc.next);
  }

  lemma PrivateCounts(h: Hash, e: Engine)
    requires Owns(h, e)
    ensures |SlotsOf(e.translation, DirectOffsets(e))| == |DirectOffsets(e)|
    ensures |SlotsOf(e.translation, OrphanOffsets(e))| == |OrphanOffsets(e)|
  {
    forall u, w | u in e.translation && w in e.translation && u != w && !Tracked(e.table.entries, e.translation[u])
      ensures e.translation[u].slot != e.translation[w].slot
    {
      PrivateSlotsDiffer(h, e, u, w);
    }
    SlotsOfCount(e.translation, DirectOffsets(e));
    SlotsOfCount(e.translation, OrphanOffsets(e));
  }

  lemma EntryCount(h: Hash, e: Engine)
    requires Owns(h, e)
    ensures |EntrySlots(e.table.entries, e.table.entries.Keys)| == |e.table.entries|
  {
    forall fp, k | fp in e.table.entries && k in e.table.entries && fp != k
      ensures e.table.entries[fp].slot != e.table.entries[k].slot
    {
      EntrySlotsDiffer(h, e, fp, k);
    }
    EntrySlotsCount(e.table.entries, e.table.entries.Keys);
  }

  // ----- Full stores -----

  lemma OwnedAndQueued(h: Hash, e: Engine)
    requires Owns(h, e)
    ensures |OwnedSlots(e)| + |e.alloc.free| == e.alloc.next
  {
    QueueCount(e.alloc.free);
    forall i: nat | i < e.alloc.next
      ensures i in OwnedSlots(e) || i in Queued(e)
    {
      if i !in e.alloc.free {
        var u :| u in e.translation && e.translation[u].slot == i;
      }
    }
    SlotsBelow(h, e);
    assert OwnedSlots(e) !! Queued(e) by { assert Placed(e.translation, e.alloc); }
    hide Owned, OwnedSlots;
    assert OwnedSlots(e) + Queued(e) == Below(e.alloc.next);
    assert |OwnedSlots(e) + Queued(e)| == |OwnedSlots(e)| + |Queued(e)|;
  }

  /** Whether storing this page takes a new slot. */
  ghost predicate NeedsSlot(h: Hash, e: Engine, data: seq<Byte>) {
    e.passthrough || !AlreadyStored(e, h(NormalizePage(data)), NormalizePage(data))
  }

  lemma ExhaustedMeansOwned(h: Hash, e: Engine)
    requires Owns(h, e)
    ensures e.alloc.Exhausted() <==> |OwnedSlots(e)| == e.alloc.max
  {
    OwnedAndQueued(h, e);
  }

  ghost predicate NothingChanged(e: Engine, f: Engine) {
    && SameReadable(e, f) && f.translation == e.translation && f.store == e.store
    && f.alloc == e.alloc && f.table.entries == e.table.entries
  }

  /** In every state of the invariant a write fails exactly when it needs a slot and every
      slot is owned, and a failed write changes nothing that can be read, tracked or
      allocated. */
  lemma WriteFailsOnlyWhenFull(h: Hash, e: Engine, v: nat, data: seq<Byte>, mode: ReleaseMode)
    requires Inv(h, e, mode)
    ensures var (f, ok) := e.HandleWrite(h, v, data, mode);
            && (!ok <==> NeedsSlot(h, e, data) && |OwnedSlots(e)| == e.alloc.max)
            && (!ok ==> NothingChanged(e, f))
  {
    hide Inv, NothingChanged, NeedsSlot, OwnedSlots, Engine.HandleWrite;
    assert Owns(h, e) by { InvMeansOwns(h, e, mode); }
    ExhaustedMeansOwned(h, e);
    WriteFailsWhenExhausted(h, e, v, data, mode);
  }

  lemma WriteFailsWhenExhausted(h: Hash, e: Engine, v: nat, data: seq<Byte>, mode: ReleaseMode)
    requires Inv(h, e, mode)
    ensures var (f, ok) := e.HandleWrite(h, v, data, mode);
            && (!ok <==> NeedsSlot(h, e, data) && e.alloc.Exhausted())
            && (!ok ==> NothingChanged(e, f))
  {
    hide Inv, NothingChanged, AlreadyStored, NormalizePage, Engine.WriteDirect, Engine.WriteDedup,
         Allocator.Exhausted;
    var page := NormalizePage(data);
    var e1 := e.(stats := e.stats.(totalWrites := e.stats.totalWrites + 1));
    InvIgnoresStats(h, e, e1.stats, e.passthrough, mode);
    var (f, ok) := e.HandleWrite(h, v, data, mode);
    if e.passthrough {
      DirectFails(h, e1, v, page, mode);
    } else {
      SameStored(e, e1, h(page), page);
      DedupFails(h, e1, v, page, mode);
    }
    if !ok { NothingChangedFrom(e, e1, f); }
  }

  lemma FreshFails(h: Hash, e: Engine, page: Page, mode: ReleaseMode)
    requires Inv(h, e, mode)
    ensures e.StoreFresh(page).1.None? <==> e.alloc.Exhausted()
    ensures e.StoreFresh(page).1.None? ==> e.StoreFresh(page).0 == e
  {
    hide Inv;
    var spare := SpareOffset(e.translation, 0);
    StoreFreshKeeps(h, e, page, spare, mode);
  }

  lemma DirectFails(h: Hash, e: Engine, v: nat, page: Page, mode: ReleaseMode)
    requires Inv(h, e, mode)
    ensures var (f, ok) := e.WriteDirect(v, page, mode);
            (ok <==> !e.alloc.Exhausted()) && (!ok ==> NothingChanged(e, f))
  {
    hide Inv, Engine.StoreFresh, Engine.Replace;
    FreshFails(h, e, page, mode);
  }

  lemma UniqueFails(h: Hash, e: Engine, v: nat, fp: Fingerprint, page: Page, mode: ReleaseMode)
    requires Inv(h, e, mode)
    ensures var (f, ok) := e.WriteUnique(v, fp, page, mode);
            (ok <==> !e.alloc.Exhausted()) && (!ok ==> NothingChanged(e, f))
  {
    hide Inv, Engine.StoreFresh, Engine.Replace, Table.Insert;
    FreshFails(h, e, page, mode);
  }

  lemma DedupFails(h: Hash, e: Engine, v: nat, page: Page, mode: ReleaseMode)
    requires Inv(h, e, mode)
    ensures var (f, ok) := e.WriteDedup(v, h(page), page, mode);
            (ok <==> AlreadyStored(e, h(page), page) || !e.alloc.Exhausted()) && (!ok ==> NothingChanged(e, f))
  {
    hide Owned, Settled, Table.Wf, Engine.WriteUnique, Engine.Replace, NothingChanged;
    var fp := h(page);
    LookupIgnoresFilter(e.table, fp, page);
    if AlreadyStored(e, fp, page) { LookupFindsStored(h, e, fp, page, mode); }
    if fp in e.table.entries { TrackedInStore(h, e, fp); }
    var (t, r) := e.table.Lookup(fp, page);
    var e1 := e.(table := t);
    UniqueFails(h, e1, v, fp, page, mode);
    var (f, ok) := e.WriteDedup(v, fp, page, mode);
    if !ok { NothingChangedAlike(e, e1, f); }
  }

  lemma NothingChangedAlike(e: Engine, e1: Engine, f: Engine)
    requires NothingChanged(e1, f) && e1 == e.(table := e1.table) && e1.table.entries == e.table.entries
    ensures NothingChanged(e, f)
  {
  }

  lemma NothingChangedFrom(e: Engine, e1: Engine, f: Engine)
    requires NothingChanged(e1, f) && e1 == e.(stats := e1.stats)
    ensures NothingChanged(e, f)
  {
  }

  // ----- Reference counts -----

  /** The offsets that name `fp`, tracked or not. */
  ghost function Namers(e: Engine, fp: Fingerprint): set<nat> {
    set u | u in e.translation && e.translation[u].kind == Deduplicated(fp)
  }

  /** After every harmless run each tracked count is exactly the number of offsets naming
      the fingerprint, and an untracked one is named at most once. */
  lemma CountsExact(h: Hash, initial: seq<Page>, maxEntries: nat, bloomCapacity: nat, ops: seq<Op>, fp: Fingerprint)
    requires Harmless(h, NewEngine(initial, maxEntries, bloomCapacity), ops, AsWritten)
    ensures var f := Run(h, NewEngine(initial, maxEntries, bloomCapacity), ops, AsWritten);
            if fp in f.table.entries then f.table.entries[fp].refCount == |Namers(f, fp)| >= 1
            else |Namers(f, fp)| <= 1
  {
    var e := NewEngine(initial, maxEntries, bloomCapacity);
    NewEngineInv(h, initial, maxEntries, bloomCapacity, AsWritten);
    RunKeeps(h, e, ops, AsWritten);
    CountsNamers(h, Run(h, e, ops, AsWritten), fp);
  }

  lemma CountsNamers(h: Hash, f: Engine, fp: Fingerprint)
    requires Owns(h, f) && Clean(f.table.entries, f.translation)
    ensures if fp in f.table.entries then f.table.entries[fp].refCount == |Namers(f, fp)| >= 1
            else |Namers(f, fp)| <= 1
  {
    if fp in f.table.entries {
      forall u | u in Namers(f, fp)
        ensures f.translation[u] == DedupTo(fp, f.table.entries[fp].slot)
      {
        assert !Stale(f.table.entries, f.translation[u]);
      }
      assert Namers(f, fp) == Sharers(f.translation, DedupTo(fp, f.table.entries[fp].slot));
    } else if Namers(f, fp) != {} {
      var u :| u in Namers(f, fp);
      assert Namers(f, fp) == {u};
    }
  }

  /** `v` maps a tracked page and `page` is its content. */
  ghost predicate MapsTracked(e: Engine, v: nat, page: Page) {
    v in e.translation && Tracked(e.table.entries, e.translation[v]) && e.Peek(v) == Some(page)
  }

  lemma TrackedLookup(h: Hash, e: Engine, v: nat, page: Page)
    requires Inv(h, e, AsWritten) && MapsTracked(e, v, page)
    ensures var fp := e.translation[v].kind.fp;
            && h(page) == fp && e.ReadSlot(e.table.entries[fp].slot) == Some(page)
            && e.table.Lookup(fp, page).1 == Duplicate(e.table.entries[fp].slot)
            && 1 <= e.table.entries[fp].refCount && AlreadyStored(e, fp, page)
  {
    var fp := e.translation[v].kind.fp;
    TrackedContent(h, e, fp);
    assert AlreadyStored(e, fp, page);
    LookupFindsStored(h, e, fp, page, AsWritten);
  }

  /** Rewriting a tracked page with its own content adds the new reference before it drops
      the old one, so unless the count is at its maximum the page keeps its slot and its
      count and nothing is freed. */
  lemma SelfRewriteChangesNothing(h: Hash, e: Engine, v: nat, data: seq<Byte>)
    requires Inv(h, e, AsWritten) && !e.passthrough && !WrapsCount(h, e, Write(v, data))
    requires MapsTracked(e, v, NormalizePage(data))
    ensures var (f, ok) := e.HandleWrite(h, v, data, AsWritten);
            && ok && f.translation == e.translation && f.table.entries == e.table.entries
            && f.alloc == e.alloc && f.store == e.store
  {
    hide Inv, Table.Lookup, NormalizePage, Engine.Replace, Table.AddReference, AlreadyStored;
    var page := NormalizePage(data);
    var fp := e.translation[v].kind.fp;
    TrackedLookup(h, e, v, page);
    LookupKeepsEntries(e.table, fp, page);
    var e1 := e.(stats := e.stats.(totalWrites := e.stats.totalWrites + 1), table := e.table.Lookup(fp, page).0);
    AddThenRelease(e1, v);
    Adds(e1.table, fp);
  }

  lemma Adds(t: Table, fp: Fingerprint)
    requires fp in t.entries
    ensures t.AddReference(fp).1
  {
  }

  lemma AddThenRelease(e: Engine, v: nat)
    requires v in e.translation && Tracked(e.table.entries, e.translation[v])
    requires var entry := e.table.entries[e.translation[v].kind.fp];
             1 <= entry.refCount && entry.refCount + 1 < TWO_32
    ensures var fp := e.translation[v].kind.fp;
            var f := e.(table := e.table.AddReference(fp).0).CountDuplicate()
                      .Replace(v, DedupTo(fp, e.table.entries[fp].slot), AsWritten);
            f.translation == e.translation && f.table.entries == e.table.entries
            && f.alloc == e.alloc && f.store == e.store
  {
    var fp := e.translation[v].kind.fp;
    var t := e.table.AddReference(fp).0;
    assert t.entries[fp].refCount == e.table.entries[fp].refCount + 1;
    assert t.RemoveReference(fp).0.entries == e.table.entries;
    assert e.translation[v := e.translation[v]] == e.translation;
  }

  lemma TrackedContent(h: Hash, e: Engine, fp: Fingerprint)
    requires Owns(h, e) && fp in e.table.entries
    ensures e.table.entries[fp].slot < |e.store| && h(e.store[e.table.entries[fp].slot]) == fp
  {
  }
}
