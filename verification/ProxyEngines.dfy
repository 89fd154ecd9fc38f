/** The mutable engine, proved call by call against `Engines.Engine`. */
module ProxyEngines {
  import opened Fingerprints
  import opened BloomFilters
  import opened Dedup
  import opened DedupTables
  import opened Backend
  import opened Engines

  class ProxyEngine {
    const hash: Hash
    const table: DedupTable
    const store: PageStore
    const allocator: SlotAllocator
    var translation: Translations
    var stats: Stats
    var passthrough: bool

    ghost predicate Valid() {
      table.Valid()
    }

    ghost function View(): Engine
      requires Valid()
      reads this, table, table.bloom.words, store.pages, allocator
    {
      Engine(table.View(), store.pages[..], translation, allocator.View(), stats, passthrough)
    }

    constructor (hash: Hash, initial: seq<Page>, maxEntries: nat, bloomCapacity: nat)
      requires bloomCapacity * 10 <= TWO_64 / 2
      ensures Valid() && this.hash == hash
      ensures fresh(table) && fresh(table.bloom.words) && fresh(store.pages) && fresh(allocator)
      ensures View() == NewEngine(initial, maxEntries, bloomCapacity)
    {
      this.hash := hash;
      table := new DedupTable(maxEntries, bloomCapacity);
      store := new PageStore(initial);
      allocator := new SlotAllocator(|initial|);
      translation := map[];
      stats := Stats(0, 0, 0, 0, 0);
      passthrough := true;
    }

    method ReleaseMapping(entry: Translation)
      requires Valid()
      modifies table, allocator
      ensures View() == old(View()).Release(entry, AsWritten)
    {
      match entry.kind {
        case Direct => allocator.Free(entry.slot);
        case Deduplicated(fp) =>
          var r := table.RemoveReference(fp);
          match r {
            case StillReferenced =>
            case Removed(slot) => allocator.Free(slot);
            case NotTracked => allocator.Free(entry.slot);
          }
      }
    }

    method ReplaceMapping(offset: nat, entry: Translation)
      requires Valid()
      modifies this, table, allocator
      ensures View() == old(View()).Replace(offset, entry, AsWritten)
    {
      var previous := if offset in translation then Some(translation[offset]) else None;
      translation := translation[offset := entry];
      if previous.Some? {
        ReleaseMapping(previous.value);
      }
    }

    method StoreFresh(page: Page) returns (slot: Option<nat>)
      requires Valid()
      modifies store.pages, allocator
      ensures (View(), slot) == old(View()).StoreFresh(page)
    {
      slot := allocator.Allocate();
      if slot.Some? {
        var ok := store.WritePage(slot.value, page);
        NormalizePageIdentity(page);
        if !ok {
          allocator.Free(slot.value);
          slot := None;
        }
      }
    }

    method WriteDirect(offset: nat, page: Page) returns (ok: bool)
      requires Valid()
      modifies this, table, store.pages, allocator
      ensures (View(), ok) == old(View()).WriteDirect(offset, page, AsWritten)
    {
      var slot := StoreFresh(page);
      if slot.None? {
        return false;
      }
      stats := stats.(uniqueWrites := stats.uniqueWrites + 1);
      ReplaceMapping(offset, DirectTo(slot.value));
      return true;
    }

    method WriteUniqueOrDirect(offset: nat, fp: Fingerprint, page: Page) returns (ok: bool)
      requires Valid()
      modifies this, table, table.bloom.words, store.pages, allocator
      ensures (View(), ok) == old(View()).WriteUnique(offset, fp, page, AsWritten)
    {
      var slot := StoreFresh(page);
      if slot.None? {
        return false;
      }
      ghost var stored := View();
      var tracked := table.Insert(fp, page, slot.value);
      assert View() == stored.(table := stored.table.Insert(fp, page, slot.value).0);
      var entry := if tracked then DedupTo(fp, slot.value) else DirectTo(slot.value);
      stats := stats.(uniqueWrites := stats.uniqueWrites + 1);
      assert View() == stored.(table := stored.table.Insert(fp, page, slot.value).0).CountUnique();
      ReplaceMapping(offset, entry);
      return true;
    }

    method HandleWrite(offset: nat, data: seq<Byte>) returns (ok: bool)
      requires Valid()
      modifies this, table, table.bloom.words, store.pages, allocator
      ensures (View(), ok) == old(View()).HandleWrite(hash, offset, data, AsWritten)
    {
      hide Table.Lookup, Engine.WriteUnique, Engine.WriteDirect, Engine.Replace;
      stats := stats.(totalWrites := stats.totalWrites + 1);
      var page := NormalizePage(data);
      if passthrough {
        ok := WriteDirect(offset, page);
        return;
      }
      var fp := hash(page);
      var r := table.Lookup(fp, page);
      match r {
        case Duplicate(slot) =>
          var stored := store.ReadPage(slot);
          if stored.None? {
            return false;
          }
          var verified := false;
          if stored.value == page {
            verified := table.AddReference(fp);
          }
          if verified {
            stats := stats.(duplicateWrites := stats.duplicateWrites + 1);
            ReplaceMapping(offset, DedupTo(fp, slot));
            ok := true;
          } else {
            ok := WriteUniqueOrDirect(offset, fp, page);
          }
        case Miss =>
          ok := WriteUniqueOrDirect(offset, fp, page);
      }
    }

    method HandleRead(offset: nat) returns (page: Option<Page>)
      requires Valid()
      modifies this
      ensures (View(), page) == old(View()).HandleRead(offset)
    {
      stats := stats.(totalReads := stats.totalReads + 1);
      if offset !in translation {
        return Some(ZERO_PAGE);
      }
      page := store.ReadPage(translation[offset].slot);
    }

    method HandleDiscard(offset: nat)
      requires Valid()
      modifies this, table, allocator
      ensures View() == old(View()).HandleDiscard(offset, AsWritten)
    {
      stats := stats.(discards := stats.discards + 1);
      if offset in translation {
        var entry := translation[offset];
        translation := translation - {offset};
        ReleaseMapping(entry);
      }
    }
  }
}
