/** The mutable deduplication table, proved call by call against `Dedup.Table`. */
module DedupTables {
  import opened Fingerprints
  import opened BloomFilters
  import opened Dedup

  class DedupTable {
    var entries: Entries
    const bloom: BloomFilter
    const maxEntries: nat
    var lru: seq<Stamp>
    var tick: nat
    var uniquePages: nat
    var duplicateHits: nat
    var falsePositives: nat
    var evictions: nat

    ghost predicate Valid() {
      bloom.Valid()
    }

    ghost function View(): Table
      requires Valid()
      reads this, bloom.words
    {
      Table(entries, bloom.View(), maxEntries, lru, tick, uniquePages, duplicateHits, falsePositives, evictions)
    }

    constructor (maxEntries: nat, bloomCapacity: nat)
      requires bloomCapacity * 10 <= TWO_64 / 2
      ensures Valid() && fresh(bloom.words) && fresh(bloom)
      ensures View() == EmptyTable(maxEntries, bloomCapacity)
    {
      entries := map[];
      bloom := new BloomFilter(bloomCapacity);
      this.maxEntries := maxEntries;
      lru := [];
      tick, uniquePages, duplicateHits, falsePositives, evictions := 0, 0, 0, 0, 0;
    }

    method Lookup(fp: Fingerprint, page: seq<Byte>) returns (r: LookupResult)
      requires Valid()
      modifies this
      ensures (View(), r) == old(View()).Lookup(fp, page)
    {
      var possible := bloom.MightContain(fp);
      if !possible {
        return Miss;
      }
      if fp in entries {
        if VerifyPagePrefix(entries[fp].prefix, page) {
          duplicateHits := duplicateHits + 1;
          return Duplicate(entries[fp].slot);
        } else {
          falsePositives := falsePositives + 1;
          return Miss;
        }
      }
      falsePositives := falsePositives + 1;
      return Miss;
    }

    method Insert(fp: Fingerprint, page: seq<Byte>, slot: nat) returns (ok: bool)
      requires Valid()
      modifies this, bloom.words
      ensures (View(), ok) == old(View()).Insert(fp, page, slot)
    {
      if fp in entries {
        return false;
      }
      if |entries| >= maxEntries {
        var roomy := EvictLruMetadata();
        if !roomy {
          return false;
        }
      }
      entries := entries[fp := DedupEntry(1, slot, PagePrefix(page))];
      bloom.Insert(fp);
      uniquePages := uniquePages + 1;
      var now := tick;
      tick := tick + 1;
      lru := lru + [Stamp(fp, now)];
      return true;
    }

    method AddReference(fp: Fingerprint) returns (ok: bool)
      requires Valid()
      modifies this
      ensures (View(), ok) == old(View()).AddReference(fp)
    {
      if fp in entries {
        entries := entries[fp := entries[fp].(refCount := WrappingIncrement(entries[fp].refCount))];
        var now := tick;
        tick := tick + 1;
        Restamp(fp, now);
        return true;
      }
      return false;
    }

    /** Finds the first stamp of `fp` and overwrites its tick. */
    method Restamp(fp: Fingerprint, now: nat)
      modifies this`lru
      ensures lru == Touch(old(lru), fp, now)
    {
      var i := 0;
      while i < |lru|
        invariant 0 <= i <= |lru| && lru == old(lru)
        invariant Touch(lru, fp, now) == lru[..i] + Touch(lru[i..], fp, now)
      {
        if lru[i].fp == fp {
          assert Touch(lru[i..], fp, now) == [Stamp(fp, now)] + lru[i..][1..];
          assert lru[i := Stamp(fp, now)] == lru[..i] + ([Stamp(fp, now)] + lru[i..][1..]);
          lru := lru[i := Stamp(fp, now)];
          return;
        }
        assert lru[..i] + [lru[i]] == lru[..i + 1] && lru[i..][1..] == lru[i + 1..];
        i := i + 1;
      }
      assert lru[..i] == lru && lru[i..] == [];
    }

    method RemoveReference(fp: Fingerprint) returns (r: ReferenceRemoval)
      requires Valid()
      modifies this
      ensures (View(), r) == old(View()).RemoveReference(fp)
    {
      if fp in entries {
        var entry := entries[fp];
        if entry.refCount <= 1 {
          entries := entries - {fp};
          lru := Without(lru, fp);
          return Removed(entry.slot);
        }
        entries := entries[fp := entry.(refCount := WrappingDecrement(entry.refCount))];
        return StillReferenced;
      }
      return NotTracked;
    }

    method EvictLruMetadata() returns (ok: bool)
      requires Valid()
      modifies this
      ensures (View(), ok) == old(View()).Evict()
    {
      if lru == [] {
        return false;
      }
      lru := SortByTick(lru);
      var candidates := lru;
      var i := 0;
      while i < |candidates|
        invariant 0 <= i <= |candidates|
        invariant View() == old(View()).(lru := candidates)
        invariant FirstEvictable(entries, candidates) == FirstEvictable(entries, candidates[i..])
      {
        var fp := candidates[i].fp;
        if fp in entries && entries[fp].refCount <= 1 {
          entries := entries - {fp};
          evictions := evictions + 1;
          lru := Without(lru, fp);
          return true;
        }
        assert candidates[i..][1..] == candidates[i + 1..];
        i := i + 1;
      }
      return false;
    }
  }
}
