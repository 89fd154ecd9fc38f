/** The deduplication table of crates/swap-proxy/src/dedup.rs: fingerprint index,
    wrapping reference counts, LRU stamps, Bloom pre-check and counters. */
module Dedup {
  import opened Fingerprints
  import opened BloomFilters

  // ----- 32-bit reference counts -----

  type Count32 = n: nat | n < TWO_32

  function WrappingIncrement(n: Count32): Count32 {
    if n + 1 == TWO_32 then 0 else n + 1
  }

  function WrappingDecrement(n: Count32): Count32 {
    if n == 0 then TWO_32 - 1 else n - 1
  }

  // ----- LRU stamps -----

  datatype Stamp = Stamp(fp: Fingerprint, tick: nat)

  /** Stable insertion by tick. */
  function InsertByTick(x: Stamp, sorted: seq<Stamp>): seq<Stamp> {
    if sorted == [] || x.tick <= sorted[0].tick then [x] + sorted
    else [sorted[0]] + InsertByTick(x, sorted[1..])
  }

  function SortByTick(lru: seq<Stamp>): seq<Stamp> {
    if lru == [] then [] else InsertByTick(lru[0], SortByTick(lru[1..]))
  }

  /** `retain` of every stamp of another fingerprint. */
  function Without(lru: seq<Stamp>, fp: Fingerprint): seq<Stamp> {
    if lru == [] then []
    else if lru[0].fp == fp then Without(lru[1..], fp)
    else [lru[0]] + Without(lru[1..], fp)
  }

  /** Restamps the first occurrence of `fp`. */
  function Touch(lru: seq<Stamp>, fp: Fingerprint, tick: nat): seq<Stamp> {
    if lru == [] then []
    else if lru[0].fp == fp then [Stamp(fp, tick)] + lru[1..]
    else [lru[0]] + Touch(lru[1..], fp, tick)
  }

  ghost predicate Sorted(lru: seq<Stamp>) {
    forall i, j :: 0 <= i < j < |lru| ==> lru[i].tick <= lru[j].tick
  }

  ghost predicate Distinct(lru: seq<Stamp>) {
    forall i, j :: 0 <= i < j < |lru| ==> lru[i].fp != lru[j].fp && lru[i].tick != lru[j].tick
  }

  // ----- The table -----

  datatype DedupEntry = DedupEntry(refCount: Count32, slot: nat, prefix: seq<Byte>)

  datatype LookupResult = Miss | Duplicate(slot: nat)

  datatype ReferenceRemoval = StillReferenced | Removed(slot: nat) | NotTracked

  type Entries = map<Fingerprint, DedupEntry>

  predicate Evictable(entries: Entries, fp: Fingerprint) {
    fp in entries && entries[fp].refCount <= 1
  }

  function FirstEvictable(entries: Entries, candidates: seq<Stamp>): Option<Fingerprint> {
    if candidates == [] then None
    else if Evictable(entries, candidates[0].fp) then Some(candidates[0].fp)
    else FirstEvictable(entries, candidates[1..])
  }

  datatype Table = Table(
    entries: Entries, bloom: Bloom, maxEntries: nat, lru: seq<Stamp>, tick: nat,
    uniquePages: nat, duplicateHits: nat, falsePositives: nat, evictions: nat)
  {
    /** The answer the index gives when no filter is consulted. */
    function Answer(fp: Fingerprint, page: seq<Byte>): LookupResult {
      if fp in entries && VerifyPagePrefix(entries[fp].prefix, page)
      then Duplicate(entries[fp].slot) else Miss
    }

    function Lookup(fp: Fingerprint, page: seq<Byte>): (Table, LookupResult) {
      if !bloom.MightContain(fp) then (this, Miss)
      else if fp in entries && VerifyPagePrefix(entries[fp].prefix, page)
      then (this.(duplicateHits := duplicateHits + 1), Duplicate(entries[fp].slot))
      else (this.(falsePositives := falsePositives + 1), Miss)
    }

    function Evict(): (Table, bool) {
      if lru == [] then (this, false) else
      var sorted := SortByTick(lru);
      match FirstEvictable(entries, sorted)
      case None => (this.(lru := sorted), false)
      case Some(fp) =>
        (this.(entries := entries - {fp}, evictions := evictions + 1, lru := Without(sorted, fp)), true)
    }

    function MakeRoom(): (Table, bool) {
      if |entries| >= maxEntries then Evict() else (this, true)
    }

    function Track(fp: Fingerprint, page: seq<Byte>, slot: nat): Table {
      this.(entries := entries[fp := DedupEntry(1, slot, PagePrefix(page))],
            bloom := bloom.Insert(fp),
            uniquePages := uniquePages + 1,
            lru := lru + [Stamp(fp, tick)],
            tick := tick + 1)
    }

    function Insert(fp: Fingerprint, page: seq<Byte>, slot: nat): (Table, bool) {
      if fp in entries then (this, false) else
      var (roomy, ok) := MakeRoom();
      if !ok then (roomy, false) else (roomy.Track(fp, page, slot), true)
    }

    function AddReference(fp: Fingerprint): (Table, bool) {
      if fp !in entries then (this, false) else
      var e := entries[fp];
      (this.(entries := entries[fp := e.(refCount := WrappingIncrement(e.refCount))],
             tick := tick + 1,
             lru := Touch(lru, fp, tick)), true)
    }

    function RemoveReference(fp: Fingerprint): (Table, ReferenceRemoval) {
      if fp !in entries then (this, NotTracked) else
      var e := entries[fp];
      if e.refCount <= 1
      then (this.(entries := entries - {fp}, lru := Without(lru, fp)), Removed(e.slot))
      else (this.(entries := entries[fp := e.(refCount := WrappingDecrement(e.refCount))]), StillReferenced)
    }

    ghost predicate Wf() {
      && |entries| <= maxEntries
      && LruMatches(lru, entries.Keys, tick)
      && (forall fp :: fp in entries ==> bloom.MightContain(fp))
    }
  }

  function EmptyTable(maxEntries: nat, bloomCapacity: nat): Table {
    Table(map[], Bloom(FilterBits(bloomCapacity), {}), maxEntries, [], 0, 0, 0, 0, 0)
  }

  /** The stamps name exactly the tracked fingerprints, once each, with distinct past ticks. */
  ghost predicate LruMatches(lru: seq<Stamp>, keys: set<Fingerprint>, tick: nat) {
    && (forall s :: s in lru ==> s.fp in keys && s.tick < tick)
    && (forall fp :: fp in keys ==> exists s :: s in lru && s.fp == fp)
    && Distinct(lru)
  }

  // ----- Stamp lemmas -----

  lemma {:induction false} InsertByTickMembers(x: Stamp, sorted: seq<Stamp>)
    ensures forall s :: s in InsertByTick(x, sorted) <==> s == x || s in sorted
  {
    if !(sorted == [] || x.tick <= sorted[0].tick) {
      InsertByTickMembers(x, sorted[1..]);
      assert forall s :: s in sorted <==> s == sorted[0] || s in sorted[1..];
    }
  }

  lemma {:induction false} InsertByTickSorts(x: Stamp, sorted: seq<Stamp>)
    requires Sorted(sorted)
    ensures Sorted(InsertByTick(x, sorted))
  {
    if !(sorted == [] || x.tick <= sorted[0].tick) {
      var tail := sorted[1..];
      var rest := InsertByTick(x, tail);
      InsertByTickSorts(x, tail);
      InsertByTickMembers(x, tail);
      forall i | 0 <= i < |rest|
        ensures sorted[0].tick <= rest[i].tick
      {
        assert rest[i] in rest;
      }
    }
  }

  lemma {:induction false} InsertByTickDistinct(x: Stamp, sorted: seq<Stamp>)
    requires Distinct(sorted) && forall s :: s in sorted ==> s.fp != x.fp && s.tick != x.tick
    ensures Distinct(InsertByTick(x, sorted))
  {
    if !(sorted == [] || x.tick <= sorted[0].tick) {
      var tail := sorted[1..];
      var rest := InsertByTick(x, tail);
      InsertByTickDistinct(x, tail);
      InsertByTickMembers(x, tail);
      forall i | 0 <= i < |rest|
        ensures sorted[0].fp != rest[i].fp && sorted[0].tick != rest[i].tick
      {
        assert rest[i] in rest;
      }
    }
  }

  lemma {:induction false} SortByTickSorts(lru: seq<Stamp>)
    ensures Sorted(SortByTick(lru))
    ensures forall s :: s in SortByTick(lru) <==> s in lru
    ensures Distinct(lru) ==> Distinct(SortByTick(lru))
  {
    if lru != [] {
      var rest := SortByTick(lru[1..]);
      SortByTickSorts(lru[1..]);
      InsertByTickMembers(lru[0], rest);
      InsertByTickSorts(lru[0], rest);
      assert forall s :: s in lru <==> s == lru[0] || s in lru[1..];
      if Distinct(lru) {
        assert forall i :: 0 <= i < |lru[1..]| ==> lru[1..][i] == lru[i + 1];
        InsertByTickDistinct(lru[0], rest);
      }
    }
  }

  lemma {:induction false} WithoutRemoves(lru: seq<Stamp>, fp: Fingerprint)
    ensures forall s :: s in Without(lru, fp) <==> s in lru && s.fp != fp
    ensures Distinct(lru) ==> Distinct(Without(lru, fp))
  {
    if lru != [] {
      WithoutRemoves(lru[1..], fp);
      var rest := Without(lru[1..], fp);
      assert forall s :: s in lru <==> s == lru[0] || s in lru[1..];
      assert forall i :: 0 <= i < |rest| ==> rest[i] in rest;
    }
  }

  lemma {:induction false} TouchRestamps(lru: seq<Stamp>, fp: Fingerprint, tick: nat)
    requires Distinct(lru)
    requires exists s :: s in lru && s.fp == fp
    ensures forall s :: s in Touch(lru, fp, tick) <==> s == Stamp(fp, tick) || (s in lru && s.fp != fp)
    ensures (forall s :: s in lru ==> s.tick < tick) ==> Distinct(Touch(lru, fp, tick))
  {
    TouchMembers(lru, fp, tick);
    if forall s :: s in lru ==> s.tick < tick {
      TouchDistinct(lru, fp, tick);
    }
  }

  lemma DistinctCons(x: Stamp, rest: seq<Stamp>)
    requires Distinct(rest) && forall s :: s in rest ==> s.fp != x.fp && s.tick != x.tick
    ensures Distinct([x] + rest)
  {
    assert forall i :: 0 <= i < |rest| ==> rest[i] in rest;
  }

  lemma DistinctHead(lru: seq<Stamp>)
    requires Distinct(lru) && lru != []
    ensures lru == [lru[0]] + lru[1..] && Distinct(lru[1..])
    ensures forall s :: s in lru <==> s == lru[0] || s in lru[1..]
    ensures forall s :: s in lru[1..] ==> s.fp != lru[0].fp && s.tick != lru[0].tick
  {
  }

  lemma {:induction false} TouchDistinct(lru: seq<Stamp>, fp: Fingerprint, tick: nat)
    requires Distinct(lru) && forall s :: s in lru ==> s.tick < tick
    requires exists s :: s in lru && s.fp == fp
    ensures Distinct(Touch(lru, fp, tick))
  {
    hide Distinct;
    DistinctHead(lru);
    var rest := lru[1..];
    if lru[0].fp == fp {
      DistinctCons(Stamp(fp, tick), rest);
    } else {
      TouchMembers(rest, fp, tick);
      TouchDistinct(rest, fp, tick);
      DistinctCons(lru[0], Touch(rest, fp, tick));
    }
  }

  lemma {:induction false} TouchMembers(lru: seq<Stamp>, fp: Fingerprint, tick: nat)
    requires Distinct(lru)
    requires exists s :: s in lru && s.fp == fp
    ensures forall s :: s in Touch(lru, fp, tick) <==> s == Stamp(fp, tick) || (s in lru && s.fp != fp)
  {
    hide Distinct;
    DistinctHead(lru);
    if lru[0].fp != fp {
      TouchMembers(lru[1..], fp, tick);
    }
  }

  // ----- What every operation keeps -----

  lemma {:induction false} FirstEvictableScan(entries: Entries, candidates: seq<Stamp>) returns (i: nat)
    ensures match FirstEvictable(entries, candidates)
            case None => forall s :: s in candidates ==> !Evictable(entries, s.fp)
            case Some(fp) =>
              i < |candidates| && candidates[i].fp == fp && Evictable(entries, fp)
                && forall j :: 0 <= j < i ==> !Evictable(entries, candidates[j].fp)
  {
    i := 0;
    if candidates != [] && !Evictable(entries, candidates[0].fp) {
      var rest := candidates[1..];
      var k := FirstEvictableScan(entries, rest);
      i := k + 1;
      assert forall s :: s in candidates <==> s == candidates[0] || s in rest;
      assert forall j :: 0 < j < |candidates| ==> candidates[j] == rest[j - 1];
    }
  }

  /** `s` stamps the least recently used entry among those with a single reference. */
  ghost predicate OldestEvictable(t: Table, s: Stamp) {
    && s in t.lru && Evictable(t.entries, s.fp)
    && forall o :: o in t.lru && Evictable(t.entries, o.fp) ==> s.tick <= o.tick
  }

  /** Eviction drops the least recently used entry with a single reference, and gives
      up exactly when every entry is shared. */
  lemma EvictPicksOldest(t: Table)
    requires t.Wf()
    ensures var (u, ok) := t.Evict();
            if ok then exists s :: OldestEvictable(t, s) && u.entries == t.entries - {s.fp}
            else u.entries == t.entries && forall fp :: fp in t.entries ==> t.entries[fp].refCount > 1
  {
    hide Distinct, Sorted;
    var sorted := SortByTick(t.lru);
    SortByTickSorts(t.lru);
    var i := FirstEvictableScan(t.entries, sorted);
    if t.lru != [] && FirstEvictable(t.entries, sorted).Some? {
      FirstInOrderIsOldest(t, sorted, i);
    } else {
      forall fp | fp in t.entries
        ensures t.entries[fp].refCount > 1
      {
        var s :| s in t.lru && s.fp == fp;
        assert s in sorted;
      }
    }
  }

  lemma FirstInOrderIsOldest(t: Table, sorted: seq<Stamp>, i: nat)
    requires Sorted(sorted) && i < |sorted| && Evictable(t.entries, sorted[i].fp)
    requires forall s :: s in sorted <==> s in t.lru
    requires forall j :: 0 <= j < i ==> !Evictable(t.entries, sorted[j].fp)
    ensures OldestEvictable(t, sorted[i])
  {
    forall o | o in t.lru && Evictable(t.entries, o.fp)
      ensures sorted[i].tick <= o.tick
    {
      var j :| 0 <= j < |sorted| && sorted[j] == o;
    }
  }

  lemma EvictKeepsWf(t: Table)
    requires t.Wf()
    ensures var (u, ok) := t.Evict();
            u.Wf() && (ok ==> |u.entries| == |t.entries| - 1) && u.maxEntries == t.maxEntries
  {
    if t.lru != [] {
      var sorted := SortByTick(t.lru);
      SortByTickSorts(t.lru);
      var i := FirstEvictableScan(t.entries, sorted);
      match FirstEvictable(t.entries, sorted)
      case None =>
      case Some(fp) =>
        WithoutRemoves(sorted, fp);
        RemoveKeepsLru(t, sorted, fp);
    }
  }

  lemma RemoveKeepsLru(t: Table, lru: seq<Stamp>, fp: Fingerprint)
    requires LruMatches(lru, t.entries.Keys, t.tick) && fp in t.entries
    ensures LruMatches(Without(lru, fp), (t.entries - {fp}).Keys, t.tick)
    ensures |t.entries - {fp}| == |t.entries| - 1
  {
    WithoutRemoves(lru, fp);
    var rest := t.entries - {fp};
    assert rest.Keys == t.entries.Keys - {fp};
    assert |rest.Keys| == |t.entries.Keys| - 1;
    forall k | k in rest
      ensures exists s :: s in Without(lru, fp) && s.fp == k
    {
      var s :| s in lru && s.fp == k;
      assert s in Without(lru, fp);
    }
  }

  lemma PushKeepsLru(lru: seq<Stamp>, keys: set<Fingerprint>, tick: nat, fp: Fingerprint)
    requires LruMatches(lru, keys, tick) && fp !in keys
    ensures LruMatches(lru + [Stamp(fp, tick)], keys + {fp}, tick + 1)
  {
    var u := lru + [Stamp(fp, tick)];
    assert forall s :: s in u <==> s in lru || s == Stamp(fp, tick);
    forall k | k in keys + {fp}
      ensures exists s :: s in u && s.fp == k
    {
      if k == fp {
        assert Stamp(fp, tick) in u;
      } else {
        var s :| s in lru && s.fp == k;
        assert s in u;
      }
    }
    assert forall i :: 0 <= i < |lru| ==> lru[i] in lru;
  }

  lemma TrackKeepsWf(t: Table, fp: Fingerprint, page: seq<Byte>, slot: nat)
    requires t.Wf() && fp !in t.entries && |t.entries| < t.maxEntries
    ensures t.Track(fp, page, slot).Wf()
  {
    var u := t.Track(fp, page, slot);
    assert u.entries.Keys == t.entries.Keys + {fp};
    assert |u.entries.Keys| == |t.entries.Keys| + 1;
    PushKeepsLru(t.lru, t.entries.Keys, t.tick, fp);
    forall k | k in u.entries
      ensures u.bloom.MightContain(k)
    {
      InsertRemembers(t.bloom, fp, k);
    }
  }

  lemma InsertKeepsWf(t: Table, fp: Fingerprint, page: seq<Byte>, slot: nat)
    requires t.Wf()
    ensures t.Insert(fp, page, slot).0.Wf()
  {
    if fp !in t.entries {
      EvictKeepsWf(t);
      EvictPicksOldest(t);
      var (roomy, ok) := t.MakeRoom();
      if ok {
        TrackKeepsWf(roomy, fp, page, slot);
      }
    }
  }

  /** Insertion refuses exactly a tracked fingerprint, or a full table whose every entry
      is shared; a full table of size zero always refuses. */
  lemma InsertRefuses(t: Table, fp: Fingerprint, page: seq<Byte>, slot: nat)
    requires t.Wf()
    ensures t.Insert(fp, page, slot).1 <==>
              fp !in t.entries && (|t.entries| < t.maxEntries || exists k :: Evictable(t.entries, k))
  {
    EvictPicksOldest(t);
    var (u, ok) := t.Evict();
    if ok {
      var s :| OldestEvictable(t, s) && u.entries == t.entries - {s.fp};
    }
  }

  lemma AddReferenceKeepsWf(t: Table, fp: Fingerprint)
    requires t.Wf()
    ensures t.AddReference(fp).0.Wf()
  {
    if fp in t.entries {
      var u := t.AddReference(fp).0;
      assert u.entries.Keys == t.entries.Keys;
      assert |u.entries| == |u.entries.Keys|;
      TouchRestamps(t.lru, fp, t.tick);
      forall k | k in u.entries
        ensures exists s :: s in u.lru && s.fp == k
      {
        if k == fp {
          assert Stamp(fp, t.tick) in u.lru;
        } else {
          var s :| s in t.lru && s.fp == k;
          assert s in u.lru;
        }
      }
    }
  }

  lemma RemoveReferenceKeepsWf(t: Table, fp: Fingerprint)
    requires t.Wf()
    ensures t.RemoveReference(fp).0.Wf()
  {
    if fp in t.entries {
      RemoveKeepsLru(t, t.lru, fp);
      var u := t.RemoveReference(fp).0;
      if t.entries[fp].refCount > 1 {
        assert u.entries.Keys == t.entries.Keys;
        assert |u.entries| == |u.entries.Keys|;
      }
    }
  }

  /** The filter never changes the answer: it has no false negative on a tracked key. */
  lemma LookupIgnoresFilter(t: Table, fp: Fingerprint, page: seq<Byte>)
    requires t.Wf()
    ensures t.Lookup(fp, page).1 == t.Answer(fp, page)
    ensures t.Lookup(fp, page).0.Wf()
  {
  }
}
