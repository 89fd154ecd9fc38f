/** The LRU stamps of the deduplication table really are recency: in every run a stamp is
    the position of its fingerprint's last use, and eviction drops the page unused longest. */
module Recency {
  import opened Fingerprints
  import opened Dedup
  import opened DedupRuns

  /** What a call uses: the page it starts to track or the page it references again. */
  function UseOf(t: Table, op: TableOp): seq<Fingerprint> {
    match op
    case InsertOp(fp, page, slot) => if t.Insert(fp, page, slot).1 then [fp] else []
    case AddOp(fp) => if fp in t.entries then [fp] else []
    case _ => []
  }

  /** The uses of a run, oldest first. */
  function Uses(t: Table, ops: seq<TableOp>): seq<Fingerprint> {
    if ops == [] then [] else
    Uses(t, ops[..|ops| - 1]) + UseOf(Run(t, ops[..|ops| - 1]), ops[|ops| - 1])
  }

  /** Where `fp` was last used, or -1. */
  function LastUse(uses: seq<Fingerprint>, fp: Fingerprint): int {
    if uses == [] then -1
    else if uses[|uses| - 1] == fp then |uses| - 1
    else LastUse(uses[..|uses| - 1], fp)
  }

  /** Every stamp is the position of a last use. */
  ghost predicate Stamped(t: Table, uses: seq<Fingerprint>) {
    t.tick == |uses| && forall s :: s in t.lru ==> s.tick == LastUse(uses, s.fp)
  }

  lemma LastUseAppend(uses: seq<Fingerprint>, x: Fingerprint, fp: Fingerprint)
    ensures LastUse(uses + [x], fp) == if x == fp then |uses| else LastUse(uses, fp)
  {
    assert (uses + [x])[..|uses|] == uses;
  }

  lemma EvictStamped(t: Table, uses: seq<Fingerprint>)
    requires Stamped(t, uses)
    ensures Stamped(t.Evict().0, uses)
  {
    var sorted := SortByTick(t.lru);
    SortByTickSorts(t.lru);
    match FirstEvictable(t.entries, sorted)
    case None =>
    case Some(fp) => WithoutRemoves(sorted, fp);
  }

  lemma TrackStamped(t: Table, uses: seq<Fingerprint>, fp: Fingerprint, page: seq<Byte>, slot: nat)
    requires Stamped(t, uses) && forall s :: s in t.lru ==> s.fp != fp
    ensures Stamped(t.Track(fp, page, slot), uses + [fp])
  {
    var u := t.Track(fp, page, slot);
    forall s | s in u.lru
      ensures s.tick == LastUse(uses + [fp], s.fp)
    {
      LastUseAppend(uses, fp, s.fp);
    }
  }

  lemma InsertStamped(t: Table, uses: seq<Fingerprint>, fp: Fingerprint, page: seq<Byte>, slot: nat)
    requires t.Wf() && Stamped(t, uses)
    ensures Stamped(t.Insert(fp, page, slot).0, uses + UseOf(t, InsertOp(fp, page, slot)))
  {
    if fp !in t.entries {
      EvictKeepsWf(t);
      EvictStamped(t, uses);
      var (roomy, ok) := t.MakeRoom();
      if ok {
        EvictedKeys(t);
        TrackStamped(roomy, uses, fp, page, slot);
      } else {
        assert uses + [] == uses;
      }
    } else {
      assert uses + [] == uses;
    }
  }

  lemma EvictedKeys(t: Table)
    ensures t.Evict().0.entries.Keys <= t.entries.Keys
  {
  }

  lemma AddStamped(t: Table, uses: seq<Fingerprint>, fp: Fingerprint)
    requires t.Wf() && Stamped(t, uses)
    ensures Stamped(t.AddReference(fp).0, uses + UseOf(t, AddOp(fp)))
  {
    if fp in t.entries {
      TouchRestamps(t.lru, fp, t.tick);
      var u := t.AddReference(fp).0;
      forall s | s in u.lru
        ensures s.tick == LastUse(uses + [fp], s.fp)
      {
        LastUseAppend(uses, fp, s.fp);
      }
    } else {
      assert uses + [] == uses;
    }
  }

  lemma ApplyStamped(t: Table, uses: seq<Fingerprint>, op: TableOp)
    requires t.Wf() && Stamped(t, uses)
    ensures Stamped(Apply(t, op), uses + UseOf(t, op))
  {
    match op
    case LookupOp(fp, page) => assert uses + [] == uses;
    case InsertOp(fp, page, slot) => InsertStamped(t, uses, fp, page, slot);
    case AddOp(fp) => AddStamped(t, uses, fp);
    case RemoveOp(fp) =>
      assert uses + [] == uses;
      WithoutRemoves(t.lru, fp);
  }

  /** In every run each stamp is the position of its page's last use. */
  lemma {:induction false} StampsAreLastUses(maxEntries: nat, bloomCapacity: nat, ops: seq<TableOp>)
    ensures var t := EmptyTable(maxEntries, bloomCapacity); Stamped(Run(t, ops), Uses(t, ops))
  {
    hide Apply, UseOf;
    var t := EmptyTable(maxEntries, bloomCapacity);
    if ops != [] {
      StampsAreLastUses(maxEntries, bloomCapacity, ops[..|ops| - 1]);
      RunKeepsWf(maxEntries, bloomCapacity, ops[..|ops| - 1]);
      ApplyStamped(Run(t, ops[..|ops| - 1]), Uses(t, ops[..|ops| - 1]), ops[|ops| - 1]);
    }
  }

  /** `fp` is the evictable page whose last use is furthest back. */
  ghost predicate LeastRecent(t: Table, uses: seq<Fingerprint>, fp: Fingerprint) {
    Evictable(t.entries, fp)
    && forall k :: Evictable(t.entries, k) && k != fp ==> LastUse(uses, fp) < LastUse(uses, k)
  }

  /** After any run, eviction untracks the one singly referenced page that was used longest
      ago, and fails exactly when every tracked page is shared. */
  lemma EvictsLeastRecent(maxEntries: nat, bloomCapacity: nat, ops: seq<TableOp>)
    ensures var t := Run(EmptyTable(maxEntries, bloomCapacity), ops);
            var uses := Uses(EmptyTable(maxEntries, bloomCapacity), ops);
            var (u, ok) := t.Evict();
            if ok then exists fp :: LeastRecent(t, uses, fp) && u.entries == t.entries - {fp}
            else u.entries == t.entries && forall fp :: fp in t.entries ==> t.entries[fp].refCount > 1
  {
    var t := Run(EmptyTable(maxEntries, bloomCapacity), ops);
    var uses := Uses(EmptyTable(maxEntries, bloomCapacity), ops);
    RunKeepsWf(maxEntries, bloomCapacity, ops);
    StampsAreLastUses(maxEntries, bloomCapacity, ops);
    hide Table.Evict;
    EvictPicksOldest(t);
    if t.Evict().1 {
      var s :| OldestEvictable(t, s) && t.Evict().0.entries == t.entries - {s.fp};
      OldestIsLeastRecent(t, uses, s);
    }
  }

  lemma OldestIsLeastRecent(t: Table, uses: seq<Fingerprint>, s: Stamp)
    requires t.Wf() && Stamped(t, uses) && OldestEvictable(t, s)
    ensures LeastRecent(t, uses, s.fp)
  {
    forall k | Evictable(t.entries, k) && k != s.fp
      ensures LastUse(uses, s.fp) < LastUse(uses, k)
    {
      var o :| o in t.lru && o.fp == k;
      assert s.tick <= o.tick;
    }
  }
}
