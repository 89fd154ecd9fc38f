/** Whole runs of the deduplication table: what every sequence of calls keeps, and how
    tracked lifetimes begin and end. */
module DedupRuns {
  import opened Fingerprints
  import opened BloomFilters
  import opened Dedup

  datatype TableOp =
    | LookupOp(fp: Fingerprint, page: seq<Byte>)
    | InsertOp(fp: Fingerprint, page: seq<Byte>, slot: nat)
    | AddOp(fp: Fingerprint)
    | RemoveOp(fp: Fingerprint)

  /** What a call does to the set of tracked fingerprints. */
  datatype Event =
    | Begun(fp: Fingerprint, slot: nat)
    | Evicted(fp: Fingerprint)
    | Returned(fp: Fingerprint, slot: nat)

  function Apply(t: Table, op: TableOp): Table {
    match op
    case LookupOp(fp, page) => t.Lookup(fp, page).0
    case InsertOp(fp, page, slot) => t.Insert(fp, page, slot).0
    case AddOp(fp) => t.AddReference(fp).0
    case RemoveOp(fp) => t.RemoveReference(fp).0
  }

  function EvictionEvents(t: Table): seq<Event> {
    if |t.entries| < t.maxEntries || t.lru == [] then [] else
    match FirstEvictable(t.entries, SortByTick(t.lru))
    case None => []
    case Some(fp) => [Evicted(fp)]
  }

  function Events(t: Table, op: TableOp): seq<Event> {
    match op
    case InsertOp(fp, page, slot) =>
      if t.Insert(fp, page, slot).1 then EvictionEvents(t) + [Begun(fp, slot)] else []
    case RemoveOp(fp) =>
      var r := t.RemoveReference(fp).1;
      if r.Removed? then [Returned(fp, r.slot)] else []
    case _ => []
  }

  function Run(t: Table, ops: seq<TableOp>): Table {
    if ops == [] then t else Apply(Run(t, ops[..|ops| - 1]), ops[|ops| - 1])
  }

  function Log(t: Table, ops: seq<TableOp>): seq<Event> {
    if ops == [] then [] else
    Log(t, ops[..|ops| - 1]) + Events(Run(t, ops[..|ops| - 1]), ops[|ops| - 1])
  }

  // ----- Invariant of every run -----

  lemma ApplyKeepsWf(t: Table, op: TableOp)
    requires t.Wf()
    ensures Apply(t, op).Wf() && Apply(t, op).maxEntries == t.maxEntries
  {
    hide Table.Wf;
    match op
    case LookupOp(fp, page) => LookupIgnoresFilter(t, fp, page);
    case InsertOp(fp, page, slot) => InsertKeepsWf(t, fp, page, slot);
    case AddOp(fp) => AddReferenceKeepsWf(t, fp);
    case RemoveOp(fp) => RemoveReferenceKeepsWf(t, fp);
  }

  /** In every reachable table the stamps and the index agree, the size bound holds and
      the filter is transparent. */
  lemma {:induction false} RunKeepsWf(maxEntries: nat, bloomCapacity: nat, ops: seq<TableOp>)
    ensures Run(EmptyTable(maxEntries, bloomCapacity), ops).Wf()
    ensures Run(EmptyTable(maxEntries, bloomCapacity), ops).maxEntries == maxEntries
  {
    if ops != [] {
      RunKeepsWf(maxEntries, bloomCapacity, ops[..|ops| - 1]);
      ApplyKeepsWf(Run(EmptyTable(maxEntries, bloomCapacity), ops[..|ops| - 1]), ops[|ops| - 1]);
    }
  }

  /** Bloom transparency over whole runs: after any calls, a lookup answers what the
      index alone would answer. */
  lemma {:induction false} RunLookupTransparent(maxEntries: nat, bloomCapacity: nat, ops: seq<TableOp>,
                                              fp: Fingerprint, page: seq<Byte>)
    ensures var t := Run(EmptyTable(maxEntries, bloomCapacity), ops);
            t.Lookup(fp, page).1 == t.Answer(fp, page)
  {
    RunKeepsWf(maxEntries, bloomCapacity, ops);
    LookupIgnoresFilter(Run(EmptyTable(maxEntries, bloomCapacity), ops), fp, page);
  }

  // ----- Lifetimes -----

  function Begins(log: seq<Event>, fp: Fingerprint): nat {
    if log == [] then 0 else
    var e := log[|log| - 1];
    Begins(log[..|log| - 1], fp) + if e.Begun? && e.fp == fp then 1 else 0
  }

  function Ends(log: seq<Event>, fp: Fingerprint): nat {
    if log == [] then 0 else
    var e := log[|log| - 1];
    Ends(log[..|log| - 1], fp) + if !e.Begun? && e.fp == fp then 1 else 0
  }

  function Returns(log: seq<Event>): nat {
    if log == [] then 0 else
    Returns(log[..|log| - 1]) + if log[|log| - 1].Returned? then 1 else 0
  }

  /** The slot given with the latest `Begun` of a fingerprint. */
  function LastSlot(log: seq<Event>, fp: Fingerprint): Option<nat> {
    if log == [] then None else
    var e := log[|log| - 1];
    if e.Begun? && e.fp == fp then Some(e.slot) else LastSlot(log[..|log| - 1], fp)
  }

  /** Each slot handed back is the slot its own lifetime began with. */
  ghost predicate ReturnsOwnSlots(log: seq<Event>) {
    forall i :: 0 <= i < |log| && log[i].Returned? ==> LastSlot(log[..i], log[i].fp) == Some(log[i].slot)
  }

  lemma Appended(log: seq<Event>, e: Event, fp: Fingerprint)
    ensures Begins(log + [e], fp) == Begins(log, fp) + if e.Begun? && e.fp == fp then 1 else 0
    ensures Ends(log + [e], fp) == Ends(log, fp) + if !e.Begun? && e.fp == fp then 1 else 0
    ensures Returns(log + [e]) == Returns(log) + if e.Returned? then 1 else 0
    ensures LastSlot(log + [e], fp) == if e.Begun? && e.fp == fp then Some(e.slot) else LastSlot(log, fp)
  {
    assert (log + [e])[..|log + [e]| - 1] == log;
  }

  lemma AppendedOwnSlots(log: seq<Event>, e: Event)
    requires ReturnsOwnSlots(log) && (e.Returned? ==> LastSlot(log, e.fp) == Some(e.slot))
    ensures ReturnsOwnSlots(log + [e])
  {
    var l := log + [e];
    forall i | 0 <= i < |l| && l[i].Returned?
      ensures LastSlot(l[..i], l[i].fp) == Some(l[i].slot)
    {
      assert l[..i] == log[..i];
      if i == |log| {
        assert log[..i] == log;
      }
    }
  }

  /** The log accounts for the table. */
  ghost predicate Accounted(t: Table, log: seq<Event>) {
    && (forall fp :: Begins(log, fp) == Ends(log, fp) + if fp in t.entries then 1 else 0)
    && (forall fp :: fp in t.entries ==> LastSlot(log, fp) == Some(t.entries[fp].slot))
    && t.uniquePages == |t.entries| + t.evictions + Returns(log)
    && ReturnsOwnSlots(log)
  }

  lemma EvictAccounted(t: Table, log: seq<Event>)
    requires Accounted(t, log) && |t.entries| >= t.maxEntries && t.Evict().1
    ensures EvictionEvents(t) != [] && Accounted(t.Evict().0, log + EvictionEvents(t))
  {
    var i := FirstEvictableScan(t.entries, SortByTick(t.lru));
    var fp := FirstEvictable(t.entries, SortByTick(t.lru)).value;
    var u := t.Evict().0;
    assert u.entries.Keys == t.entries.Keys - {fp};
    assert |u.entries.Keys| == |t.entries.Keys| - 1;
    forall k
      ensures Begins(log + [Evicted(fp)], k) == Ends(log + [Evicted(fp)], k) + if k in u.entries then 1 else 0
      ensures k in u.entries ==> LastSlot(log + [Evicted(fp)], k) == Some(u.entries[k].slot)
      ensures Returns(log + [Evicted(fp)]) == Returns(log)
    {
      Appended(log, Evicted(fp), k);
    }
    AppendedOwnSlots(log, Evicted(fp));
  }

  lemma TrackAccounted(t: Table, log: seq<Event>, fp: Fingerprint, page: seq<Byte>, slot: nat)
    requires Accounted(t, log) && fp !in t.entries
    ensures Accounted(t.Track(fp, page, slot), log + [Begun(fp, slot)])
  {
    var u := t.Track(fp, page, slot);
    assert u.entries.Keys == t.entries.Keys + {fp};
    assert |u.entries.Keys| == |t.entries.Keys| + 1;
    var e := Begun(fp, slot);
    forall k
      ensures Begins(log + [e], k) == Ends(log + [e], k) + if k in u.entries then 1 else 0
      ensures k in u.entries ==> LastSlot(log + [e], k) == Some(u.entries[k].slot)
      ensures Returns(log + [e]) == Returns(log)
    {
      Appended(log, e, k);
    }
    AppendedOwnSlots(log, e);
  }

  lemma InsertAccounted(t: Table, log: seq<Event>, fp: Fingerprint, page: seq<Byte>, slot: nat)
    requires Accounted(t, log)
    ensures Accounted(t.Insert(fp, page, slot).0, log + Events(t, InsertOp(fp, page, slot)))
  {
    if fp !in t.entries {
      var (roomy, ok) := t.MakeRoom();
      if ok {
        var ev := EvictionEvents(t);
        if |t.entries| >= t.maxEntries {
          var i := FirstEvictableScan(t.entries, SortByTick(t.lru));
          EvictAccounted(t, log);
        } else {
          assert log + ev == log;
        }
        TrackAccounted(roomy, log + ev, fp, page, slot);
        assert log + ev + [Begun(fp, slot)] == log + (ev + [Begun(fp, slot)]);
      } else {
        assert log + [] == log;
      }
    } else {
      assert log + [] == log;
    }
  }

  lemma RemoveAccounted(t: Table, log: seq<Event>, fp: Fingerprint)
    requires Accounted(t, log)
    ensures Accounted(t.RemoveReference(fp).0, log + Events(t, RemoveOp(fp)))
  {
    var (u, r) := t.RemoveReference(fp);
    if r.Removed? {
      assert u.entries.Keys == t.entries.Keys - {fp};
      assert |u.entries.Keys| == |t.entries.Keys| - 1;
      var e := Returned(fp, r.slot);
      forall k
        ensures Begins(log + [e], k) == Ends(log + [e], k) + if k in u.entries then 1 else 0
        ensures k in u.entries ==> LastSlot(log + [e], k) == Some(u.entries[k].slot)
        ensures Returns(log + [e]) == Returns(log) + 1
      {
        Appended(log, e, k);
      }
      AppendedOwnSlots(log, e);
    } else {
      assert log + [] == log;
      if fp in t.entries {
        assert u.entries.Keys == t.entries.Keys;
        assert |u.entries| == |u.entries.Keys|;
      }
    }
  }

  lemma ApplyAccounted(t: Table, log: seq<Event>, op: TableOp)
    requires Accounted(t, log)
    ensures Accounted(Apply(t, op), log + Events(t, op))
  {
    match op
    case InsertOp(fp, page, slot) => InsertAccounted(t, log, fp, page, slot);
    case RemoveOp(fp) => RemoveAccounted(t, log, fp);
    case LookupOp(fp, page) => assert log + [] == log;
    case AddOp(fp) =>
      assert log + [] == log;
      var u := t.AddReference(fp).0;
      assert u.entries.Keys == t.entries.Keys;
      assert |u.entries| == |u.entries.Keys|;
  }

  /** Lifetime counting over every run: begun lifetimes are the ended ones plus the
      current one, the unique-page counter splits into tracked, evicted and returned
      pages, and every returned slot is the one its lifetime began with. */
  lemma {:induction false} Lifetimes(maxEntries: nat, bloomCapacity: nat, ops: seq<TableOp>)
    ensures Accounted(Run(EmptyTable(maxEntries, bloomCapacity), ops),
                      Log(EmptyTable(maxEntries, bloomCapacity), ops))
  {
    if ops != [] {
      var t := EmptyTable(maxEntries, bloomCapacity);
      Lifetimes(maxEntries, bloomCapacity, ops[..|ops| - 1]);
      ApplyAccounted(Run(t, ops[..|ops| - 1]), Log(t, ops[..|ops| - 1]), ops[|ops| - 1]);
    }
  }
}
