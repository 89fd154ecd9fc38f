/** What the table's counters and its filter stand for after any run of calls. */
module DedupCounters {
  import opened Fingerprints
  import opened BloomFilters
  import opened FilterIndices
  import opened Dedup
  import opened DedupRuns

  /** What a call adds to the statistics, told by the index and the filter alone. */
  datatype Tally = Tally(hits: nat, falseAlarms: nat, inserts: nat, evictions: nat)

  function Add(a: Tally, b: Tally): Tally {
    Tally(a.hits + b.hits, a.falseAlarms + b.falseAlarms, a.inserts + b.inserts, a.evictions + b.evictions)
  }

  /** A lookup that the index answers is a hit; one that the filter lets through in vain is a
      false alarm. An insertion counts if it begins tracking, and its eviction if a tracked
      fingerprint goes. */
  ghost function Adds(t: Table, op: TableOp): Tally {
    match op
    case LookupOp(fp, page) =>
      if t.Answer(fp, page).Duplicate? then Tally(1, 0, 0, 0)
      else if t.bloom.MightContain(fp) then Tally(0, 1, 0, 0) else Tally(0, 0, 0, 0)
    case InsertOp(fp, page, slot) =>
      var after := t.Insert(fp, page, slot).0.entries;
      Tally(0, 0, if fp in after && fp !in t.entries then 1 else 0,
            if exists k :: k in t.entries && k !in after then 1 else 0)
    case _ => Tally(0, 0, 0, 0)
  }

  ghost function Tallied(t: Table, ops: seq<TableOp>): Tally {
    if ops == [] then Tally(0, 0, 0, 0) else
    Add(Tallied(t, ops[..|ops| - 1]), Adds(Run(t, ops[..|ops| - 1]), ops[|ops| - 1]))
  }

  function Counters(t: Table): Tally {
    Tally(t.duplicateHits, t.falsePositives, t.uniquePages, t.evictions)
  }

  lemma EvictTally(t: Table)
    requires t.Wf()
    ensures var (u, ok) := t.Evict();
            && Counters(u) == Add(Counters(t), Tally(0, 0, 0, if ok then 1 else 0))
            && (ok <==> exists k :: k in t.entries && k !in u.entries) && u.entries.Keys <= t.entries.Keys
            && u.bloom == t.bloom
  {
    var i := FirstEvictableScan(t.entries, SortByTick(t.lru));
    if t.Evict().1 {
      var fp := FirstEvictable(t.entries, SortByTick(t.lru)).value;
      assert fp in t.entries && fp !in t.Evict().0.entries;
    }
  }

  lemma InsertTally(t: Table, fp: Fingerprint, page: seq<Byte>, slot: nat)
    requires t.Wf()
    ensures Counters(t.Insert(fp, page, slot).0) == Add(Counters(t), Adds(t, InsertOp(fp, page, slot)))
  {
    hide Table.Wf, Table.Evict;
    EvictTally(t);
    if fp !in t.entries {
      var (roomy, ok) := t.MakeRoom();
      var after := t.Insert(fp, page, slot).0.entries;
      assert forall k :: k in t.entries ==> (k in after <==> k in roomy.entries);
    }
  }

  lemma ApplyTally(t: Table, op: TableOp)
    requires t.Wf()
    ensures Counters(Apply(t, op)) == Add(Counters(t), Adds(t, op))
  {
    match op
    case LookupOp(fp, page) => LookupIgnoresFilter(t, fp, page);
    case InsertOp(fp, page, slot) => InsertTally(t, fp, page, slot);
    case AddOp(fp) =>
    case RemoveOp(fp) =>
  }

  /** In every run the four counters are what they claim to count. */
  lemma {:induction false} CountersMean(maxEntries: nat, bloomCapacity: nat, ops: seq<TableOp>)
    ensures var t := EmptyTable(maxEntries, bloomCapacity); Counters(Run(t, ops)) == Tallied(t, ops)
  {
    hide Apply, Adds;
    if ops != [] {
      var t := EmptyTable(maxEntries, bloomCapacity);
      var init := ops[..|ops| - 1];
      CountersMean(maxEntries, bloomCapacity, init);
      RunKeepsWf(maxEntries, bloomCapacity, init);
      ApplyTally(Run(t, init), ops[|ops| - 1]);
    }
  }

  // ----- The filter's contents -----

  /** The fingerprints a log began to track, in order. */
  function BegunKeys(log: seq<Event>): seq<Fingerprint> {
    if log == [] then [] else
    var e := log[|log| - 1];
    BegunKeys(log[..|log| - 1]) + if e.Begun? then [e.fp] else []
  }

  lemma {:induction false} BegunAppend(a: seq<Event>, b: seq<Event>)
    ensures BegunKeys(a + b) == BegunKeys(a) + BegunKeys(b)
    decreases |b|
  {
    if b == [] {
      assert a + b == a;
    } else {
      BegunAppend(a, b[..|b| - 1]);
      assert (a + b)[..|a + b| - 1] == a + b[..|b| - 1];
    }
  }

  lemma InsertAllOne(b: Bloom, keys: seq<Fingerprint>, fp: Fingerprint)
    ensures InsertAll(b, keys + [fp]) == InsertAll(b, keys).Insert(fp)
  {
    assert (keys + [fp])[..|keys|] == keys;
  }

  lemma ApplyFilter(t: Table, op: TableOp)
    requires t.Wf()
    ensures Apply(t, op).bloom == InsertAll(t.bloom, BegunKeys(Events(t, op)))
  {
    hide Table.Wf;
    match op
    case InsertOp(fp, page, slot) =>
      if t.Insert(fp, page, slot).1 {
        BegunAppend(EvictionEvents(t), [Begun(fp, slot)]);
        assert [Begun(fp, slot)][..0] == [];
        assert BegunKeys([Begun(fp, slot)]) == [fp];
        NoBegunEvicting(t);
        assert Events(t, op) == EvictionEvents(t) + [Begun(fp, slot)];
        InsertAllOne(t.bloom, [], fp);
        assert [] + [fp] == [fp];
      }
    case _ =>
      assert forall e :: e in Events(t, op) ==> !e.Begun?;
      NoBegun(Events(t, op));
  }

  lemma NoBegunEvicting(t: Table)
    ensures BegunKeys(EvictionEvents(t)) == []
  {
    NoBegun(EvictionEvents(t));
  }

  lemma {:induction false} NoBegun(log: seq<Event>)
    requires forall e :: e in log ==> !e.Begun?
    ensures BegunKeys(log) == []
  {
    if log != [] {
      NoBegun(log[..|log| - 1]);
    }
  }

  lemma {:induction false} InsertAllAppend(b: Bloom, xs: seq<Fingerprint>, ys: seq<Fingerprint>)
    ensures InsertAll(b, xs + ys) == InsertAll(InsertAll(b, xs), ys)
    decreases |ys|
  {
    if ys == [] {
      assert xs + ys == xs;
    } else {
      InsertAllAppend(b, xs, ys[..|ys| - 1]);
      assert (xs + ys)[..|xs + ys| - 1] == xs + ys[..|ys| - 1];
    }
  }

  /** After any run the filter is that of the fingerprints ever tracked, so a key never
      tracked passes only if each of its positions belongs to one that was. */
  lemma {:induction false} FilterHoldsTracked(maxEntries: nat, bloomCapacity: nat, ops: seq<TableOp>)
    ensures var t := EmptyTable(maxEntries, bloomCapacity);
            Run(t, ops).bloom == InsertAll(Bloom(FilterBits(bloomCapacity), {}), BegunKeys(Log(t, ops)))
  {
    hide Apply, Events;
    var t := EmptyTable(maxEntries, bloomCapacity);
    if ops != [] {
      var init := ops[..|ops| - 1];
      FilterHoldsTracked(maxEntries, bloomCapacity, init);
      RunKeepsWf(maxEntries, bloomCapacity, init);
      var before, op := Run(t, init), ops[|ops| - 1];
      ApplyFilter(before, op);
      BegunAppend(Log(t, init), Events(before, op));
      InsertAllAppend(Bloom(FilterBits(bloomCapacity), {}), BegunKeys(Log(t, init)), BegunKeys(Events(before, op)));
    }
  }

  lemma PassesOnlyThrough(maxEntries: nat, bloomCapacity: nat, ops: seq<TableOp>, fp: Fingerprint)
    ensures var t := EmptyTable(maxEntries, bloomCapacity);
            Run(t, ops).bloom.MightContain(fp) <==>
              forall i :: i in IndexSet(fp, FilterBits(bloomCapacity)) ==>
                exists k :: k in BegunKeys(Log(t, ops)) && i in IndexSet(k, FilterBits(bloomCapacity))
  {
    hide Run, Log, BegunKeys;
    FilterHoldsTracked(maxEntries, bloomCapacity, ops);
    ReportMeans(FilterBits(bloomCapacity), BegunKeys(Log(EmptyTable(maxEntries, bloomCapacity), ops)), fp);
  }
}
