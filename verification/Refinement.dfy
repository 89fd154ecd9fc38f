/** The engine is a flat block device: whole runs of writes, reads, discards and
    passthrough toggles read back the last successfully written page. */
module Refinement {
  import opened Fingerprints
  import opened BloomFilters
  import opened Dedup
  import opened Backend
  import opened Engines
  import opened Ownership
  import opened EngineSteps

  /** The effect of one call on readable pages, given its outcome. */
  ghost predicate ActsFlat(e: Engine, op: Op, f: Engine, outcome: Outcome) {
    match op
    case Write(v, data) =>
      outcome.Wrote? && if outcome.ok then ReadsWith(e, f, v, NormalizePage(data)) else SameReadable(e, f)
    case Read(v) => outcome == GotPage(e.Peek(v)) && SameReadable(e, f)
    case Discard(v) => outcome == Done && ReadsWith(e, f, v, ZERO_PAGE)
    case SetPassthrough(on) => outcome == Done && SameReadable(e, f)
  }

  ghost predicate SameReadable(e: Engine, f: Engine) {
    forall u :: f.Peek(u) == e.Peek(u)
  }

  /** Mapped offsets only grow by the offset written. */
  ghost predicate MapsWithin(e: Engine, f: Engine, op: Op) {
    f.translation.Keys <= e.translation.Keys + if op.Write? then {op.offset} else {}
  }

  lemma InvIgnoresStats(h: Hash, e: Engine, stats: Stats, passthrough: bool, mode: ReleaseMode)
    requires Inv(h, e, mode)
    ensures Inv(h, e.(stats := stats, passthrough := passthrough), mode)
  {
    hide Owned, Settled, Table.Wf;
  }

  lemma WriteActsFlat(h: Hash, e: Engine, v: nat, data: seq<Byte>, mode: ReleaseMode)
    requires Inv(h, e, mode) && !Harmful(h, e, Write(v, data), mode)
    ensures var (f, ok) := e.HandleWrite(h, v, data, mode);
            Inv(h, f, mode) && ActsFlat(e, Write(v, data), f, Wrote(ok)) && MapsWithin(e, f, Write(v, data))
  {
    hide Inv, HasOrphan, InsertAccepts, AlreadyStored, Engine.WriteDirect, Engine.WriteDedup;
    var page := NormalizePage(data);
    var e1 := e.(stats := e.stats.(totalWrites := e.stats.totalWrites + 1));
    InvIgnoresStats(h, e, e1.stats, e.passthrough, mode);
    SameOrphans(e, e1, h(page));
    SameStored(e, e1, h(page), page);
    if e.passthrough {
      WriteDirectKeeps(h, e1, v, page, mode);
    } else {
      WriteDedupKeeps(h, e1, v, page, mode);
    }
  }

  lemma SameStored(e: Engine, f: Engine, fp: Fingerprint, page: Page)
    requires f.table == e.table && f.store == e.store
    ensures AlreadyStored(f, fp, page) <==> AlreadyStored(e, fp, page)
    ensures AlreadyStored(e, fp, page) ==> fp in e.table.entries
  {
  }

  lemma DiscardActsFlat(h: Hash, e: Engine, v: nat, mode: ReleaseMode)
    requires Inv(h, e, mode)
    ensures var f := e.HandleDiscard(v, mode);
            Inv(h, f, mode) && ActsFlat(e, Discard(v), f, Done) && MapsWithin(e, f, Discard(v))
  {
    hide Inv, Engine.Release;
    var e1 := e.(stats := e.stats.(discards := e.stats.discards + 1));
    InvIgnoresStats(h, e, e1.stats, e.passthrough, mode);
    if v in e.translation {
      ReleaseKeeps(h, e1, v, mode);
    }
  }

  /** One call keeps the invariant and acts like a flat device, unless it wraps a count or,
      as written, tracks a fingerprint that an evicted translation still names. */
  lemma StepActsFlat(h: Hash, e: Engine, op: Op, mode: ReleaseMode)
    requires Inv(h, e, mode) && !Harmful(h, e, op, mode)
    ensures var (f, outcome) := Step(h, e, op, mode);
            Inv(h, f, mode) && ActsFlat(e, op, f, outcome) && MapsWithin(e, f, op)
  {
    hide Inv, Harmful;
    match op
    case Write(v, data) => WriteActsFlat(h, e, v, data, mode);
    case Read(v) => InvIgnoresStats(h, e, e.stats.(totalReads := e.stats.totalReads + 1), e.passthrough, mode);
    case Discard(v) => DiscardActsFlat(h, e, v, mode);
    case SetPassthrough(on) => InvIgnoresStats(h, e, e.stats, on, mode);
  }

  lemma NewEngineInv(h: Hash, initial: seq<Page>, maxEntries: nat, bloomCapacity: nat, mode: ReleaseMode)
    ensures Inv(h, NewEngine(initial, maxEntries, bloomCapacity), mode)
  {
  }

  // ----- Whole runs -----

  /** No call of the run is a stale insertion. */
  ghost predicate NeverStale(h: Hash, e: Engine, ops: seq<Op>) {
    forall i :: 0 <= i < |ops| ==> !StaleInsert(h, Run(h, e, ops[..i], AsWritten), ops[i])
  }

  /** No call of the run wraps a reference count. */
  ghost predicate NeverWraps(h: Hash, e: Engine, ops: seq<Op>, mode: ReleaseMode) {
    forall i :: 0 <= i < |ops| ==> !WrapsCount(h, Run(h, e, ops[..i], mode), ops[i])
  }

  /** No call of the run is harmful. */
  ghost predicate Harmless(h: Hash, e: Engine, ops: seq<Op>, mode: ReleaseMode) {
    forall i :: 0 <= i < |ops| ==> !Harmful(h, Run(h, e, ops[..i], mode), ops[i], mode)
  }

  lemma HarmlessMeans(h: Hash, e: Engine, ops: seq<Op>, mode: ReleaseMode)
    ensures Harmless(h, e, ops, mode) <==> (mode == AsWritten ==> NeverStale(h, e, ops)) && NeverWraps(h, e, ops, mode)
  {
    hide StaleInsert, WrapsCount, Run;
    forall i | 0 <= i < |ops|
      ensures Harmful(h, Run(h, e, ops[..i], mode), ops[i], mode) <==>
                (mode == AsWritten && StaleInsert(h, Run(h, e, ops[..i], AsWritten), ops[i]))
                || WrapsCount(h, Run(h, e, ops[..i], mode), ops[i])
    {
    }
  }

  /** Every offset reads what the flat device would hold. */
  ghost predicate ReadsExpected(h: Hash, e: Engine, ops: seq<Op>, mode: ReleaseMode) {
    forall v :: Run(h, e, ops, mode).Peek(v) == Some(Expected(ops, Outcomes(h, e, ops, mode), v))
  }

  lemma HarmlessPrefix(h: Hash, e: Engine, ops: seq<Op>, n: nat, mode: ReleaseMode)
    requires Harmless(h, e, ops, mode) && n <= |ops|
    ensures Harmless(h, e, ops[..n], mode)
  {
    hide Harmful, Run;
    forall i | 0 <= i < n
      ensures !Harmful(h, Run(h, e, ops[..n][..i], mode), ops[..n][i], mode)
    {
      assert ops[..n][..i] == ops[..i];
    }
  }

  lemma OutcomesPrefix(h: Hash, e: Engine, ops: seq<Op>, n: nat, mode: ReleaseMode)
    requires n <= |ops|
    ensures Outcomes(h, e, ops, mode)[..n] == Outcomes(h, e, ops[..n], mode)
    decreases |ops|
  {
    if n < |ops| {
      var init := ops[..|ops| - 1];
      OutcomesPrefix(h, e, init, n, mode);
      assert init[..n] == ops[..n];
      assert Outcomes(h, e, ops, mode)[..n] == Outcomes(h, e, init, mode)[..n];
    } else {
      assert ops[..n] == ops;
    }
  }

  /** One more call, seen from the flat device. */
  lemma ExpectedStep(h: Hash, e: Engine, ops: seq<Op>, mode: ReleaseMode)
    requires ops != [] && ReadsExpected(h, e, ops[..|ops| - 1], mode)
    requires var before := Run(h, e, ops[..|ops| - 1], mode);
             var (f, outcome) := Step(h, before, ops[|ops| - 1], mode);
             ActsFlat(before, ops[|ops| - 1], f, outcome)
    ensures ReadsExpected(h, e, ops, mode)
  {
    var last := |ops| - 1;
    var init := ops[..last];
    var before := Run(h, e, init, mode);
    var outs := Outcomes(h, e, ops, mode);
    OutcomesPrefix(h, e, ops, last, mode);
    forall v
      ensures Run(h, e, ops, mode).Peek(v) == Some(Expected(ops, outs, v))
    {
      assert before.Peek(v) == Some(Expected(init, outs[..last], v));
    }
  }

  /** The offsets that a run writes. */
  function Offsets(ops: seq<Op>): set<nat> {
    if ops == [] then {} else
    var op := ops[|ops| - 1];
    Offsets(ops[..|ops| - 1]) + if op.Write? then {op.offset} else {}
  }

  /** The invariant and the flat reading after every harmless run. */
  lemma {:induction false} RunKeeps(h: Hash, e: Engine, ops: seq<Op>, mode: ReleaseMode)
    requires Inv(h, e, mode) && e.translation == map[] && Harmless(h, e, ops, mode)
    ensures var f := Run(h, e, ops, mode);
            Inv(h, f, mode) && f.translation.Keys <= Offsets(ops) && ReadsExpected(h, e, ops, mode)
  {
    hide Inv, Step, Harmful, ActsFlat;
    if ops != [] {
      var last := |ops| - 1;
      HarmlessPrefix(h, e, ops, last, mode);
      RunKeeps(h, e, ops[..last], mode);
      StepActsFlat(h, Run(h, e, ops[..last], mode), ops[last], mode);
      ExpectedStep(h, e, ops, mode);
    }
  }

  /** Each read returned what the flat device held when it was issued. */
  ghost predicate ReadsAnswered(ops: seq<Op>, outcomes: seq<Outcome>)
    requires |ops| == |outcomes|
  {
    forall i :: 0 <= i < |ops| && ops[i].Read? ==>
      outcomes[i] == GotPage(Some(Expected(ops[..i], outcomes[..i], ops[i].offset)))
  }

  lemma OutcomeAt(h: Hash, e: Engine, ops: seq<Op>, i: nat, mode: ReleaseMode)
    requires i < |ops|
    ensures Outcomes(h, e, ops, mode)[i] == Step(h, Run(h, e, ops[..i], mode), ops[i], mode).1
    ensures Outcomes(h, e, ops, mode)[..i] == Outcomes(h, e, ops[..i], mode)
  {
    hide Step;
    OutcomesPrefix(h, e, ops, i, mode);
    OutcomesPrefix(h, e, ops, i + 1, mode);
    var upto := ops[..i + 1];
    assert upto[..|upto| - 1] == ops[..i] && upto[|upto| - 1] == ops[i];
    assert Outcomes(h, e, ops, mode)[i] == Outcomes(h, e, ops, mode)[..i + 1][i];
  }

  lemma ReadsFromPrefixes(h: Hash, e: Engine, ops: seq<Op>, mode: ReleaseMode)
    requires forall i :: 0 <= i < |ops| ==> ReadsExpected(h, e, ops[..i], mode)
    ensures ReadsAnswered(ops, Outcomes(h, e, ops, mode))
  {
    forall i | 0 <= i < |ops| && ops[i].Read?
      ensures var outs := Outcomes(h, e, ops, mode);
              outs[i] == GotPage(Some(Expected(ops[..i], outs[..i], ops[i].offset)))
    {
      OutcomeAt(h, e, ops, i, mode);
      assert ReadsExpected(h, e, ops[..i], mode);
    }
  }

  lemma HarmlessRefines(h: Hash, initial: seq<Page>, maxEntries: nat, bloomCapacity: nat, ops: seq<Op>, mode: ReleaseMode)
    requires Harmless(h, NewEngine(initial, maxEntries, bloomCapacity), ops, mode)
    ensures ReadsAnswered(ops, Outcomes(h, NewEngine(initial, maxEntries, bloomCapacity), ops, mode))
  {
    hide Inv, Harmless, ReadsExpected, ReadsAnswered, Run, Outcomes;
    var e := NewEngine(initial, maxEntries, bloomCapacity);
    NewEngineInv(h, initial, maxEntries, bloomCapacity, mode);
    forall i | 0 <= i < |ops|
      ensures ReadsExpected(h, e, ops[..i], mode)
    {
      HarmlessPrefix(h, e, ops, i, mode);
      RunKeeps(h, e, ops[..i], mode);
    }
    ReadsFromPrefixes(h, e, ops, mode);
  }

  /** Refinement with eviction, for the code as written: a run in which no call is a stale
      insertion or wraps a count answers every read like a flat device, whatever the hash,
      the store's initial contents, the table size and the filter size. */
  lemma RefinesFlatDevice(h: Hash, initial: seq<Page>, maxEntries: nat, bloomCapacity: nat, ops: seq<Op>)
    requires NeverStale(h, NewEngine(initial, maxEntries, bloomCapacity), ops)
    requires NeverWraps(h, NewEngine(initial, maxEntries, bloomCapacity), ops, AsWritten)
    ensures ReadsAnswered(ops, Outcomes(h, NewEngine(initial, maxEntries, bloomCapacity), ops, AsWritten))
  {
    hide NeverStale, NeverWraps, Harmless, ReadsAnswered;
    HarmlessMeans(h, NewEngine(initial, maxEntries, bloomCapacity), ops, AsWritten);
    HarmlessRefines(h, initial, maxEntries, bloomCapacity, ops, AsWritten);
  }

  /** With the slot-comparing release only wrapping counts remain. */
  lemma CheckedReleaseRefines(h: Hash, initial: seq<Page>, maxEntries: nat, bloomCapacity: nat, ops: seq<Op>)
    requires NeverWraps(h, NewEngine(initial, maxEntries, bloomCapacity), ops, SlotChecked)
    ensures ReadsAnswered(ops, Outcomes(h, NewEngine(initial, maxEntries, bloomCapacity), ops, SlotChecked))
  {
    hide NeverStale, NeverWraps, Harmless, ReadsAnswered;
    HarmlessMeans(h, NewEngine(initial, maxEntries, bloomCapacity), ops, SlotChecked);
    HarmlessRefines(h, initial, maxEntries, bloomCapacity, ops, SlotChecked);
  }

  // ----- A table with room for every slot -----

  lemma AmpleNeverStale(h: Hash, e: Engine, op: Op)
    requires Inv(h, e, AsWritten) && Ample(e)
    ensures !StaleInsert(h, e, op)
  {
  }

  ghost predicate SameSizes(e: Engine, f: Engine) {
    f.table.maxEntries == e.table.maxEntries && f.alloc.max == e.alloc.max && |f.store| == |e.store|
  }

  /** Either the table has room or no slot is left to fill it from. */
  ghost predicate RoomIfNeeded(e: Engine) {
    |e.table.entries| < e.table.maxEntries || e.alloc.Exhausted()
  }

  lemma ReplaceKeepsSizes(e: Engine, v: nat, t: Translation, mode: ReleaseMode)
    ensures var f := e.Replace(v, t, mode);
            SameSizes(e, f) && f.table.evictions == e.table.evictions
  {
  }

  lemma WriteUniqueKeepsSizes(e: Engine, v: nat, fp: Fingerprint, page: Page, mode: ReleaseMode)
    ensures var f := e.WriteUnique(v, fp, page, mode).0;
            SameSizes(e, f) && (RoomIfNeeded(e) ==> f.table.evictions == e.table.evictions)
  {
    hide Engine.Replace;
    var (e1, slot) := e.StoreFresh(page);
    if slot.Some? {
      var (t, tracked) := e1.table.Insert(fp, page, slot.value);
      var entry := if tracked then DedupTo(fp, slot.value) else DirectTo(slot.value);
      ReplaceKeepsSizes(e1.(table := t).CountUnique(), v, entry, mode);
    }
  }

  lemma WriteDedupKeepsSizes(e: Engine, v: nat, fp: Fingerprint, page: Page, mode: ReleaseMode)
    ensures var f := e.WriteDedup(v, fp, page, mode).0;
            SameSizes(e, f) && (RoomIfNeeded(e) ==> f.table.evictions == e.table.evictions)
  {
    hide Engine.Replace, Engine.WriteUnique;
    var (t, r) := e.table.Lookup(fp, page);
    var e1 := e.(table := t);
    WriteUniqueKeepsSizes(e1, v, fp, page, mode);
    if r.Duplicate? {
      ReplaceKeepsSizes(e1.(table := t.AddReference(fp).0).CountDuplicate(), v, DedupTo(fp, r.slot), mode);
    }
  }

  lemma WriteKeepsSizes(h: Hash, e: Engine, v: nat, data: seq<Byte>, mode: ReleaseMode)
    ensures var f := e.HandleWrite(h, v, data, mode).0;
            SameSizes(e, f) && (RoomIfNeeded(e) ==> f.table.evictions == e.table.evictions)
  {
    hide Engine.Replace, Engine.WriteDedup;
    var page := NormalizePage(data);
    var e1 := e.(stats := e.stats.(totalWrites := e.stats.totalWrites + 1));
    if e.passthrough {
      var (e2, slot) := e1.StoreFresh(page);
      if slot.Some? { ReplaceKeepsSizes(e2.CountUnique(), v, DirectTo(slot.value), mode); }
    } else {
      WriteDedupKeepsSizes(e1, v, h(page), page, mode);
    }
  }

  lemma ReleaseKeepsSizes(e: Engine, t: Translation, mode: ReleaseMode)
    ensures var f := e.Release(t, mode);
            SameSizes(e, f) && f.table.evictions == e.table.evictions
  {
  }

  lemma StepKeepsSizes(h: Hash, e: Engine, op: Op, mode: ReleaseMode)
    ensures var f := Step(h, e, op, mode).0;
            SameSizes(e, f) && (RoomIfNeeded(e) ==> f.table.evictions == e.table.evictions)
  {
    hide Engine.Release, Engine.HandleWrite, RoomIfNeeded;
    match op
    case Write(v, data) => WriteKeepsSizes(h, e, v, data, mode);
    case Read(v) =>
    case Discard(v) =>
      if v in e.translation {
        var e1 := e.(stats := e.stats.(discards := e.stats.discards + 1), translation := e.translation - {v});
        ReleaseKeepsSizes(e1, e.translation[v], mode);
      }
    case SetPassthrough(on) =>
  }

  lemma {:induction false} RunKeepsSizes(h: Hash, e: Engine, ops: seq<Op>, mode: ReleaseMode)
    ensures SameSizes(e, Run(h, e, ops, mode))
  {
    hide Step;
    if ops != [] {
      RunKeepsSizes(h, e, ops[..|ops| - 1], mode);
      StepKeepsSizes(h, Run(h, e, ops[..|ops| - 1], mode), ops[|ops| - 1], mode);
    }
  }

  lemma AmpleHasRoom(h: Hash, e: Engine, mode: ReleaseMode)
    requires Inv(h, e, mode) && Ample(e)
    ensures RoomIfNeeded(e)
  {
    hide Owned, Settled, Table.Wf;
    if !e.alloc.Exhausted() {
      var spare := SpareOffset(e.translation, 0);
      StoreFreshKeeps(h, e, ZERO_PAGE, spare, mode);
      var (f, slot) := e.StoreFresh(ZERO_PAGE);
      RoomForHeld(h, f.(translation := e.translation[spare := DirectTo(slot.value)]), spare);
    }
  }

  /** As many entries as slots: no run is ever stale unless a count wraps first. */
  lemma {:induction false} AmpleHarmless(h: Hash, e: Engine, ops: seq<Op>)
    requires Inv(h, e, AsWritten) && Ample(e) && e.translation == map[] && NeverWraps(h, e, ops, AsWritten)
    ensures Harmless(h, e, ops, AsWritten)
  {
    hide Inv, StaleInsert, WrapsCount, Step, ReadsExpected;
    if ops != [] {
      var last := |ops| - 1;
      var init := ops[..last];
      forall i | 0 <= i < last
        ensures init[..i] == ops[..i] && init[i] == ops[i]
      {
      }
      AmpleHarmless(h, e, init);
      RunKeeps(h, e, init, AsWritten);
      RunKeepsSizes(h, e, init, AsWritten);
      AmpleNeverStale(h, Run(h, e, init, AsWritten), ops[last]);
      HarmlessLast(h, e, ops, AsWritten);
    }
  }

  /** A harmless run and one more harmless call. */
  lemma HarmlessLast(h: Hash, e: Engine, ops: seq<Op>, mode: ReleaseMode)
    requires ops != [] && Harmless(h, e, ops[..|ops| - 1], mode)
    requires !Harmful(h, Run(h, e, ops[..|ops| - 1], mode), ops[|ops| - 1], mode)
    ensures Harmless(h, e, ops, mode)
  {
    hide Harmful, Run;
    var init := ops[..|ops| - 1];
    forall i | 0 <= i < |ops|
      ensures !Harmful(h, Run(h, e, ops[..i], mode), ops[i], mode)
    {
      if i < |init| {
        assert init[..i] == ops[..i] && init[i] == ops[i];
      }
    }
  }

  lemma AmpleRunNeverStale(h: Hash, e: Engine, ops: seq<Op>)
    requires Inv(h, e, AsWritten) && Ample(e) && e.translation == map[] && NeverWraps(h, e, ops, AsWritten)
    ensures NeverStale(h, e, ops)
  {
    hide Inv, NeverStale, NeverWraps, Harmless;
    AmpleHarmless(h, e, ops);
    HarmlessMeans(h, e, ops, AsWritten);
  }

  /** And none ever evicts. */
  lemma {:induction false} AmpleRunNeverEvicts(h: Hash, e: Engine, ops: seq<Op>)
    requires Inv(h, e, AsWritten) && Ample(e) && e.translation == map[] && NeverWraps(h, e, ops, AsWritten)
    ensures Run(h, e, ops, AsWritten).table.evictions == e.table.evictions
  {
    hide Inv, NeverWraps;
    AmpleHarmless(h, e, ops);
    HarmlessNeverEvicts(h, e, ops);
  }

  lemma {:induction false} HarmlessNeverEvicts(h: Hash, e: Engine, ops: seq<Op>)
    requires Inv(h, e, AsWritten) && Ample(e) && e.translation == map[] && Harmless(h, e, ops, AsWritten)
    ensures Run(h, e, ops, AsWritten).table.evictions == e.table.evictions
  {
    hide Inv, Step, ReadsExpected, RoomIfNeeded, Harmless;
    if ops != [] {
      var init := ops[..|ops| - 1];
      HarmlessPrefix(h, e, ops, |ops| - 1, AsWritten);
      HarmlessNeverEvicts(h, e, init);
      RunKeeps(h, e, init, AsWritten);
      RunKeepsSizes(h, e, init, AsWritten);
      AmpleHasRoom(h, Run(h, e, init, AsWritten), AsWritten);
      StepKeepsSizes(h, Run(h, e, init, AsWritten), ops[|ops| - 1], AsWritten);
    }
  }

  /** With a table entry for each slot only wrapping counts remain. */
  lemma AmpleTableRefines(h: Hash, initial: seq<Page>, maxEntries: nat, bloomCapacity: nat, ops: seq<Op>)
    requires maxEntries >= |initial| && NeverWraps(h, NewEngine(initial, maxEntries, bloomCapacity), ops, AsWritten)
    ensures ReadsAnswered(ops, Outcomes(h, NewEngine(initial, maxEntries, bloomCapacity), ops, AsWritten))
  {
    hide NeverStale, NeverWraps, ReadsAnswered, Inv;
    var e := NewEngine(initial, maxEntries, bloomCapacity);
    NewEngineInv(h, initial, maxEntries, bloomCapacity, AsWritten);
    AmpleRunNeverStale(h, e, ops);
    RefinesFlatDevice(h, initial, maxEntries, bloomCapacity, ops);
  }

  // ----- Runs too small to wrap a count -----

  /** Fewer different offsets than a count can count. */
  ghost predicate SmallRun(ops: seq<Op>) {
    |Offsets(ops)| + 1 < TWO_32
  }

  lemma FewMappedNoWrap(h: Hash, e: Engine, op: Op)
    requires Owns(h, e) && |e.translation.Keys| + 1 < TWO_32
    ensures !WrapsCount(h, e, op)
  {
    hide AlreadyStored, NormalizePage;
    if op.Write? {
      var fp := h(NormalizePage(op.data));
      if fp in e.table.entries {
        CardSubset(Sharers(e.translation, DedupTo(fp, e.table.entries[fp].slot)), e.translation.Keys);
      } else {
        NotStored(e, fp, NormalizePage(op.data));
      }
    }
  }

  lemma NotStored(e: Engine, fp: Fingerprint, page: Page)
    requires fp !in e.table.entries
    ensures !AlreadyStored(e, fp, page)
  {
  }

  /** On so few offsets no call of a run wraps a count. */
  lemma {:induction false} SmallRunHarmless(h: Hash, e: Engine, ops: seq<Op>, mode: ReleaseMode)
    requires Inv(h, e, mode) && e.translation == map[] && SmallRun(ops)
    requires mode == AsWritten ==> Ample(e) || NeverStale(h, e, ops)
    ensures Harmless(h, e, ops, mode)
  {
    hide Inv, StaleInsert, WrapsCount, Step, ReadsExpected;
    if ops != [] {
      var last := |ops| - 1;
      var init := ops[..last];
      CardSubset(Offsets(init), Offsets(ops));
      forall i | 0 <= i < last
        ensures init[..i] == ops[..i] && init[i] == ops[i]
      {
      }
      SmallRunHarmless(h, e, init, mode);
      RunKeeps(h, e, init, mode);
      var f := Run(h, e, init, mode);
      CardSubset(f.translation.Keys, Offsets(ops));
      assert Owns(h, f) by { InvMeansOwns(h, f, mode); }
      FewMappedNoWrap(h, f, ops[last]);
      RunKeepsSizes(h, e, init, mode);
      if mode == AsWritten && Ample(e) { AmpleNeverStale(h, f, ops[last]); }
      HarmlessLast(h, e, ops, mode);
    }
  }

  lemma InvMeansOwns(h: Hash, e: Engine, mode: ReleaseMode)
    requires Inv(h, e, mode)
    ensures Owns(h, e)
  {
  }

  /** Runs that write fewer than 2^32 - 1 offsets: a table entry for each slot, or the
      slot-comparing release, is all it takes. */
  lemma SmallRunsRefine(h: Hash, initial: seq<Page>, maxEntries: nat, bloomCapacity: nat, ops: seq<Op>, mode: ReleaseMode)
    requires SmallRun(ops)
    requires mode == AsWritten ==>
               maxEntries >= |initial| || NeverStale(h, NewEngine(initial, maxEntries, bloomCapacity), ops)
    ensures ReadsAnswered(ops, Outcomes(h, NewEngine(initial, maxEntries, bloomCapacity), ops, mode))
  {
    hide Inv, NeverStale, Harmless, ReadsAnswered;
    NewEngineInv(h, initial, maxEntries, bloomCapacity, mode);
    SmallRunHarmless(h, NewEngine(initial, maxEntries, bloomCapacity), ops, mode);
    HarmlessRefines(h, initial, maxEntries, bloomCapacity, ops, mode);
  }
}
