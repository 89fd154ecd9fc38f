/** What holds in every state, also after a stale insertion: a successful write is read
    back at once, and the write counters add up. */
module Readback {
  import opened Fingerprints
  import opened Dedup
  import opened Backend
  import opened Engines
  import opened EngineSteps

  lemma ReplaceReads(e: Engine, v: nat, t: Translation, mode: ReleaseMode)
    ensures var f := e.Replace(v, t, mode);
            f.Peek(v) == e.ReadSlot(t.slot) && f.stats == e.stats
  {
    hide Engine.Release;
    if v in e.translation {
      ReleaseLocal(e.(translation := e.translation[v := t]), e.translation, e.translation[v], mode);
    }
  }

  lemma WriteUniqueReads(e: Engine, v: nat, fp: Fingerprint, page: Page, mode: ReleaseMode)
    ensures var (f, ok) := e.WriteUnique(v, fp, page, mode);
            && (ok ==> f.Peek(v) == Some(page) && f.stats == e.CountUnique().stats)
            && (!ok ==> f.stats == e.stats)
  {
    hide Engine.Replace, Table.Insert;
    var (e1, slot) := e.StoreFresh(page);
    if slot.Some? {
      var (t, tracked) := e1.table.Insert(fp, page, slot.value);
      ReplaceReads(e1.(table := t).CountUnique(), v,
                   if tracked then DedupTo(fp, slot.value) else DirectTo(slot.value), mode);
    }
  }

  /** Which counter a write moves. */
  ghost predicate CountsOnce(e: Engine, f: Engine, ok: bool) {
    if ok then f.stats == e.CountUnique().stats || f.stats == e.CountDuplicate().stats
    else f.stats == e.stats
  }

  lemma WriteDedupReads(e: Engine, v: nat, fp: Fingerprint, page: Page, mode: ReleaseMode)
    ensures var (f, ok) := e.WriteDedup(v, fp, page, mode);
            (ok ==> f.Peek(v) == Some(page)) && CountsOnce(e, f, ok)
  {
    hide Engine.Replace, Engine.WriteUnique, Table.AddReference, Table.Lookup;
    var (t, r) := e.table.Lookup(fp, page);
    var e1 := e.(table := t);
    WriteUniqueReads(e1, v, fp, page, mode);
    if r.Duplicate? {
      ReplaceReads(e1.(table := t.AddReference(fp).0).CountDuplicate(), v, DedupTo(fp, r.slot), mode);
    }
  }

  lemma WriteDirectReads(e: Engine, v: nat, page: Page, mode: ReleaseMode)
    ensures var (f, ok) := e.WriteDirect(v, page, mode);
            (ok ==> f.Peek(v) == Some(page)) && CountsOnce(e, f, ok)
  {
    hide Engine.Replace;
    var (e1, slot) := e.StoreFresh(page);
    if slot.Some? {
      ReplaceReads(e1.CountUnique(), v, DirectTo(slot.value), mode);
    }
  }

  /** In any state whatever, an Ok write is what an immediate read of the same offset
      returns. */
  lemma WriteThenRead(h: Hash, e: Engine, v: nat, data: seq<Byte>, mode: ReleaseMode)
    ensures var (f, ok) := e.HandleWrite(h, v, data, mode);
            ok ==> f.HandleRead(v).1 == Some(NormalizePage(data))
  {
    hide Engine.WriteDirect, Engine.WriteDedup;
    var e1 := e.(stats := e.stats.(totalWrites := e.stats.totalWrites + 1));
    WriteDirectReads(e1, v, NormalizePage(data), mode);
    WriteDedupReads(e1, v, h(NormalizePage(data)), NormalizePage(data), mode);
  }

  // ----- Failures in any state -----

  /** Nothing mapped or stored has changed, and each slot taken is queued again. */
  ghost predicate LeaksNothing(e: Engine, f: Engine) {
    && f.translation == e.translation && f.store == e.store && f.table.entries == e.table.entries
    && f.alloc.max == e.alloc.max
    && (forall i :: i in e.alloc.free ==> i in f.alloc.free)
    && forall i :: e.alloc.next <= i < f.alloc.next ==> i in f.alloc.free
  }

  lemma FailedStoreLeaksNothing(e: Engine, page: Page)
    requires forall i :: i in e.alloc.free ==> i < e.alloc.max
    ensures var (f, slot) := e.StoreFresh(page);
            (slot.None? ==> LeaksNothing(e, f)) && f.table == e.table && f.stats == e.stats
    ensures var taken := e.alloc.Allocate().1;
            e.StoreFresh(page).1 == if taken.Some? && taken.value < |e.store| then taken else None
  {
    var slot := e.alloc.Allocate().1;
    if slot.Some? && e.alloc.free != [] {
      assert e.alloc.free[0] in e.alloc.free;
      assert forall i :: i in e.alloc.free <==> i == e.alloc.free[0] || i in e.alloc.free[1..];
    }
  }

  /** In any state, also one whose store is smaller than its allocator believes, a write that
      fails changes no mapping and no page and gives its slot back; and it fails if the index
      answers with a slot that cannot be read. */
  lemma FailedWriteLeaksNothing(h: Hash, e: Engine, v: nat, data: seq<Byte>, mode: ReleaseMode)
    requires forall i :: i in e.alloc.free ==> i < e.alloc.max
    ensures var (f, ok) := e.HandleWrite(h, v, data, mode);
            && (!ok ==> LeaksNothing(e, f))
            && (!e.passthrough ==>
                  var page := NormalizePage(data);
                  var answer := e.table.Lookup(h(page), page).1;
                  answer.Duplicate? && answer.slot >= |e.store| ==> !ok)
  {
    hide Engine.StoreFresh, Engine.Replace, Table.Insert, Table.AddReference, NormalizePage;
    var page := NormalizePage(data);
    var e0 := e.(stats := e.stats.(totalWrites := e.stats.totalWrites + 1));
    FailedStoreLeaksNothing(e0, page);
    FailedStoreLeaksNothing(e0.(table := e0.table.Lookup(h(page), page).0), page);
  }

  // ----- Counters over runs -----

  function Writes(ops: seq<Op>): nat {
    if ops == [] then 0 else Writes(ops[..|ops| - 1]) + if ops[|ops| - 1].Write? then 1 else 0
  }

  function Reads(ops: seq<Op>): nat {
    if ops == [] then 0 else Reads(ops[..|ops| - 1]) + if ops[|ops| - 1].Read? then 1 else 0
  }

  function Discards(ops: seq<Op>): nat {
    if ops == [] then 0 else Discards(ops[..|ops| - 1]) + if ops[|ops| - 1].Discard? then 1 else 0
  }

  function FailedWrites(outcomes: seq<Outcome>): nat {
    if outcomes == [] then 0 else
    FailedWrites(outcomes[..|outcomes| - 1]) + if outcomes[|outcomes| - 1] == Wrote(false) then 1 else 0
  }

  lemma StepCounts(h: Hash, e: Engine, op: Op, mode: ReleaseMode)
    ensures var (f, outcome) := Step(h, e, op, mode);
            && f.stats.totalWrites == e.stats.totalWrites + (if op.Write? then 1 else 0)
            && f.stats.uniqueWrites + f.stats.duplicateWrites ==
                 e.stats.uniqueWrites + e.stats.duplicateWrites
                 + (if op.Write? && outcome != Wrote(false) then 1 else 0)
            && (outcome == Wrote(false) ==> op.Write?)
            && f.stats.totalReads == e.stats.totalReads + (if op.Read? then 1 else 0)
            && f.stats.discards == e.stats.discards + (if op.Discard? then 1 else 0)
  {
    hide Engine.WriteDirect, Engine.WriteDedup, Engine.Release;
    match op
    case Write(v, data) =>
      var e1 := e.(stats := e.stats.(totalWrites := e.stats.totalWrites + 1));
      WriteDirectReads(e1, v, NormalizePage(data), mode);
      WriteDedupReads(e1, v, h(NormalizePage(data)), NormalizePage(data), mode);
    case Discard(v) =>
      if v in e.translation {
        var e1 := e.(stats := e.stats.(discards := e.stats.discards + 1), translation := e.translation - {v});
        ReleaseLocal(e1, e1.translation, e.translation[v], mode);
      }
    case Read(v) =>
    case SetPassthrough(on) =>
  }

  /** Over every run each write is counted once in total and once as unique, duplicate or
      failed; each read and each discard, mapped or not, is counted once. */
  lemma {:induction false} WritesAddUp(h: Hash, initial: seq<Page>, maxEntries: nat, bloomCapacity: nat,
                                       ops: seq<Op>, mode: ReleaseMode)
    ensures var e := NewEngine(initial, maxEntries, bloomCapacity);
            var s := Run(h, e, ops, mode).stats;
            && s.totalWrites == Writes(ops) && s.totalReads == Reads(ops) && s.discards == Discards(ops)
            && s.totalWrites == s.uniqueWrites + s.duplicateWrites + FailedWrites(Outcomes(h, e, ops, mode))
  {
    hide Step;
    if ops != [] {
      var e := NewEngine(initial, maxEntries, bloomCapacity);
      var init := ops[..|ops| - 1];
      WritesAddUp(h, initial, maxEntries, bloomCapacity, init, mode);
      StepCounts(h, Run(h, e, init, mode), ops[|ops| - 1], mode);
      var outs := Outcomes(h, e, ops, mode);
      assert outs[..|outs| - 1] == Outcomes(h, e, init, mode);
    }
  }
}
