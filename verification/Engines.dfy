/** The page engine of crates/swap-proxy/src/main.rs, each call one atomic step.
    `h` is the page hash, any function. `mode` selects the release rule: `AsWritten`
    is the source; `SlotChecked` is a repaired rule that also compares slots. */
module Engines {
  import opened Fingerprints
  import opened BloomFilters
  import opened Dedup
  import opened Backend

  datatype ReleaseMode = AsWritten | SlotChecked

  datatype Stats = Stats(totalWrites: nat, uniqueWrites: nat, duplicateWrites: nat, totalReads: nat, discards: nat)

  datatype Engine = Engine(
    table: Table, store: seq<Page>, translation: Translations, alloc: Allocator,
    stats: Stats, passthrough: bool)
  {
    function ReadSlot(slot: nat): Option<Page> {
      if slot < |store| then Some(store[slot]) else None
    }

    function FreeSlot(slot: nat): Engine {
      this.(alloc := alloc.Free(slot))
    }

    function ReleaseByFingerprint(fp: Fingerprint, slot: nat): Engine {
      var (t, r) := table.RemoveReference(fp);
      var e := this.(table := t);
      match r
      case StillReferenced => e
      case Removed(tracked) => e.FreeSlot(tracked)
      case NotTracked => e.FreeSlot(slot)
    }

    function Release(entry: Translation, mode: ReleaseMode): Engine {
      match entry.kind
      case Direct => FreeSlot(entry.slot)
      case Deduplicated(fp) =>
        if mode == SlotChecked && fp in table.entries && table.entries[fp].slot != entry.slot
        then FreeSlot(entry.slot)
        else ReleaseByFingerprint(fp, entry.slot)
    }

    function Replace(offset: nat, entry: Translation, mode: ReleaseMode): Engine {
      var e := this.(translation := translation[offset := entry]);
      if offset in translation then e.Release(translation[offset], mode) else e
    }

    function CountUnique(): Engine {
      this.(stats := stats.(uniqueWrites := stats.uniqueWrites + 1))
    }

    function CountDuplicate(): Engine {
      this.(stats := stats.(duplicateWrites := stats.duplicateWrites + 1))
    }

    /** Allocates a slot and stores the page there, giving the slot back if the store refuses it. */
    function StoreFresh(page: Page): (Engine, Option<nat>) {
      var (a, slot) := alloc.Allocate();
      var e := this.(alloc := a);
      match slot
      case None => (e, None)
      case Some(i) =>
        if i < |store| then (e.(store := store[i := page]), Some(i)) else (e.FreeSlot(i), None)
    }

    function WriteDirect(offset: nat, page: Page, mode: ReleaseMode): (Engine, bool) {
      var (e, slot) := StoreFresh(page);
      match slot
      case None => (e, false)
      case Some(i) => (e.CountUnique().Replace(offset, DirectTo(i), mode), true)
    }

    function WriteUnique(offset: nat, fp: Fingerprint, page: Page, mode: ReleaseMode): (Engine, bool) {
      var (e, slot) := StoreFresh(page);
      match slot
      case None => (e, false)
      case Some(i) =>
        var (t, tracked) := e.table.Insert(fp, page, i);
        var entry := if tracked then DedupTo(fp, i) else DirectTo(i);
        (e.(table := t).CountUnique().Replace(offset, entry, mode), true)
    }

    function WriteDedup(offset: nat, fp: Fingerprint, page: Page, mode: ReleaseMode): (Engine, bool) {
      var (t, r) := table.Lookup(fp, page);
      var e := this.(table := t);
      match r
      case Miss => e.WriteUnique(offset, fp, page, mode)
      case Duplicate(slot) =>
        match e.ReadSlot(slot)
        case None => (e, false)
        case Some(stored) =>
          if stored == page && e.table.AddReference(fp).1 then
            (e.(table := e.table.AddReference(fp).0).CountDuplicate().Replace(offset, DedupTo(fp, slot), mode), true)
          else
            e.WriteUnique(offset, fp, page, mode)
    }

    function HandleWrite(h: Hash, offset: nat, data: seq<Byte>, mode: ReleaseMode): (Engine, bool) {
      var page := NormalizePage(data);
      var e := this.(stats := stats.(totalWrites := stats.totalWrites + 1));
      if passthrough then e.WriteDirect(offset, page, mode)
      else e.WriteDedup(offset, h(page), page, mode)
    }

    /** What a read of `offset` returns; `None` is an I/O error. */
    function Peek(offset: nat): Option<Page> {
      if offset in translation then ReadSlot(translation[offset].slot) else Some(ZERO_PAGE)
    }

    function HandleRead(offset: nat): (Engine, Option<Page>) {
      (this.(stats := stats.(totalReads := stats.totalReads + 1)), Peek(offset))
    }

    function HandleDiscard(offset: nat, mode: ReleaseMode): Engine {
      var e := this.(stats := stats.(discards := stats.discards + 1));
      if offset in translation
      then e.(translation := translation - {offset}).Release(translation[offset], mode)
      else e
    }
  }

  /** A new engine over a store whose pages may hold anything. */
  function NewEngine(initial: seq<Page>, maxEntries: nat, bloomCapacity: nat): Engine {
    Engine(EmptyTable(maxEntries, bloomCapacity), initial, map[], Allocator([], 0, |initial|),
           Stats(0, 0, 0, 0, 0), true)
  }

  // ----- Runs -----

  datatype Op =
    | Write(offset: nat, data: seq<Byte>)
    | Read(offset: nat)
    | Discard(offset: nat)
    | SetPassthrough(on: bool)

  datatype Outcome = Wrote(ok: bool) | GotPage(page: Option<Page>) | Done

  function Step(h: Hash, e: Engine, op: Op, mode: ReleaseMode): (Engine, Outcome) {
    match op
    case Write(offset, data) => var (f, ok) := e.HandleWrite(h, offset, data, mode); (f, Wrote(ok))
    case Read(offset) => var (f, page) := e.HandleRead(offset); (f, GotPage(page))
    case Discard(offset) => (e.HandleDiscard(offset, mode), Done)
    case SetPassthrough(on) => (e.(passthrough := on), Done)
  }

  /** The engine after `ops`. */
  function Run(h: Hash, e: Engine, ops: seq<Op>, mode: ReleaseMode): Engine {
    if ops == [] then e else
    Step(h, Run(h, e, ops[..|ops| - 1], mode), ops[|ops| - 1], mode).0
  }

  /** The outcome of each of `ops`. */
  function Outcomes(h: Hash, e: Engine, ops: seq<Op>, mode: ReleaseMode): (r: seq<Outcome>)
    ensures |r| == |ops|
  {
    if ops == [] then [] else
    Outcomes(h, e, ops[..|ops| - 1], mode) + [Step(h, Run(h, e, ops[..|ops| - 1], mode), ops[|ops| - 1], mode).1]
  }

  // ----- The flat device -----

  /** What `offset` must read after `ops` gave `outcomes`: the last successfully written
      page, normalized, or zeroes. It knows nothing of slots, tables or mappings. */
  function Expected(ops: seq<Op>, outcomes: seq<Outcome>, offset: nat): Page
    requires |ops| == |outcomes|
  {
    if ops == [] then ZERO_PAGE else
    var last := |ops| - 1;
    match ops[last]
    case Write(o, data) =>
      if o == offset && outcomes[last] == Wrote(true) then NormalizePage(data)
      else Expected(ops[..last], outcomes[..last], offset)
    case Discard(o) =>
      if o == offset then ZERO_PAGE else Expected(ops[..last], outcomes[..last], offset)
    case _ => Expected(ops[..last], outcomes[..last], offset)
  }
}
