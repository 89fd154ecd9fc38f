/** Slot allocation, translation entries and the page store
    (crates/swap-proxy/src/backend.rs). */
module Backend {
  import opened Fingerprints

  // ----- Slot allocator -----

  datatype Allocator = Allocator(free: seq<nat>, next: nat, max: nat) {

    /** Takes the oldest freed slot, else the next unused one; the counter is restored on failure. */
    function Allocate(): (Allocator, Option<nat>) {
      if free != [] then (this.(free := free[1..]), Some(free[0]))
      else if next >= max then (this, None)
      else (this.(next := next + 1), Some(next))
    }

    function Free(slot: nat): Allocator {
      if slot < max then this.(free := free + [slot]) else this
    }

    predicate Exhausted() {
      free == [] && next >= max
    }
  }

  /** The allocator after `n` allocations. */
  function Taken(a: Allocator, n: nat): Allocator {
    if n == 0 then a else Taken(a, n - 1).Allocate().0
  }

  lemma {:induction false} TakenQueued(a: Allocator, n: nat)
    requires n <= |a.free|
    ensures Taken(a, n) == a.(free := a.free[n..])
  {
    if n > 0 {
      TakenQueued(a, n - 1);
    }
  }

  lemma {:induction false} TakenUnused(a: Allocator, n: nat)
    requires a.next <= a.max
    ensures Taken(a, |a.free| + n) == Allocator([], if a.next + n <= a.max then a.next + n else a.max, a.max)
  {
    if n == 0 {
      TakenQueued(a, |a.free|);
    } else {
      TakenUnused(a, n - 1);
    }
  }

  /** Queued slots are handed out in order, then unused ones in order, then none. */
  lemma HandedOutInOrder(a: Allocator, k: nat)
    requires a.next <= a.max
    ensures Taken(a, k).Allocate().1 ==
              if k < |a.free| then Some(a.free[k])
              else if a.next + (k - |a.free|) < a.max then Some(a.next + (k - |a.free|)) else None
  {
    if k < |a.free| { TakenQueued(a, k); } else { TakenUnused(a, k - |a.free|); }
  }

  /** A freed slot comes back after all that were queued before it; one outside the store is
      not taken back, and a refused allocation changes nothing. */
  lemma FreedInOrder(a: Allocator, slot: nat)
    requires a.next <= a.max
    ensures slot >= a.max ==> a.Free(slot) == a
    ensures slot < a.max ==> Taken(a.Free(slot), |a.free|).Allocate().1 == Some(slot)
    ensures slot < a.max ==> forall k :: 0 <= k < |a.free| ==> Taken(a.Free(slot), k).Allocate().1 == Some(a.free[k])
    ensures a.Allocate().1 == None ==> a.Allocate().0 == a
  {
    hide Taken;
    var b := a.Free(slot);
    if slot < a.max {
      HandedOutInOrder(b, |a.free|);
      forall k | 0 <= k < |a.free|
        ensures Taken(b, k).Allocate().1 == Some(a.free[k])
      {
        HandedOutInOrder(b, k);
      }
    }
  }

  class SlotAllocator {
    var freeSlots: seq<nat>
    var nextSlot: nat
    const maxSlots: nat

    ghost function View(): Allocator
      reads this
    {
      Allocator(freeSlots, nextSlot, maxSlots)
    }

    constructor (maxSlots: nat)
      ensures View() == Allocator([], 0, maxSlots)
    {
      freeSlots, nextSlot, this.maxSlots := [], 0, maxSlots;
    }

    method Allocate() returns (slot: Option<nat>)
      modifies this
      ensures (View(), slot) == old(View()).Allocate()
    {
      if freeSlots != [] {
        slot := Some(freeSlots[0]);
        freeSlots := freeSlots[1..];
        return;
      }
      var fetched := nextSlot;
      nextSlot := nextSlot + 1;
      if fetched >= maxSlots {
        nextSlot := nextSlot - 1;
        return None;
      }
      return Some(fetched);
    }

    method Free(slot: nat)
      modifies this
      ensures View() == old(View()).Free(slot)
    {
      if slot < maxSlots {
        freeSlots := freeSlots + [slot];
      }
    }
  }

  // ----- Translations -----

  datatype MappingKind = Direct | Deduplicated(fp: Fingerprint)

  datatype Translation = Translation(kind: MappingKind, slot: nat)

  function DirectTo(slot: nat): Translation {
    Translation(Direct, slot)
  }

  function DedupTo(fp: Fingerprint, slot: nat): Translation {
    Translation(Deduplicated(fp), slot)
  }

  type Translations = map<nat, Translation>

  // ----- Page store -----

  class PageStore {
    const pages: array<Page>

    constructor (initial: seq<Page>)
      ensures fresh(pages) && pages[..] == initial
    {
      pages := new Page[|initial|](i requires 0 <= i < |initial| => initial[i]);
    }

    /** Pads or truncates to one page; refuses a slot out of range. */
    method WritePage(slot: nat, data: seq<Byte>) returns (ok: bool)
      modifies pages
      ensures ok == (slot < pages.Length)
      ensures pages[..] == if ok then old(pages[..])[slot := NormalizePage(data)] else old(pages[..])
    {
      if slot >= pages.Length {
        return false;
      }
      if |data| >= PAGE_SIZE {
        pages[slot] := data[..PAGE_SIZE];
      } else {
        pages[slot] := data + seq(PAGE_SIZE - |data|, i => 0);
      }
      return true;
    }

    method ReadPage(slot: nat) returns (page: Option<Page>)
      ensures page == if slot < pages.Length then Some(pages[slot]) else None
    {
      if slot >= pages.Length {
        return None;
      }
      return Some(pages[slot]);
    }
  }
}
