/** A device that nobody takes out of passthrough, as it starts: every page keeps a slot of
    its own, nothing is tracked, and the flat-device promise holds without hypotheses. */
module PassthroughRuns {
  import opened Fingerprints
  import opened Dedup
  import opened Backend
  import opened Engines
  import opened Ownership
  import opened EngineSteps
  import opened Refinement
  import opened Conservation
  import opened Exactness
  import opened Frontend
  import opened RequestRuns

  /** No call turns passthrough off. */
  ghost predicate NeverOff(ops: seq<Op>) {
    forall i :: 0 <= i < |ops| ==> ops[i] != SetPassthrough(false)
  }

  /** Passthrough is on, nothing was ever tracked, and every mapping is direct. */
  ghost predicate AllDirect(e: Engine) {
    e.passthrough && e.table.entries == map[] && forall u :: u in e.translation ==> e.translation[u].kind.Direct?
  }

  lemma FreshDirect(initial: seq<Page>, maxEntries: nat, bloomCapacity: nat)
    ensures AllDirect(NewEngine(initial, maxEntries, bloomCapacity))
  {
  }

  lemma WriteStaysDirect(h: Hash, e: Engine, v: nat, data: seq<Byte>, mode: ReleaseMode)
    requires AllDirect(e)
    ensures AllDirect(e.HandleWrite(h, v, data, mode).0)
  {
    hide NormalizePage;
  }

  lemma DiscardStaysDirect(e: Engine, v: nat, mode: ReleaseMode)
    requires AllDirect(e)
    ensures AllDirect(e.HandleDiscard(v, mode))
  {
  }

  lemma StepStaysDirect(h: Hash, e: Engine, op: Op, mode: ReleaseMode)
    requires AllDirect(e) && op != SetPassthrough(false)
    ensures AllDirect(Step(h, e, op, mode).0)
  {
    hide Engine.HandleWrite, Engine.HandleDiscard;
    match op
    case Write(v, data) => WriteStaysDirect(h, e, v, data, mode);
    case Read(_) =>
    case Discard(v) => DiscardStaysDirect(e, v, mode);
    case SetPassthrough(_) =>
  }

  /** Every mapping of such a run is direct. */
  lemma {:induction false} RunStaysDirect(h: Hash, initial: seq<Page>, maxEntries: nat, bloomCapacity: nat,
                                          ops: seq<Op>, mode: ReleaseMode)
    requires NeverOff(ops)
    ensures AllDirect(Run(h, NewEngine(initial, maxEntries, bloomCapacity), ops, mode))
  {
    hide Step, AllDirect, NewEngine;
    if ops == [] {
      FreshDirect(initial, maxEntries, bloomCapacity);
    } else {
      var init := ops[..|ops| - 1];
      RunStaysDirect(h, initial, maxEntries, bloomCapacity, init, mode);
      StepStaysDirect(h, Run(h, NewEngine(initial, maxEntries, bloomCapacity), init, mode), ops[|ops| - 1], mode);
    }
  }

  lemma RunHarmless(h: Hash, initial: seq<Page>, maxEntries: nat, bloomCapacity: nat, ops: seq<Op>, mode: ReleaseMode)
    requires NeverOff(ops)
    ensures Harmless(h, NewEngine(initial, maxEntries, bloomCapacity), ops, mode)
  {
    hide Harmful, Run;
    var e := NewEngine(initial, maxEntries, bloomCapacity);
    forall i | 0 <= i < |ops|
      ensures !Harmful(h, Run(h, e, ops[..i], mode), ops[i], mode)
    {
      RunStaysDirect(h, initial, maxEntries, bloomCapacity, ops[..i], mode);
      if Harmful(h, Run(h, e, ops[..i], mode), ops[i], mode) {
        HarmfulIsWrite(h, Run(h, e, ops[..i], mode), ops[i], mode);
      }
    }
  }

  /** A device that stays in passthrough answers every read like a flat device: for every
      hash, table size and filter size, and every run. */
  lemma PassthroughRefines(h: Hash, initial: seq<Page>, maxEntries: nat, bloomCapacity: nat, ops: seq<Op>)
    requires NeverOff(ops)
    ensures ReadsAnswered(ops, Outcomes(h, NewEngine(initial, maxEntries, bloomCapacity), ops, AsWritten))
  {
    hide Harmless, ReadsAnswered, NewEngine, NeverOff;
    RunHarmless(h, initial, maxEntries, bloomCapacity, ops, AsWritten);
    HarmlessRefines(h, initial, maxEntries, bloomCapacity, ops, AsWritten);
  }

  /** There a write fails exactly when as many offsets are mapped as there are slots, even
      one that only rewrites a mapped offset: the new slot is taken before the old is freed. */
  lemma PassthroughWriteFails(h: Hash, initial: seq<Page>, maxEntries: nat, bloomCapacity: nat, ops: seq<Op>,
                              v: nat, data: seq<Byte>)
    requires NeverOff(ops)
    ensures var e := Run(h, NewEngine(initial, maxEntries, bloomCapacity), ops, AsWritten);
            !e.HandleWrite(h, v, data, AsWritten).1 <==> |e.translation| == |initial|
  {
    hide Run, Harmless, ReadsExpected, Engine.HandleWrite, Inv, AlreadyStored;
    var start := NewEngine(initial, maxEntries, bloomCapacity);
    var e := Run(h, start, ops, AsWritten);
    RunHarmless(h, initial, maxEntries, bloomCapacity, ops, AsWritten);
    RunStaysDirect(h, initial, maxEntries, bloomCapacity, ops, AsWritten);
    NewEngineInv(h, initial, maxEntries, bloomCapacity, AsWritten);
    RunKeeps(h, start, ops, AsWritten);
    RunKeepsSizes(h, start, ops, AsWritten);
    WriteFailsOnlyWhenFull(h, e, v, data, AsWritten);
    DirectSlots(h, e);
  }

  lemma DirectSlots(h: Hash, e: Engine)
    requires Inv(h, e, AsWritten) && AllDirect(e)
    ensures |OwnedSlots(e)| == |e.translation|
  {
    hide Inv;
    assert Owns(h, e) by { InvMeansOwns(h, e, AsWritten); }
    hide Owns;
    PrivateCounts(h, e);
    assert DirectOffsets(e) == e.translation.Keys;
    assert OwnedSlots(e) == SlotsOf(e.translation, DirectOffsets(e));
    assert |e.translation| == |e.translation.Keys|;
  }

  // ----- Block requests -----

  lemma {:induction false} WritePagesDirect(h: Hash, e: Engine, offset: nat, data: seq<Byte>)
    requires AllDirect(e) && WholePages(|data|)
    ensures AllDirect(WritePages(h, e, offset, data).0) && PagesHarmless(h, e, offset, data)
    decreases |data|
  {
    hide AllDirect, Engine.HandleWrite;
    if data != [] {
      var first := data[..PAGE_SIZE];
      assert e.passthrough by { DirectPasses(e); }
      WriteStaysDirect(h, e, offset, first, AsWritten);
      var (f, ok) := e.HandleWrite(h, offset, first, AsWritten);
      if ok { WritePagesDirect(h, f, offset + PAGE_SIZE, data[PAGE_SIZE..]); }
    }
  }

  lemma DirectPasses(e: Engine)
    requires AllDirect(e)
    ensures e.passthrough
  {
  }

  lemma {:induction false} DiscardPagesDirect(e: Engine, offset: nat, pages: nat)
    requires AllDirect(e)
    ensures AllDirect(DiscardPages(e, offset, pages))
    decreases pages
  {
    hide AllDirect, Engine.HandleDiscard;
    if pages > 0 {
      DiscardStaysDirect(e, offset, AsWritten);
      DiscardPagesDirect(e.HandleDiscard(offset, AsWritten), offset + PAGE_SIZE, pages - 1);
    }
  }

  lemma {:induction false} ReadPagesDirect(e: Engine, offset: nat, pages: nat)
    requires AllDirect(e)
    ensures AllDirect(ReadPages(e, offset, pages).0)
    decreases pages
  {
    if pages > 0 {
      ReadPagesDirect(e.HandleRead(offset).0, offset + PAGE_SIZE, pages - 1);
    }
  }

  lemma EventStaysDirect(h: Hash, e: Engine, ev: Event)
    requires AllDirect(e) && ev != Toggle(false)
    ensures AllDirect(Happen(h, e, ev)) && (ev.Request? ==> RequestHarmless(h, e, ev.q))
  {
    hide WritePages, ReadPages, DiscardPages, PagesNeverStale, PagesNeverWrap;
    if ev.Request? {
      var q := ev.q;
      ReadPagesDirect(e, q.r.offset, PageCount(q.r.bytes));
      DiscardPagesDirect(e, q.r.offset, PageCount(q.r.bytes));
      WritePagesDirect(h, e, q.r.offset, Stored(q));
    }
  }

  ghost predicate NeverToggledOff(evs: seq<Event>) {
    forall i :: 0 <= i < |evs| ==> evs[i] != Toggle(false)
  }

  lemma {:induction false} EventsStayDirect(h: Hash, e: Engine, evs: seq<Event>, n: nat)
    requires AllDirect(e) && NeverToggledOff(evs) && n <= |evs|
    ensures AllDirect(After(h, e, evs[..n]))
  {
    hide AllDirect, Happen;
    if n > 0 {
      EventsStayDirect(h, e, evs, n - 1);
      AfterNext(h, e, evs, n - 1);
      EventStaysDirect(h, After(h, e, evs[..n - 1]), evs[n - 1]);
    }
  }

  /** A served device that stays in passthrough is a plain disk in every run of requests, and
      maps every page directly. */
  lemma PassthroughLikeDisk(h: Hash, initial: seq<Page>, maxEntries: nat, bloomCapacity: nat, evs: seq<Event>)
    requires NeverToggledOff(evs)
    ensures var e := NewEngine(initial, maxEntries, bloomCapacity);
            ServedLikeDisk(h, e, evs) && AllDirect(After(h, e, evs))
  {
    hide AllDirect, Inv, RequestHarmless, ServedLikeDisk, Happen, Image;
    var e := NewEngine(initial, maxEntries, bloomCapacity);
    FreshDirect(initial, maxEntries, bloomCapacity);
    FreshServes(h, initial, maxEntries, bloomCapacity);
    forall i | 0 <= i < |evs| && evs[i].Request?
      ensures RequestHarmless(h, After(h, e, evs[..i]), evs[i].q)
    {
      EventsStayDirect(h, e, evs, i);
      EventStaysDirect(h, After(h, e, evs[..i]), evs[i]);
    }
    ServesFromAnywhere(h, e, evs);
    EventsStayDirect(h, e, evs, |evs|);
    assert evs[..|evs|] == evs;
  }
}
