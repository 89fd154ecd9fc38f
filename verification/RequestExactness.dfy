/** Exactness at the level of block requests: a one-page request is harmful exactly when
    some harmless continuation shows that the device is no plain disk. */
module RequestExactness {
  import opened Fingerprints
  import opened Dedup
  import opened Backend
  import opened Engines
  import opened EngineSteps
  import opened Refinement
  import opened Exactness
  import opened Frontend
  import opened RequestRuns

  // ----- Calls as one-page requests -----

  /** A call that one aligned one-page request makes, or a toggle. */
  predicate OnePage(op: Op) {
    match op
    case Write(offset, data) => WholePages(offset) && |data| == PAGE_SIZE
    case Read(offset) => WholePages(offset)
    case Discard(offset) => WholePages(offset)
    case SetPassthrough(_) => true
  }

  function AsEvent(op: Op): Event
    requires OnePage(op)
  {
    match op
    case Write(offset, data) => Request(Issued(BlockRequest(WriteOp, offset, 4096), data))
    case Read(offset) => Request(Issued(BlockRequest(ReadOp, offset, 4096), Zeros(4096)))
    case Discard(offset) => Request(Issued(BlockRequest(DiscardOp, offset, 4096), []))
    case SetPassthrough(on) => Toggle(on)
  }

  function AsEvents(ops: seq<Op>): (evs: seq<Event>)
    requires forall i :: 0 <= i < |ops| ==> OnePage(ops[i])
    ensures |evs| == |ops| && forall i :: 0 <= i < |ops| ==> evs[i] == AsEvent(ops[i])
  {
    seq(|ops|, i requires 0 <= i < |ops| => AsEvent(ops[i]))
  }

  /** A one-page write request is one write call. */
  lemma OnePageWrite(h: Hash, e: Engine, offset: nat, page: Page)
    requires WholePages(offset)
    ensures var (f, ok) := e.HandleWrite(h, offset, page, AsWritten);
            Execute(h, e, BlockRequest(WriteOp, offset, 4096), page)
              == (f, page, if ok then Completed(4096) else Failed(-EIO))
  {
    hide Engine.HandleWrite;
    var (f, ok) := e.HandleWrite(h, offset, page, AsWritten);
    assert page[..4096] == page && page[..PAGE_SIZE] == page && page[PAGE_SIZE..] == [];
    assert WritePages(h, f, offset + PAGE_SIZE, page[PAGE_SIZE..]) == (f, 0, true);
    assert WritePages(h, e, offset, page).0 == f && WritePages(h, e, offset, page).2 == ok;
  }

  lemma OnePageDiscard(h: Hash, e: Engine, offset: nat)
    requires WholePages(offset)
    ensures Execute(h, e, BlockRequest(DiscardOp, offset, 4096), []).0 == e.HandleDiscard(offset, AsWritten)
  {
    hide Engine.HandleDiscard;
    var f := e.HandleDiscard(offset, AsWritten);
    assert DiscardPages(f, offset + PAGE_SIZE, 0) == f;
  }

  lemma OnePageRead(h: Hash, e: Engine, offset: nat)
    requires WholePages(offset)
    ensures Execute(h, e, BlockRequest(ReadOp, offset, 4096), Zeros(4096)).0 == e.HandleRead(offset).0
  {
    hide Engine.Peek;
    var f := e.HandleRead(offset).0;
    assert ReadPages(f, offset + PAGE_SIZE, 0) == (f, [], true);
    assert ReadPages(e, offset, 1).0 == f;
  }

  lemma EventSteps(h: Hash, e: Engine, op: Op)
    requires OnePage(op)
    ensures Happen(h, e, AsEvent(op)) == Step(h, e, op, AsWritten).0
  {
    hide Engine.HandleWrite, Engine.HandleDiscard, Engine.HandleRead, Execute;
    match op
    case Write(offset, data) => OnePageWrite(h, e, offset, data);
    case Read(offset) => OnePageRead(h, e, offset);
    case Discard(offset) => OnePageDiscard(h, e, offset);
    case SetPassthrough(_) =>
  }

  lemma {:induction false} EventsRun(h: Hash, e: Engine, ops: seq<Op>, n: nat)
    requires n <= |ops| && forall i :: 0 <= i < |ops| ==> OnePage(ops[i])
    ensures After(h, e, AsEvents(ops)[..n]) == Run(h, e, ops[..n], AsWritten)
  {
    hide Step, Happen, AsEvent, OnePage;
    if n > 0 {
      EventsRun(h, e, ops, n - 1);
      EventSteps(h, Run(h, e, ops[..n - 1], AsWritten), ops[n - 1]);
      AfterNext(h, e, AsEvents(ops), n - 1);
      assert ops[..n][..n - 1] == ops[..n - 1];
    }
  }

  /** A one-page request is harmful exactly when its call is. */
  lemma HarmlessAlike(h: Hash, e: Engine, op: Op)
    requires OnePage(op)
    ensures AsEvent(op).Request? ==> (RequestHarmless(h, e, AsEvent(op).q) <==> !Harmful(h, e, op, AsWritten))
    ensures AsEvent(op).Toggle? ==> !Harmful(h, e, op, AsWritten)
  {
    hide StaleInsert, WrapsCount, Engine.HandleWrite;
    if op.Write? {
      var data := op.data;
      assert data[..4096] == data && data[..PAGE_SIZE] == data && data[PAGE_SIZE..] == [];
      var f := e.HandleWrite(h, op.offset, data, AsWritten).0;
      NothingHarmful(h, f, op.offset + PAGE_SIZE);
    } else {
      NothingHarmful(h, e, if op.SetPassthrough? then 0 else op.offset);
      if Harmful(h, e, op, AsWritten) { HarmfulIsWrite(h, e, op, AsWritten); }
    }
  }

  lemma HarmlessEvents(h: Hash, e: Engine, ops: seq<Op>)
    requires Harmless(h, e, ops, AsWritten) && forall i :: 0 <= i < |ops| ==> OnePage(ops[i])
    ensures RequestsHarmless(h, e, AsEvents(ops))
  {
    hide Harmful, RequestHarmless, Run, After, AsEvent, OnePage;
    var evs := AsEvents(ops);
    forall i | 0 <= i < |evs| && evs[i].Request?
      ensures RequestHarmless(h, After(h, e, evs[..i]), evs[i].q)
    {
      EventsRun(h, e, ops, i);
      HarmlessAlike(h, Run(h, e, ops[..i], AsWritten), ops[i]);
    }
  }

  // ----- Joining runs of events -----

  lemma {:induction false} AfterAppend(h: Hash, e: Engine, a: seq<Event>, b: seq<Event>)
    ensures After(h, e, a + b) == After(h, After(h, e, a), b)
    decreases |b|
  {
    hide Happen;
    if b == [] {
      assert a + b == a;
    } else {
      var last := |b| - 1;
      AfterAppend(h, e, a, b[..last]);
      assert (a + b)[..|a + b| - 1] == a + b[..last];
    }
  }

  lemma RequestsHarmlessAppend(h: Hash, e: Engine, a: seq<Event>, b: seq<Event>)
    requires RequestsHarmless(h, e, a) && RequestsHarmless(h, After(h, e, a), b)
    ensures RequestsHarmless(h, e, a + b)
  {
    hide RequestHarmless, After;
    forall i | 0 <= i < |a + b| && (a + b)[i].Request?
      ensures RequestHarmless(h, After(h, e, (a + b)[..i]), (a + b)[i].q)
    {
      if i < |a| {
        assert (a + b)[..i] == a[..i];
      } else {
        assert (a + b)[..i] == a + b[..i - |a|];
        AfterAppend(h, e, a, b[..i - |a|]);
      }
    }
  }

  lemma RequestsHarmlessOne(h: Hash, e: Engine, ev: Event)
    requires ev.Request? ==> RequestHarmless(h, e, ev.q)
    ensures RequestsHarmless(h, e, [ev])
  {
    assert [ev][..0] == [];
  }

  // ----- Mapped offsets are page-aligned -----

  ghost predicate Aligned(e: Engine) {
    forall u :: u in e.translation ==> WholePages(u)
  }

  lemma {:induction false} WritePagesAligned(h: Hash, e: Engine, offset: nat, data: seq<Byte>)
    requires Aligned(e) && WholePages(offset) && WholePages(|data|)
    ensures Aligned(WritePages(h, e, offset, data).0)
    decreases |data|
  {
    hide Engine.HandleWrite;
    if data != [] {
      WriteMaps(h, e, offset, data[..PAGE_SIZE]);
      var (f, ok) := e.HandleWrite(h, offset, data[..PAGE_SIZE], AsWritten);
      if ok { WritePagesAligned(h, f, offset + PAGE_SIZE, data[PAGE_SIZE..]); }
    }
  }

  lemma HappenAligned(h: Hash, e: Engine, ev: Event)
    requires Aligned(e)
    ensures Aligned(Happen(h, e, ev))
  {
    hide WritePages, DiscardPages, ReadPages;
    if ev.Request? {
      var q := ev.q;
      ReadPagesMaps(e, q.r.offset, PageCount(q.r.bytes));
      DiscardPagesMaps(e, q.r.offset, PageCount(q.r.bytes));
      if !Malformed(q) && q.r.op in {WriteOp, WriteZeroesOp} {
        WritePagesAligned(h, e, q.r.offset, Stored(q));
      }
    }
  }

  lemma {:induction false} AfterAligned(h: Hash, e: Engine, evs: seq<Event>)
    requires Aligned(e)
    ensures Aligned(After(h, e, evs))
  {
    hide Happen, Aligned;
    if evs != [] {
      AfterAligned(h, e, evs[..|evs| - 1]);
      HappenAligned(h, After(h, e, evs[..|evs| - 1]), evs[|evs| - 1]);
    }
  }

  // ----- The bytes of an acknowledged write -----

  /** A plain disk keeps a page through an event on other pages. */
  lemma EventKeepsByte(h: Hash, e: Engine, evs: seq<Event>, i: nat, op: Op, v: nat, j: nat)
    requires i < |evs| && ServedAt(h, e, evs, i) && WholePages(v) && j < PAGE_SIZE
    requires OnePage(op) && !op.Read? && evs[i] == AsEvent(op) && (!op.SetPassthrough? ==> op.offset != v)
    ensures Image(After(h, e, evs[..i + 1]))(v + j) == Image(After(h, e, evs[..i]))(v + j)
  {
    hide Execute, Image, After, Readable;
    assert op.Write? ==> op.data[..4096] == op.data;
  }

  /** A plain disk shows an acknowledged one-page write. */
  lemma WriteShows(h: Hash, e: Engine, evs: seq<Event>, i: nat, op: Op, j: nat)
    requires i < |evs| && ServedAt(h, e, evs, i) && j < PAGE_SIZE
    requires OnePage(op) && op.Write? && evs[i] == AsEvent(op)
    requires After(h, e, evs[..i]).HandleWrite(h, op.offset, op.data, AsWritten).1
    ensures Image(After(h, e, evs[..i + 1]))(op.offset + j) == op.data[j]
  {
    hide Execute, Image, After, Readable, Engine.HandleWrite;
    OnePageWrite(h, After(h, e, evs[..i]), op.offset, op.data);
    assert op.data[..4096] == op.data;
  }

  /** `cont` touches page `v` nowhere. */
  ghost predicate Spares(cont: seq<Op>, v: nat) {
    forall i :: 0 <= i < |cont| ==>
      OnePage(cont[i]) && !cont[i].Read? && (!cont[i].SetPassthrough? ==> cont[i].offset != v)
  }

  lemma {:induction false} BytesStay(h: Hash, e: Engine, evs: seq<Event>, op: Op, cont: seq<Op>, n: nat, j: nat)
    requires OnePage(op) && op.Write? && Spares(cont, op.offset) && n <= |cont| && j < PAGE_SIZE
    requires After(h, e, evs).HandleWrite(h, op.offset, op.data, AsWritten).1
    requires ServedLikeDisk(h, e, evs + [AsEvent(op)] + AsEvents(cont))
    ensures Image(After(h, e, (evs + [AsEvent(op)] + AsEvents(cont))[..|evs| + 1 + n]))(op.offset + j) == op.data[j]
  {
    hide ServedAt, Image, After, AsEvent, Engine.HandleWrite;
    var all := evs + [AsEvent(op)] + AsEvents(cont);
    if n == 0 {
      assert all[..|evs|] == evs && all[|evs|] == AsEvent(op);
      WriteShows(h, e, all, |evs|, op, j);
    } else {
      BytesStay(h, e, evs, op, cont, n - 1, j);
      assert all[|evs| + n] == AsEvents(cont)[n - 1];
      EventKeepsByte(h, e, all, |evs| + n, cont[n - 1], op.offset, j);
    }
  }

  // ----- Exactness -----

  /** `cont` is harmless but shows the whole run not to be served as by a plain disk. */
  ghost predicate Exposes(h: Hash, e: Engine, evs: seq<Event>, cont: seq<Event>) {
    RequestsHarmless(h, After(h, e, evs), cont) && !ServedLikeDisk(h, e, evs + cont)
  }

  lemma EventNext(h: Hash, e: Engine, evs: seq<Event>, op: Op)
    requires OnePage(op) && Aligned(e)
    ensures After(h, e, evs + [AsEvent(op)]) == Step(h, After(h, e, evs), op, AsWritten).0
    ensures Aligned(After(h, e, evs + [AsEvent(op)]))
  {
    hide Happen, Step, AsEvent, OnePage, Aligned;
    assert (evs + [AsEvent(op)])[..|evs|] == evs;
    EventSteps(h, After(h, e, evs), op);
    AfterAligned(h, e, evs + [AsEvent(op)]);
  }

  /** A continuation after which the first byte written reads wrong. */
  lemma ExposedBy(h: Hash, e: Engine, evs: seq<Event>, op: Op, cont: seq<Op>)
    requires OnePage(op) && op.Write? && Spares(cont, op.offset)
    requires After(h, e, evs).HandleWrite(h, op.offset, op.data, AsWritten).1
    requires var f := After(h, e, evs + [AsEvent(op)]);
             Harmless(h, f, cont, AsWritten) && Run(h, f, cont, AsWritten).Peek(op.offset) == Some(Other(op.data))
    ensures Exposes(h, e, evs + [AsEvent(op)], AsEvents(cont))
  {
    hide ServedLikeDisk, RequestsHarmless, Happen, Harmless, AsEvent, Image, After, Run, Engine.HandleWrite;
    var ev := AsEvent(op);
    var f := After(h, e, evs + [ev]);
    var all := evs + [ev] + AsEvents(cont);
    HarmlessEvents(h, f, cont);
    EventsRun(h, f, cont, |cont|);
    assert cont[..|cont|] == cont && AsEvents(cont)[..|cont|] == AsEvents(cont);
    AfterAppend(h, e, evs + [ev], AsEvents(cont));
    assert all[..|evs| + 1 + |cont|] == all;
    ImageOfPeek(After(h, e, all), op.offset, Other(op.data));
    if ServedLikeDisk(h, e, all) {
      BytesStay(h, e, evs, op, cont, |cont|, 0);
    }
  }

  lemma HarmfulExposed(h: Hash, e: Engine, evs: seq<Event>, op: Op)
    requires Inv(h, e, AsWritten) && Aligned(e) && RequestsHarmless(h, e, evs)
    requires OnePage(op) && op.Write? && Harmful(h, After(h, e, evs), op, AsWritten)
    ensures exists cont :: Exposes(h, e, evs + [AsEvent(op)], cont)
  {
    hide Inv, Harmful, RequestsHarmless, Happen, Harmless, AsEvent, After, Exposes, Untouched, Aligned, Spoils,
         NormalizePage, Engine.HandleWrite;
    var reached := After(h, e, evs);
    RunServes(h, e, evs, |evs|);
    assert evs[..|evs|] == evs;
    NormalizePageIdentity(op.data);
    var cont, n := HarmfulDiverges(h, reached, op, op.offset + 4096, AsWritten);
    var u := HarmfulDangles(h, reached, op, AsWritten);
    EventNext(h, e, evs, op);
    ContinuationSpares(h, reached, After(h, e, evs + [AsEvent(op)]), op, cont, n);
    ExposedBy(h, e, evs, op, cont);
  }

  lemma ImageOfPeek(e: Engine, v: nat, page: Page)
    requires WholePages(v) && e.Peek(v) == Some(page)
    ensures Image(e)(v) == page[0]
  {
  }

  lemma ContinuationSpares(h: Hash, e: Engine, f: Engine, op: Op, cont: seq<Op>, n: nat)
    requires OnePage(op) && op.Write? && Aligned(f) && Untouched(cont, op.offset)
    requires Spoils(f, cont, n, op.offset + 4096, Other(NormalizePage(op.data)))
    ensures Spares(cont, op.offset)
  {
    forall i | 0 <= i < |cont|
      ensures OnePage(cont[i]) && !cont[i].Read? && (!cont[i].SetPassthrough? ==> cont[i].offset != op.offset)
    {
      assert i < n || i == n || n < i;
    }
  }

  /** After a harmless run of block requests and toggles from a new device, a one-page
      request or toggle is harmful exactly when some harmless continuation shows that the
      device is no plain disk. */
  lemma HarmfulRequestExactly(h: Hash, initial: seq<Page>, maxEntries: nat, bloomCapacity: nat,
                              evs: seq<Event>, op: Op)
    requires RequestsHarmless(h, NewEngine(initial, maxEntries, bloomCapacity), evs) && OnePage(op)
    ensures var e := NewEngine(initial, maxEntries, bloomCapacity);
            Harmful(h, After(h, e, evs), op, AsWritten) <==> exists cont :: Exposes(h, e, evs + [AsEvent(op)], cont)
  {
    var e := NewEngine(initial, maxEntries, bloomCapacity);
    var reached := After(h, e, evs);
    FreshServes(h, initial, maxEntries, bloomCapacity);
    assert Aligned(e);
    hide Harmful, Inv, RequestsHarmless, ServedLikeDisk, After, NewEngine, Image;
    if Harmful(h, reached, op, AsWritten) {
      HarmfulIsWrite(h, reached, op, AsWritten);
      HarmfulExposed(h, e, evs, op);
    } else {
      forall cont | Exposes(h, e, evs + [AsEvent(op)], cont)
        ensures false
      {
        HarmlessAlike(h, reached, op);
        RequestsHarmlessOne(h, reached, AsEvent(op));
        RequestsHarmlessAppend(h, e, evs, [AsEvent(op)]);
        RequestsHarmlessAppend(h, e, evs + [AsEvent(op)], cont);
        ServesFromAnywhere(h, e, evs + [AsEvent(op)] + cont);
      }
    }
  }
}
