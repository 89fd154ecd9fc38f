/** Whole runs of block requests against a plain disk: a function from addresses to bytes
    that knows nothing of pages, slots or tables. */
module RequestRuns {
  import opened Fingerprints
  import opened Backend
  import opened Engines
  import opened Ownership
  import opened EngineSteps
  import opened Refinement
  import opened Frontend

  datatype Issued = Issued(r: BlockRequest, buffer: seq<Byte>)

  /** What may happen to a served device: a request, or passthrough turned on or off. */
  datatype Event = Request(q: Issued) | Toggle(on: bool)

  function Happen(h: Hash, e: Engine, ev: Event): Engine {
    match ev
    case Request(q) => Execute(h, e, q.r, q.buffer).0
    case Toggle(on) => e.(passthrough := on)
  }

  /** The engine after `evs`. */
  function After(h: Hash, e: Engine, evs: seq<Event>): Engine {
    if evs == [] then e else Happen(h, After(h, e, evs[..|evs| - 1]), evs[|evs| - 1])
  }

  // ----- The plain disk -----

  type Disk = nat -> Byte

  ghost predicate SameDisk(d: Disk, d': Disk) {
    forall a: nat :: d'(a) == d(a)
  }

  ghost predicate DiskPatched(d: Disk, d': Disk, offset: nat, bytes: seq<Byte>) {
    forall a: nat :: d'(a) == if offset <= a < offset + |bytes| then bytes[a - offset] else d(a)
  }

  predicate Malformed(q: Issued) {
    && q.r.op in {ReadOp, WriteOp, DiscardOp, WriteZeroesOp}
    && (!PageAligned(q.r) || (q.r.op in {ReadOp, WriteOp} && |q.buffer| < q.r.bytes))
  }

  /** All of `bytes` stored, or whole pages of a proper prefix and an I/O error. */
  ghost predicate Stores(d: Disk, d': Disk, r: BlockRequest, bytes: seq<Byte>, reply: Reply) {
    || (reply == Completed(r.bytes) && DiskPatched(d, d', r.offset, bytes))
    || (reply == Failed(-EIO) && exists n: nat ::
          PageBytes(n) < |bytes| && DiskPatched(d, d', r.offset, bytes[..PageBytes(n)]))
  }

  /** What a plain disk may do with a request. */
  ghost predicate DiskServes(d: Disk, q: Issued, d': Disk, after: seq<Byte>, reply: Reply) {
    if Malformed(q) then SameDisk(d, d') && after == q.buffer && reply == Failed(-EINVAL) else
    match q.r.op
    case ReadOp =>
      && SameDisk(d, d') && reply == Completed(q.r.bytes) && |after| == |q.buffer|
      && forall i :: 0 <= i < |after| ==> after[i] == if i < q.r.bytes then d(q.r.offset + i) else q.buffer[i]
    case WriteOp => after == q.buffer && Stores(d, d', q.r, q.buffer[..q.r.bytes], reply)
    case FlushOp => SameDisk(d, d') && after == q.buffer && reply == Completed(0)
    case DiscardOp =>
      after == q.buffer && DiskPatched(d, d', q.r.offset, Zeros(q.r.bytes)) && reply == Completed(q.r.bytes)
    case WriteZeroesOp => after == q.buffer && Stores(d, d', q.r, Zeros(q.r.bytes), reply)
    case UnsupportedOp(_) => SameDisk(d, d') && after == q.buffer && reply == Failed(-EOPNOTSUPP)
  }

  // ----- The engine's image -----

  /** What the engine shows as a disk. */
  function Image(e: Engine): Disk {
    (a: nat) => var b := ByteAt(e, a); if b.Some? then b.value else 0
  }

  ghost predicate Readable(e: Engine) {
    forall a: nat :: ByteAt(e, a).Some?
  }

  lemma InvReadable(h: Hash, e: Engine)
    requires Inv(h, e, AsWritten)
    ensures Readable(e)
  {
    hide Inv;
    forall a: nat
      ensures ByteAt(e, a).Some?
    {
      OwnedReadable(h, e, a - InPage(a));
    }
  }

  lemma PatchedImage(e: Engine, f: Engine, offset: nat, bytes: seq<Byte>)
    requires Patched(e, f, offset, bytes)
    ensures DiskPatched(Image(e), Image(f), offset, bytes)
  {
    hide ByteAt;
  }

  lemma SameImage(e: Engine, f: Engine)
    requires SameReadable(e, f)
    ensures SameDisk(Image(e), Image(f))
  {
  }

  // ----- One request -----

  /** The data a request stores, if it gets that far. */
  function Stored(q: Issued): seq<Byte> {
    if Malformed(q) then []
    else if q.r.op == WriteOp then q.buffer[..q.r.bytes]
    else if q.r.op == WriteZeroesOp then Zeros(q.r.bytes) else []
  }

  /** No page of the request is a stale insertion. */
  ghost predicate RequestNeverStale(h: Hash, e: Engine, q: Issued) {
    PagesNeverStale(h, e, q.r.offset, Stored(q))
  }

  /** No page of the request wraps a reference count. */
  ghost predicate RequestNeverWraps(h: Hash, e: Engine, q: Issued) {
    PagesNeverWrap(h, e, q.r.offset, Stored(q))
  }

  ghost predicate RequestHarmless(h: Hash, e: Engine, q: Issued) {
    RequestNeverStale(h, e, q) && RequestNeverWraps(h, e, q)
  }

  lemma ReadServed(h: Hash, e: Engine, q: Issued)
    requires Inv(h, e, AsWritten) && q.r.op == ReadOp && !Malformed(q)
    ensures var (f, after, reply) := Execute(h, e, q.r, q.buffer);
            Inv(h, f, AsWritten) && DiskServes(Image(e), q, Image(f), after, reply)
  {
    hide Inv, ByteAt, ReadPages, SameReadable;
    ReadRequest(h, e, q.r, q.buffer);
    var (f, after, reply) := Execute(h, e, q.r, q.buffer);
    SameImage(e, f);
    forall i | 0 <= i < |after|
      ensures after[i] == if i < q.r.bytes then Image(e)(q.r.offset + i) else q.buffer[i]
    {
      if i >= q.r.bytes {
        assert after[i] == after[q.r.bytes..][i - q.r.bytes];
      } else {
        assert ByteAt(e, q.r.offset + i) == Some(after[i]);
      }
    }
  }

  lemma StoreServed(h: Hash, e: Engine, q: Issued)
    requires Inv(h, e, AsWritten) && (q.r.op == WriteOp || q.r.op == WriteZeroesOp) && !Malformed(q)
    requires RequestHarmless(h, e, q)
    ensures var (f, after, reply) := Execute(h, e, q.r, q.buffer);
            Inv(h, f, AsWritten) && DiskServes(Image(e), q, Image(f), after, reply)
  {
    hide Inv, ByteAt, WritePages, PagesNeverStale, PagesNeverWrap, Patched, DiskPatched;
    var data := Stored(q);
    WritePagesPatches(h, e, q.r.offset, data);
    var (f, n, done) := WritePages(h, e, q.r.offset, data);
    assert done ==> data[..PageBytes(n)] == data;
    PatchedImage(e, f, q.r.offset, data[..PageBytes(n)]);
  }

  lemma DiscardServed(h: Hash, e: Engine, q: Issued)
    requires Inv(h, e, AsWritten) && q.r.op == DiscardOp && !Malformed(q)
    ensures var (f, after, reply) := Execute(h, e, q.r, q.buffer);
            Inv(h, f, AsWritten) && DiskServes(Image(e), q, Image(f), after, reply)
  {
    hide Inv, ByteAt, DiscardPages, Patched, DiskPatched;
    var pages := PageCount(q.r.bytes);
    assert PageBytes(pages) == q.r.bytes;
    DiscardPagesPatch(h, e, q.r.offset, pages);
    PatchedImage(e, DiscardPages(e, q.r.offset, pages), q.r.offset, Zeros(q.r.bytes));
  }

  /** One harmless request is served as a plain disk serves it, and keeps the invariant. */
  lemma RequestServed(h: Hash, e: Engine, q: Issued)
    requires Inv(h, e, AsWritten) && RequestHarmless(h, e, q)
    ensures var (f, after, reply) := Execute(h, e, q.r, q.buffer);
            Inv(h, f, AsWritten) && DiskServes(Image(e), q, Image(f), after, reply)
  {
    hide Inv, RequestHarmless, ReadPages, WritePages, DiscardPages, ByteAt;
    if !Malformed(q) {
      match q.r.op
      case ReadOp => ReadServed(h, e, q);
      case WriteOp => StoreServed(h, e, q);
      case DiscardOp => DiscardServed(h, e, q);
      case WriteZeroesOp => StoreServed(h, e, q);
      case FlushOp =>
      case UnsupportedOp(_) =>
    }
  }

  /** Turning passthrough on or off shows nowhere on the disk. */
  lemma ToggleServed(h: Hash, e: Engine, on: bool)
    requires Inv(h, e, AsWritten)
    ensures Inv(h, e.(passthrough := on), AsWritten) && SameDisk(Image(e), Image(e.(passthrough := on)))
  {
    hide Inv;
    InvIgnoresStats(h, e, e.stats, on, AsWritten);
    SameImage(e, e.(passthrough := on));
  }

  // ----- Runs of requests and toggles -----

  /** The `i`-th event takes the disk before it to the disk after it. */
  ghost predicate ServedAt(h: Hash, e: Engine, evs: seq<Event>, i: nat)
    requires i < |evs|
  {
    var before, next := After(h, e, evs[..i]), After(h, e, evs[..i + 1]);
    && Readable(next)
    && match evs[i]
       case Toggle(on) => SameDisk(Image(before), Image(next))
       case Request(q) =>
         var (f, after, reply) := Execute(h, before, q.r, q.buffer);
         f == next && DiskServes(Image(before), q, Image(next), after, reply)
  }

  /** Every event of the run is served as by one plain disk. */
  ghost predicate ServedLikeDisk(h: Hash, e: Engine, evs: seq<Event>) {
    forall i :: 0 <= i < |evs| ==> ServedAt(h, e, evs, i)
  }

  /** No request of the run has a stale insertion. */
  ghost predicate RequestsNeverStale(h: Hash, e: Engine, evs: seq<Event>) {
    forall i :: 0 <= i < |evs| && evs[i].Request? ==> RequestNeverStale(h, After(h, e, evs[..i]), evs[i].q)
  }

  /** No request of the run wraps a reference count. */
  ghost predicate RequestsNeverWrap(h: Hash, e: Engine, evs: seq<Event>) {
    forall i :: 0 <= i < |evs| && evs[i].Request? ==> RequestNeverWraps(h, After(h, e, evs[..i]), evs[i].q)
  }

  ghost predicate RequestsHarmless(h: Hash, e: Engine, evs: seq<Event>) {
    forall i :: 0 <= i < |evs| && evs[i].Request? ==> RequestHarmless(h, After(h, e, evs[..i]), evs[i].q)
  }

  lemma AfterNext(h: Hash, e: Engine, evs: seq<Event>, i: nat)
    requires i < |evs|
    ensures After(h, e, evs[..i + 1]) == Happen(h, After(h, e, evs[..i]), evs[i])
  {
    assert evs[..i + 1][..i] == evs[..i];
  }

  lemma EventServed(h: Hash, e: Engine, ev: Event)
    requires Inv(h, e, AsWritten) && (ev.Request? ==> RequestHarmless(h, e, ev.q))
    ensures Inv(h, Happen(h, e, ev), AsWritten)
  {
    hide Inv, RequestHarmless, Execute;
    match ev
    case Request(q) => RequestServed(h, e, q);
    case Toggle(on) => ToggleServed(h, e, on);
  }

  lemma {:induction false} RunServes(h: Hash, e: Engine, evs: seq<Event>, n: nat)
    requires Inv(h, e, AsWritten) && RequestsHarmless(h, e, evs) && n <= |evs|
    ensures Inv(h, After(h, e, evs[..n]), AsWritten)
  {
    hide Inv, RequestHarmless, Happen;
    if n > 0 {
      RunServes(h, e, evs, n - 1);
      AfterNext(h, e, evs, n - 1);
      EventServed(h, After(h, e, evs[..n - 1]), evs[n - 1]);
    }
  }

  lemma FreshServes(h: Hash, initial: seq<Page>, maxEntries: nat, bloomCapacity: nat)
    ensures var e := NewEngine(initial, maxEntries, bloomCapacity);
            Inv(h, e, AsWritten) && forall a: nat :: Image(e)(a) == 0
  {
    NewEngineInv(h, initial, maxEntries, bloomCapacity, AsWritten);
  }

  /** From any owned state, any harmless run of block requests and passthrough toggles is
      served as by a plain disk: each reply, each buffer and each byte. */
  lemma ServesFromAnywhere(h: Hash, e: Engine, evs: seq<Event>)
    requires Inv(h, e, AsWritten) && RequestsHarmless(h, e, evs)
    ensures ServedLikeDisk(h, e, evs)
  {
    hide Image, DiskServes, Execute, Inv, RequestHarmless, Readable;
    forall i | 0 <= i < |evs|
      ensures ServedAt(h, e, evs, i)
    {
      RunServes(h, e, evs, i);
      RunServes(h, e, evs, i + 1);
      AfterNext(h, e, evs, i);
      var before := After(h, e, evs[..i]);
      InvReadable(h, After(h, e, evs[..i + 1]));
      match evs[i]
      case Request(q) => RequestServed(h, before, q);
      case Toggle(on) => ToggleServed(h, before, on);
    }
  }

  /** In particular from a new device, which reads all zeroes. */
  lemma RequestsLikeDisk(h: Hash, initial: seq<Page>, maxEntries: nat, bloomCapacity: nat, evs: seq<Event>)
    requires RequestsNeverStale(h, NewEngine(initial, maxEntries, bloomCapacity), evs)
    requires RequestsNeverWrap(h, NewEngine(initial, maxEntries, bloomCapacity), evs)
    ensures var e := NewEngine(initial, maxEntries, bloomCapacity);
            ServedLikeDisk(h, e, evs) && forall a: nat :: Image(e)(a) == 0
  {
    hide Inv, Image, RequestNeverStale, RequestNeverWraps, ServedLikeDisk, NewEngine, After;
    FreshServes(h, initial, maxEntries, bloomCapacity);
    ServesFromAnywhere(h, NewEngine(initial, maxEntries, bloomCapacity), evs);
  }

  // ----- With an entry for each slot -----

  lemma {:induction false} WritePagesSizes(h: Hash, e: Engine, offset: nat, data: seq<Byte>)
    requires WholePages(|data|)
    ensures SameSizes(e, WritePages(h, e, offset, data).0)
    decreases |data|
  {
    hide Engine.HandleWrite;
    if data != [] {
      StepKeepsSizes(h, e, Write(offset, data[..PAGE_SIZE]), AsWritten);
      var (f, ok) := e.HandleWrite(h, offset, data[..PAGE_SIZE], AsWritten);
      if ok { WritePagesSizes(h, f, offset + PAGE_SIZE, data[PAGE_SIZE..]); }
    }
  }

  lemma {:induction false} DiscardPagesSizes(h: Hash, e: Engine, offset: nat, pages: nat)
    ensures SameSizes(e, DiscardPages(e, offset, pages))
    decreases pages
  {
    hide Engine.HandleDiscard;
    if pages > 0 {
      StepKeepsSizes(h, e, Discard(offset), AsWritten);
      DiscardPagesSizes(h, e.HandleDiscard(offset, AsWritten), offset + PAGE_SIZE, pages - 1);
    }
  }

  lemma {:induction false} ReadPagesSizes(e: Engine, offset: nat, pages: nat)
    ensures SameSizes(e, ReadPages(e, offset, pages).0)
    decreases pages
  {
    if pages > 0 {
      ReadPagesSizes(e.HandleRead(offset).0, offset + PAGE_SIZE, pages - 1);
    }
  }

  lemma ExecuteSizes(h: Hash, e: Engine, q: Issued)
    ensures SameSizes(e, Execute(h, e, q.r, q.buffer).0)
  {
    hide WritePages, DiscardPages, ReadPages;
    ReadPagesSizes(e, q.r.offset, PageCount(q.r.bytes));
    DiscardPagesSizes(h, e, q.r.offset, PageCount(q.r.bytes));
    if !Malformed(q) && q.r.op in {WriteOp, WriteZeroesOp} {
      WritePagesSizes(h, e, q.r.offset, Stored(q));
    }
  }

  lemma AmpleRequestHarmless(h: Hash, e: Engine, q: Issued)
    requires Inv(h, e, AsWritten) && Ample(e) && RequestNeverWraps(h, e, q)
    ensures RequestHarmless(h, e, q)
  {
    hide Inv, PagesNeverStale, PagesNeverWrap;
    AmplePagesNeverStale(h, e, q.r.offset, Stored(q));
  }

  lemma HappenSizes(h: Hash, e: Engine, ev: Event)
    ensures SameSizes(e, Happen(h, e, ev))
  {
    hide Execute;
    if ev.Request? { ExecuteSizes(h, e, ev.q); }
  }

  lemma {:induction false} AmpleRunServes(h: Hash, e: Engine, evs: seq<Event>, n: nat)
    requires Inv(h, e, AsWritten) && RequestsNeverWrap(h, e, evs) && Ample(e) && n <= |evs|
    ensures Inv(h, After(h, e, evs[..n]), AsWritten) && Ample(After(h, e, evs[..n]))
  {
    hide Inv, RequestHarmless, RequestNeverWraps, Happen;
    if n > 0 {
      var before := After(h, e, evs[..n - 1]);
      AmpleRunServes(h, e, evs, n - 1);
      AfterNext(h, e, evs, n - 1);
      if evs[n - 1].Request? { AmpleRequestHarmless(h, before, evs[n - 1].q); }
      EventServed(h, before, evs[n - 1]);
      HappenSizes(h, before, evs[n - 1]);
    }
  }

  /** With a table entry for each slot every run of block requests and toggles is served as
      by a plain disk, unless a reference count wraps. */
  lemma AmpleRequestsLikeDisk(h: Hash, initial: seq<Page>, maxEntries: nat, bloomCapacity: nat, evs: seq<Event>)
    requires maxEntries >= |initial| && RequestsNeverWrap(h, NewEngine(initial, maxEntries, bloomCapacity), evs)
    ensures var e := NewEngine(initial, maxEntries, bloomCapacity);
            ServedLikeDisk(h, e, evs) && forall a: nat :: Image(e)(a) == 0
  {
    hide Inv, RequestHarmless, RequestNeverWraps, ServedLikeDisk, Happen, Image;
    var e := NewEngine(initial, maxEntries, bloomCapacity);
    FreshServes(h, initial, maxEntries, bloomCapacity);
    forall i | 0 <= i < |evs| && evs[i].Request?
      ensures RequestHarmless(h, After(h, e, evs[..i]), evs[i].q)
    {
      AmpleRunServes(h, e, evs, i);
      AmpleRequestHarmless(h, After(h, e, evs[..i]), evs[i].q);
    }
    ServesFromAnywhere(h, e, evs);
  }

  // ----- Devices too small to wrap a count -----

  /** Every request stores on one of fewer than 2^32 - 1 pages. */
  ghost predicate SmallDevice(evs: seq<Event>, device: set<nat>) {
    |device| + 1 < TWO_32 && forall i :: 0 <= i < |evs| && evs[i].Request? ==> StoresOn(evs[i].q, device)
  }

  ghost predicate StoresOn(q: Issued, device: set<nat>) {
    forall a: nat :: q.r.offset <= a < q.r.offset + |Stored(q)| && WholePages(a) ==> a in device
  }

  lemma {:induction false} ReadPagesMaps(e: Engine, offset: nat, pages: nat)
    ensures ReadPages(e, offset, pages).0.translation == e.translation
    decreases pages
  {
    if pages > 0 {
      ReadPagesMaps(e.HandleRead(offset).0, offset + PAGE_SIZE, pages - 1);
    }
  }

  lemma {:induction false} DiscardPagesMaps(e: Engine, offset: nat, pages: nat)
    ensures DiscardPages(e, offset, pages).translation.Keys <= e.translation.Keys
    decreases pages
  {
    if pages > 0 {
      DiscardUnmaps(e, offset);
      DiscardPagesMaps(e.HandleDiscard(offset, AsWritten), offset + PAGE_SIZE, pages - 1);
    }
  }

  lemma SmallRequestHarmless(h: Hash, e: Engine, q: Issued, device: set<nat>)
    requires Inv(h, e, AsWritten) && e.translation.Keys <= device && |device| + 1 < TWO_32 && StoresOn(q, device)
    requires Ample(e) || RequestNeverStale(h, e, q)
    ensures RequestHarmless(h, e, q) && Execute(h, e, q.r, q.buffer).0.translation.Keys <= device
  {
    hide Inv, PagesNeverStale, PagesNeverWrap, WritePages, DiscardPages, ReadPages;
    ReadPagesMaps(e, q.r.offset, PageCount(q.r.bytes));
    DiscardPagesMaps(e, q.r.offset, PageCount(q.r.bytes));
    if Stored(q) != [] {
      SmallPagesHarmless(h, e, q.r.offset, Stored(q), device);
    } else {
      NothingHarmful(h, e, q.r.offset);
    }
  }

  lemma NothingHarmful(h: Hash, e: Engine, offset: nat)
    ensures PagesHarmless(h, e, offset, []) && WritePages(h, e, offset, []).0 == e
  {
  }

  lemma {:induction false} SmallRunServes(h: Hash, e: Engine, evs: seq<Event>, device: set<nat>, n: nat)
    requires Inv(h, e, AsWritten) && e.translation.Keys <= device && SmallDevice(evs, device) && n <= |evs|
    requires Ample(e) || RequestsNeverStale(h, e, evs)
    ensures var f := After(h, e, evs[..n]);
            Inv(h, f, AsWritten) && f.translation.Keys <= device && SameSizes(e, f)
  {
    hide Inv, RequestHarmless, RequestNeverStale, StoresOn, Execute;
    if n > 0 {
      var before := After(h, e, evs[..n - 1]);
      SmallRunServes(h, e, evs, device, n - 1);
      AfterNext(h, e, evs, n - 1);
      if evs[n - 1].Request? { SmallRequestHarmless(h, before, evs[n - 1].q, device); }
      EventServed(h, before, evs[n - 1]);
      HappenSizes(h, before, evs[n - 1]);
    }
  }

  /** On a device of fewer than 2^32 - 1 pages a table entry for each slot is all it takes. */
  lemma SmallDeviceLikeDisk(h: Hash, initial: seq<Page>, maxEntries: nat, bloomCapacity: nat,
                            evs: seq<Event>, device: set<nat>)
    requires SmallDevice(evs, device)
    requires maxEntries >= |initial| || RequestsNeverStale(h, NewEngine(initial, maxEntries, bloomCapacity), evs)
    ensures ServedLikeDisk(h, NewEngine(initial, maxEntries, bloomCapacity), evs)
  {
    hide Inv, RequestHarmless, RequestNeverStale, StoresOn, ServedLikeDisk, Happen, Image;
    var e := NewEngine(initial, maxEntries, bloomCapacity);
    FreshServes(h, initial, maxEntries, bloomCapacity);
    forall i | 0 <= i < |evs| && evs[i].Request?
      ensures RequestHarmless(h, After(h, e, evs[..i]), evs[i].q)
    {
      SmallRunServes(h, e, evs, device, i);
      SmallRequestHarmless(h, After(h, e, evs[..i]), evs[i].q, device);
    }
    ServesFromAnywhere(h, e, evs);
  }
}
