/** The block request layer of crates/swap-proxy/src/ublk_frontend.rs: sector requests
    lifted from page calls, shown to act on a flat array of bytes. */
module Frontend {
  import opened Fingerprints
  import opened Dedup
  import opened Backend
  import opened Engines
  import opened Ownership
  import opened EngineSteps
  import opened Refinement

  datatype RequestOp = ReadOp | WriteOp | FlushOp | DiscardOp | WriteZeroesOp | UnsupportedOp(raw: nat)

  datatype BlockRequest = BlockRequest(op: RequestOp, offset: nat, bytes: nat)

  /** A byte count, or a negative errno. */
  datatype Reply = Completed(bytes: nat) | Failed(errno: int)

  const EINVAL: int := 22
  const EIO: int := 5
  const EOPNOTSUPP: int := 95

  /** Sectors are 512 bytes; the offset shift drops bits beyond 64 and the length shift,
      made on 32 bits, drops bits beyond 32. */
  function NewRequest(op: RequestOp, startSector: nat, nrSectors: nat): BlockRequest {
    BlockRequest(op, (startSector * 512) % TWO_64, (nrSectors * 512) % TWO_32)
  }

  predicate PageAligned(r: BlockRequest) {
    WholePages(r.offset) && WholePages(r.bytes)
  }

  /** A request keeps the operation issued; it is page-aligned exactly when its sectors come
      in eights, and its length is the true one exactly when it fits 32 bits. */
  lemma NewRequestSectors(op: RequestOp, startSector: nat, nrSectors: nat)
    ensures var r := NewRequest(op, startSector, nrSectors);
            && r.op == op
            && (PageAligned(r) <==> startSector % 8 == 0 && nrSectors % 8 == 0)
            && r.bytes < TWO_32 && (nrSectors * 512 - r.bytes) % TWO_32 == 0
            && r.offset < TWO_64 && (startSector * 512 - r.offset) % TWO_64 == 0
            && (r.bytes == nrSectors * 512 <==> nrSectors < 0x80_0000)
            && (r.offset == startSector * 512 <==> startSector < 0x80_0000_0000_0000)
  {
    var wide := (startSector * 512) / 0x1_0000_0000_0000_0000;
    assert (startSector * 512) % 0x1_0000_0000_0000_0000 == startSector * 512 - 4096 * (0x10_0000_0000_0000 * wide);
    DroppedPages(startSector, 0x10_0000_0000_0000 * wide);
    var narrow := (nrSectors * 512) / 0x1_0000_0000;
    assert (nrSectors * 512) % 0x1_0000_0000 == nrSectors * 512 - 4096 * (0x10_0000 * narrow);
    DroppedPages(nrSectors, 0x10_0000 * narrow);
  }

  /** Dropping whole pages keeps alignment. */
  lemma DroppedPages(n: nat, pages: nat)
    ensures (n * 512 - 4096 * pages) % 4096 == 0 <==> n % 8 == 0
  {
    var q, r := n / 8, n % 8;
    assert n * 512 - 4096 * pages == 4096 * (q - pages) + 512 * r;
  }

  // ----- Page loops -----

  function Zeros(n: nat): (z: seq<Byte>)
    ensures |z| == n && forall i :: 0 <= i < n ==> z[i] == 0
  {
    seq(n, i => 0)
  }

  /** Writes page after page until one fails; the count is of pages written. */
  function WritePages(h: Hash, e: Engine, offset: nat, data: seq<Byte>): (Engine, nat, bool)
    requires WholePages(|data|)
    decreases |data|
  {
    if data == [] then (e, 0, true) else
    var (f, ok) := e.HandleWrite(h, offset, data[..PAGE_SIZE], AsWritten);
    if !ok then (f, 0, false) else
    var (g, n, done) := WritePages(h, f, offset + PAGE_SIZE, data[PAGE_SIZE..]);
    (g, n + 1, done)
  }

  function DiscardPages(e: Engine, offset: nat, pages: nat): Engine
    decreases pages
  {
    if pages == 0 then e else DiscardPages(e.HandleDiscard(offset, AsWritten), offset + PAGE_SIZE, pages - 1)
  }

  /** Reads page after page until one fails; the bytes are those read so far. */
  function ReadPages(e: Engine, offset: nat, pages: nat): (Engine, seq<Byte>, bool)
    decreases pages
  {
    if pages == 0 then (e, [], true) else
    var (f, page) := e.HandleRead(offset);
    if page.None? then (f, [], false) else
    var (g, rest, done) := ReadPages(f, offset + PAGE_SIZE, pages - 1);
    (g, page.value + rest, done)
  }

  /** The first bytes of `buffer` replaced by `bytes`. */
  function Overwrite(buffer: seq<Byte>, bytes: seq<Byte>): seq<Byte> {
    if |bytes| <= |buffer| then bytes + buffer[|bytes|..] else buffer
  }

  function Execute(h: Hash, e: Engine, r: BlockRequest, buffer: seq<Byte>): (Engine, seq<Byte>, Reply) {
    match r.op
    case ReadOp =>
      if !PageAligned(r) || |buffer| < r.bytes then (e, buffer, Failed(-EINVAL)) else
      var (f, bytes, done) := ReadPages(e, r.offset, PageCount(r.bytes));
      (f, Overwrite(buffer, bytes), if done then Completed(r.bytes) else Failed(-EIO))
    case WriteOp =>
      if !PageAligned(r) || |buffer| < r.bytes then (e, buffer, Failed(-EINVAL)) else
      var (f, n, done) := WritePages(h, e, r.offset, buffer[..r.bytes]);
      (f, buffer, if done then Completed(r.bytes) else Failed(-EIO))
    case FlushOp => (e, buffer, Completed(0))
    case DiscardOp =>
      if !PageAligned(r) then (e, buffer, Failed(-EINVAL)) else
      (DiscardPages(e, r.offset, PageCount(r.bytes)), buffer, Completed(r.bytes))
    case WriteZeroesOp =>
      if !PageAligned(r) then (e, buffer, Failed(-EINVAL)) else
      var (f, n, done) := WritePages(h, e, r.offset, Zeros(r.bytes));
      (f, buffer, if done then Completed(r.bytes) else Failed(-EIO))
    case UnsupportedOp(_) => (e, buffer, Failed(-EOPNOTSUPP))
  }

  // ----- The flat byte device -----

  /** The byte at a device address; `None` if its page cannot be read. */
  function ByteAt(e: Engine, addr: nat): Option<Byte> {
    var page := e.Peek(addr - InPage(addr));
    if page.Some? then Some(page.value[InPage(addr)]) else None
  }

  /** `f` holds `bytes` from `offset` on and is `e` everywhere else. */
  ghost predicate Patched(e: Engine, f: Engine, offset: nat, bytes: seq<Byte>) {
    forall addr: nat :: ByteAt(f, addr) ==
      if offset <= addr < offset + |bytes| then Some(bytes[addr - offset]) else ByteAt(e, addr)
  }

  /** No page write of the request is a stale insertion. */
  ghost predicate PagesNeverStale(h: Hash, e: Engine, offset: nat, data: seq<Byte>)
    requires WholePages(|data|)
    decreases |data|
  {
    data == [] ||
    (!StaleInsert(h, e, Write(offset, data[..PAGE_SIZE])) &&
     var (f, ok) := e.HandleWrite(h, offset, data[..PAGE_SIZE], AsWritten);
     ok ==> PagesNeverStale(h, f, offset + PAGE_SIZE, data[PAGE_SIZE..]))
  }

  /** No page write of the request wraps a reference count. */
  ghost predicate PagesNeverWrap(h: Hash, e: Engine, offset: nat, data: seq<Byte>)
    requires WholePages(|data|)
    decreases |data|
  {
    data == [] ||
    (!WrapsCount(h, e, Write(offset, data[..PAGE_SIZE])) &&
     var (f, ok) := e.HandleWrite(h, offset, data[..PAGE_SIZE], AsWritten);
     ok ==> PagesNeverWrap(h, f, offset + PAGE_SIZE, data[PAGE_SIZE..]))
  }

  /** No page write of the request is harmful. */
  ghost predicate PagesHarmless(h: Hash, e: Engine, offset: nat, data: seq<Byte>)
    requires WholePages(|data|)
  {
    PagesNeverStale(h, e, offset, data) && PagesNeverWrap(h, e, offset, data)
  }

  lemma PatchedOne(e: Engine, f: Engine, offset: nat, page: Page)
    requires WholePages(offset) && ReadsWith(e, f, offset, page)
    ensures Patched(e, f, offset, page)
  {
    forall addr: nat
      ensures ByteAt(f, addr) ==
                if offset <= addr < offset + |page| then Some(page[addr - offset]) else ByteAt(e, addr)
    {
      var base := addr - InPage(addr);
      assert f.Peek(base) == if base == offset then Some(page) else e.Peek(base);
    }
  }

  lemma PatchedThen(e: Engine, f: Engine, g: Engine, offset: nat, a: seq<Byte>, b: seq<Byte>)
    requires Patched(e, f, offset, a) && Patched(f, g, offset + |a|, b)
    ensures Patched(e, g, offset, a + b)
  {
    forall addr: nat
      ensures ByteAt(g, addr) ==
                if offset <= addr < offset + |a + b| then Some((a + b)[addr - offset]) else ByteAt(e, addr)
    {
      assert ByteAt(g, addr) == if offset + |a| <= addr < offset + |a| + |b| then Some(b[addr - offset - |a|]) else ByteAt(f, addr);
    }
  }

  lemma PatchedNothing(e: Engine, f: Engine, offset: nat)
    requires SameReadable(e, f)
    ensures Patched(e, f, offset, [])
  {
  }

  lemma WriteOnePagePatches(h: Hash, e: Engine, offset: nat, page: Page)
    requires WholePages(offset) && Inv(h, e, AsWritten) && !Harmful(h, e, Write(offset, page), AsWritten)
    ensures var (f, ok) := e.HandleWrite(h, offset, page, AsWritten);
            Inv(h, f, AsWritten) && Patched(e, f, offset, if ok then page else [])
  {
    hide Inv, Engine.HandleWrite, Harmful, ReadsWith, Patched;
    WriteActsFlat(h, e, offset, page, AsWritten);
    NormalizePageIdentity(page);
    var (f, ok) := e.HandleWrite(h, offset, page, AsWritten);
    if ok { PatchedOne(e, f, offset, page); } else { PatchedNothing(e, f, offset); }
  }

  /** A multi-page write patches exactly the pages it counted, all of them when it succeeds. */
  lemma {:induction false} WritePagesPatches(h: Hash, e: Engine, offset: nat, data: seq<Byte>)
    requires WholePages(|data|) && WholePages(offset)
    requires Inv(h, e, AsWritten) && PagesHarmless(h, e, offset, data)
    ensures var (f, n, done) := WritePages(h, e, offset, data);
            && PageBytes(n) <= |data| && (done <==> PageBytes(n) == |data|)
            && Inv(h, f, AsWritten) && Patched(e, f, offset, data[..PageBytes(n)])
    decreases |data|
  {
    hide Inv, Engine.HandleWrite, StaleInsert, WrapsCount, Patched, SameReadable;
    if data == [] {
      SameItself(e);
      PatchedNothing(e, e, offset);
    } else {
      var first, rest := data[..PAGE_SIZE], data[PAGE_SIZE..];
      WriteOnePagePatches(h, e, offset, first);
      var (f, ok) := e.HandleWrite(h, offset, first, AsWritten);
      if ok {
        WritePagesPatches(h, f, offset + PAGE_SIZE, rest);
        var (g, n, done) := WritePages(h, f, offset + PAGE_SIZE, rest);
        PatchedThen(e, f, g, offset, first, rest[..PageBytes(n)]);
        assert first + rest[..PageBytes(n)] == data[..PageBytes(n + 1)];
      }
    }
  }

  lemma SameItself(e: Engine)
    ensures SameReadable(e, e)
  {
  }

  lemma {:induction false} DiscardPagesPatch(h: Hash, e: Engine, offset: nat, pages: nat)
    requires WholePages(offset) && Inv(h, e, AsWritten)
    ensures var f := DiscardPages(e, offset, pages);
            Inv(h, f, AsWritten) && Patched(e, f, offset, Zeros(PageBytes(pages)))
    decreases pages
  {
    hide Inv, Engine.HandleDiscard, ReadsWith, Patched;
    if pages == 0 {
      PatchedNothing(e, e, offset);
      assert Zeros(0) == [];
    } else {
      DiscardActsFlat(h, e, offset, AsWritten);
      var f := e.HandleDiscard(offset, AsWritten);
      PatchedOne(e, f, offset, ZERO_PAGE);
      DiscardPagesPatch(h, f, offset + PAGE_SIZE, pages - 1);
      PatchedThen(e, f, DiscardPages(f, offset + PAGE_SIZE, pages - 1), offset, ZERO_PAGE, Zeros(PageBytes(pages - 1)));
      assert ZERO_PAGE + Zeros(PageBytes(pages - 1)) == Zeros(PageBytes(pages));
    }
  }

  lemma OwnedReadable(h: Hash, e: Engine, v: nat)
    requires Inv(h, e, AsWritten)
    ensures e.Peek(v).Some?
  {
    assert v in e.translation ==> e.translation[v].slot < |e.store|;
  }

  /** A multi-page read never fails and returns the bytes of the device. */
  lemma {:induction false} ReadPagesReturn(h: Hash, e: Engine, offset: nat, pages: nat)
    requires WholePages(offset) && Inv(h, e, AsWritten)
    ensures var (f, bytes, done) := ReadPages(e, offset, pages);
            && done && |bytes| == PageBytes(pages) && Inv(h, f, AsWritten) && SameReadable(e, f)
            && forall i :: 0 <= i < |bytes| ==> ByteAt(e, offset + i) == Some(bytes[i])
    decreases pages
  {
    hide Inv;
    if pages > 0 {
      OwnedReadable(h, e, offset);
      InvIgnoresStats(h, e, e.stats.(totalReads := e.stats.totalReads + 1), e.passthrough, AsWritten);
      var (f, page) := e.HandleRead(offset);
      ReadPagesReturn(h, f, offset + PAGE_SIZE, pages - 1);
      var (g, rest, done) := ReadPages(f, offset + PAGE_SIZE, pages - 1);
      forall i | 0 <= i < PageBytes(pages)
        ensures ByteAt(e, offset + i) == Some((page.value + rest)[i])
      {
        if i >= PAGE_SIZE {
          assert ByteAt(f, offset + PAGE_SIZE + (i - PAGE_SIZE)) == Some(rest[i - PAGE_SIZE]);
        }
      }
    }
  }

  // ----- Requests -----

  /** An aligned write request either patches the whole range with the buffer, or fails
      with EIO after patching a proper prefix of whole pages. */
  lemma WriteRequest(h: Hash, e: Engine, r: BlockRequest, buffer: seq<Byte>)
    requires r.op == WriteOp && PageAligned(r) && r.bytes <= |buffer|
    requires Inv(h, e, AsWritten) && PagesHarmless(h, e, r.offset, buffer[..r.bytes])
    ensures var (f, after, reply) := Execute(h, e, r, buffer);
            && Inv(h, f, AsWritten) && after == buffer
            && (reply.Completed? ==> reply.bytes == r.bytes && Patched(e, f, r.offset, buffer[..r.bytes]))
            && (reply.Failed? ==> reply.errno == -EIO && exists n: nat ::
                  PageBytes(n) < r.bytes && Patched(e, f, r.offset, buffer[..PageBytes(n)]))
  {
    hide Inv, Patched, PagesHarmless, WritePages;
    WritePagesPatches(h, e, r.offset, buffer[..r.bytes]);
    var (f, n, done) := WritePages(h, e, r.offset, buffer[..r.bytes]);
    assert buffer[..r.bytes][..PageBytes(n)] == buffer[..PageBytes(n)];
  }

  /** An aligned read request succeeds, fills the first bytes of the buffer with the
      device's bytes, keeps the rest, and changes nothing readable. */
  lemma ReadRequest(h: Hash, e: Engine, r: BlockRequest, buffer: seq<Byte>)
    requires r.op == ReadOp && PageAligned(r) && r.bytes <= |buffer| && Inv(h, e, AsWritten)
    ensures var (f, after, reply) := Execute(h, e, r, buffer);
            && reply == Completed(r.bytes) && Inv(h, f, AsWritten) && SameReadable(e, f)
            && |after| == |buffer| && after[r.bytes..] == buffer[r.bytes..]
            && forall i :: 0 <= i < r.bytes ==> ByteAt(e, r.offset + i) == Some(after[i])
  {
    hide Inv, ByteAt, SameReadable;
    ReadPagesReturn(h, e, r.offset, PageCount(r.bytes));
  }

  /** In any state at all an aligned read completes exactly when every page of the range can
      be read; it leaves the bytes of the pages before the first that cannot, and the rest of
      the buffer as it was. */
  lemma ReadRequestAnyState(h: Hash, e: Engine, r: BlockRequest, buffer: seq<Byte>)
    requires r.op == ReadOp && PageAligned(r) && r.bytes <= |buffer|
    ensures var (f, after, reply) := Execute(h, e, r, buffer);
            && SameReadable(e, f) && |after| == |buffer|
            && (if forall a: nat :: r.offset <= a < r.offset + r.bytes ==> ByteAt(e, a).Some?
                then reply == Completed(r.bytes) else reply == Failed(-EIO))
            && exists n: nat :: PageBytes(n) <= r.bytes
                 && (reply.Completed? ==> PageBytes(n) == r.bytes)
                 && (reply.Failed? ==> PageBytes(n) < r.bytes && ByteAt(e, r.offset + PageBytes(n)).None?)
                 && forall i :: 0 <= i < |after| ==>
                      Some(after[i]) == if i < PageBytes(n) then ByteAt(e, r.offset + i) else Some(buffer[i])
  {
    hide ByteAt, ReadPages;
    var pages := PageCount(r.bytes);
    var n := ReadPagesAnyState(e, r.offset, pages);
    var (f, bytes, done) := ReadPages(e, r.offset, pages);
    assert PageBytes(pages) == r.bytes;
    assert |Overwrite(buffer, bytes)| == |buffer|;
    if done {
      forall a: nat | r.offset <= a < r.offset + r.bytes
        ensures ByteAt(e, a).Some?
      {
        assert ByteAt(e, r.offset + (a - r.offset)) == Some(bytes[a - r.offset]);
      }
    }
  }

  lemma {:induction false} ReadPagesAnyState(e: Engine, offset: nat, pages: nat) returns (n: nat)
    requires WholePages(offset)
    ensures var (f, bytes, done) := ReadPages(e, offset, pages);
            && SameReadable(e, f) && n <= pages && |bytes| == PageBytes(n) && (done <==> n == pages)
            && (!done ==> ByteAt(e, offset + PageBytes(n)).None?)
            && forall i :: 0 <= i < |bytes| ==> ByteAt(e, offset + i) == Some(bytes[i])
    decreases pages
  {
    n := 0;
    if pages > 0 {
      var (f, page) := e.HandleRead(offset);
      PageReads(e, offset, page);
      SameBytes(e, f);
      if page.Some? {
        var k := ReadPagesAnyState(f, offset + PAGE_SIZE, pages - 1);
        n := k + 1;
        var (g, rest, done) := ReadPages(f, offset + PAGE_SIZE, pages - 1);
        hide ByteAt;
        forall i | 0 <= i < PageBytes(n)
          ensures ByteAt(e, offset + i) == Some((page.value + rest)[i])
        {
          if i >= PAGE_SIZE {
            assert ByteAt(f, offset + PAGE_SIZE + (i - PAGE_SIZE)) == Some(rest[i - PAGE_SIZE]);
          }
        }
      }
    }
  }

  lemma PageReads(e: Engine, offset: nat, page: Option<Page>)
    requires WholePages(offset) && page == e.Peek(offset)
    ensures page.None? ==> ByteAt(e, offset).None?
    ensures page.Some? ==> forall i :: 0 <= i < PAGE_SIZE ==> ByteAt(e, offset + i) == Some(page.value[i])
  {
    forall i | 0 <= i < PAGE_SIZE
      ensures ByteAt(e, offset + i) == if page.Some? then Some(page.value[i]) else None
    {
      assert InPage(offset + i) == i;
    }
  }

  lemma SameBytes(e: Engine, f: Engine)
    requires f.translation == e.translation && f.store == e.store
    ensures SameReadable(e, f) && forall a: nat :: ByteAt(f, a) == ByteAt(e, a)
  {
  }

  /** Round trip: what a successful write request stored is what a read request of the
      same range returns. */
  lemma WriteThenReadRequest(h: Hash, e: Engine, w: BlockRequest, data: seq<Byte>, r: BlockRequest,
                             buffer: seq<Byte>)
    requires w.op == WriteOp && r == w.(op := ReadOp) && PageAligned(w)
    requires w.bytes <= |data| && w.bytes <= |buffer|
    requires Inv(h, e, AsWritten) && PagesHarmless(h, e, w.offset, data[..w.bytes])
    requires Execute(h, e, w, data).2.Completed?
    ensures var f := Execute(h, e, w, data).0;
            var (g, after, reply) := Execute(h, f, r, buffer);
            reply == Completed(r.bytes) && after[..r.bytes] == data[..r.bytes]
  {
    hide Inv, PagesHarmless, Execute;
    WriteRequest(h, e, w, data);
    var f := Execute(h, e, w, data).0;
    ReadRequest(h, f, r, buffer);
    var after := Execute(h, f, r, buffer).1;
    forall i | 0 <= i < r.bytes
      ensures after[i] == data[i]
    {
      assert ByteAt(f, r.offset + i) == Some(data[..w.bytes][i]);
    }
  }

  /** Discard, and WriteZeroes when it succeeds, zero the range and nothing else. */
  lemma ZeroingRequest(h: Hash, e: Engine, r: BlockRequest, buffer: seq<Byte>)
    requires (r.op == DiscardOp || r.op == WriteZeroesOp) && PageAligned(r)
    requires Inv(h, e, AsWritten) && (r.op == WriteZeroesOp ==> PagesHarmless(h, e, r.offset, Zeros(r.bytes)))
    ensures var (f, after, reply) := Execute(h, e, r, buffer);
            && (reply.Completed? ==> Patched(e, f, r.offset, Zeros(r.bytes)))
            && (r.op == DiscardOp ==> reply == Completed(r.bytes))
            && (reply.Failed? ==> exists n: nat ::
                  PageBytes(n) < r.bytes && Patched(e, f, r.offset, Zeros(PageBytes(n))))
  {
    hide Inv, Patched, PagesHarmless, WritePages, DiscardPages;
    if r.op == DiscardOp {
      DiscardPagesPatch(h, e, r.offset, PageCount(r.bytes));
      assert PageBytes(PageCount(r.bytes)) == r.bytes;
    } else {
      WritePagesPatches(h, e, r.offset, Zeros(r.bytes));
      var (f, n, done) := WritePages(h, e, r.offset, Zeros(r.bytes));
      assert Zeros(r.bytes)[..PageBytes(n)] == Zeros(PageBytes(n));
    }
  }

  /** After either of the two, no address tells which one ran. */
  lemma DiscardLikeWriteZeroes(h: Hash, e: Engine, offset: nat, bytes: nat, buffer: seq<Byte>)
    requires WholePages(offset) && WholePages(bytes)
    requires Inv(h, e, AsWritten) && PagesHarmless(h, e, offset, Zeros(bytes))
    requires Execute(h, e, BlockRequest(WriteZeroesOp, offset, bytes), buffer).2.Completed?
    ensures var f := Execute(h, e, BlockRequest(DiscardOp, offset, bytes), buffer).0;
            var g := Execute(h, e, BlockRequest(WriteZeroesOp, offset, bytes), buffer).0;
            forall addr: nat :: ByteAt(f, addr) == ByteAt(g, addr)
  {
    hide Inv, PagesHarmless, Execute, ByteAt;
    ZeroingRequest(h, e, BlockRequest(DiscardOp, offset, bytes), buffer);
    ZeroingRequest(h, e, BlockRequest(WriteZeroesOp, offset, bytes), buffer);
  }

  /** Misaligned, short-buffer, flush and unsupported requests touch nothing. */
  lemma RefusedRequest(h: Hash, e: Engine, r: BlockRequest, buffer: seq<Byte>)
    ensures var (f, after, reply) := Execute(h, e, r, buffer);
            && (reply == Failed(-EINVAL) <==>
                  r.op in {ReadOp, WriteOp, DiscardOp, WriteZeroesOp} &&
                  (!PageAligned(r) || (r.op in {ReadOp, WriteOp} && |buffer| < r.bytes)))
            && (reply in {Failed(-EINVAL), Failed(-EOPNOTSUPP)} || r.op == FlushOp ==> f == e && after == buffer)
  {
    hide ReadPages, WritePages, DiscardPages;
  }

  // ----- What a request leaves mapped -----

  /** Every page of the range is mapped. */
  ghost predicate Mapped(e: Engine, offset: nat, bytes: nat) {
    forall a: nat :: offset <= a < offset + bytes && WholePages(a) ==> a in e.translation
  }

  ghost predicate Unmapped(e: Engine, offset: nat, bytes: nat) {
    forall a: nat :: offset <= a < offset + bytes && WholePages(a) ==> a !in e.translation
  }

  lemma WriteMaps(h: Hash, e: Engine, v: nat, data: seq<Byte>)
    ensures var (f, ok) := e.HandleWrite(h, v, data, AsWritten);
            f.translation.Keys == e.translation.Keys + if ok then {v} else {}
  {
    hide Engine.Release, Table.Insert, Table.Lookup, Table.AddReference, NormalizePage;
    forall e1: Engine, t | e1.translation == e.translation
      ensures e1.Replace(v, t, AsWritten).translation.Keys == e.translation.Keys + {v}
    {
      ReplaceMaps(e1, v, t);
    }
  }

  lemma ReplaceMaps(e: Engine, v: nat, t: Translation)
    ensures e.Replace(v, t, AsWritten).translation == e.translation[v := t]
  {
    if v in e.translation {
      ReleaseLocal(e, e.translation[v := t], e.translation[v], AsWritten);
    }
  }

  lemma DiscardUnmaps(e: Engine, v: nat)
    ensures e.HandleDiscard(v, AsWritten).translation == e.translation - {v}
  {
    if v in e.translation {
      var e1 := e.(stats := e.stats.(discards := e.stats.discards + 1), translation := e.translation - {v});
      ReleaseLocal(e1, e1.translation, e.translation[v], AsWritten);
    }
  }

  lemma {:induction false} WritePagesMap(h: Hash, e: Engine, offset: nat, data: seq<Byte>)
    requires WholePages(offset) && WholePages(|data|)
    ensures e.translation.Keys <= WritePages(h, e, offset, data).0.translation.Keys
    ensures WritePages(h, e, offset, data).2 ==> Mapped(WritePages(h, e, offset, data).0, offset, |data|)
    decreases |data|
  {
    hide Engine.HandleWrite;
    if data != [] {
      WriteMaps(h, e, offset, data[..PAGE_SIZE]);
      var (f, ok) := e.HandleWrite(h, offset, data[..PAGE_SIZE], AsWritten);
      if ok { WritePagesMap(h, f, offset + PAGE_SIZE, data[PAGE_SIZE..]); }
    }
  }

  lemma {:induction false} DiscardPagesUnmap(e: Engine, offset: nat, pages: nat)
    requires WholePages(offset)
    ensures DiscardPages(e, offset, pages).translation.Keys <= e.translation.Keys
    ensures Unmapped(DiscardPages(e, offset, pages), offset, PageBytes(pages))
    decreases pages
  {
    hide Engine.HandleDiscard;
    if pages > 0 {
      DiscardUnmaps(e, offset);
      DiscardPagesUnmap(e.HandleDiscard(offset, AsWritten), offset + PAGE_SIZE, pages - 1);
    }
  }

  /** In any state a discard leaves no page of its range mapped, while a completed write or
      write of zeroes leaves every one mapped: reads alone do not tell these two apart. */
  lemma RequestMaps(h: Hash, e: Engine, r: BlockRequest, buffer: seq<Byte>)
    requires PageAligned(r) && (r.op == WriteOp ==> r.bytes <= |buffer|)
    ensures var (f, _, reply) := Execute(h, e, r, buffer);
            && (r.op == DiscardOp ==> Unmapped(f, r.offset, r.bytes))
            && (r.op in {WriteOp, WriteZeroesOp} && reply.Completed? ==> Mapped(f, r.offset, r.bytes))
  {
    hide WritePages, DiscardPages, ReadPages;
    DiscardPagesUnmap(e, r.offset, PageCount(r.bytes));
    WritePagesMap(h, e, r.offset, Zeros(r.bytes));
    if r.op == WriteOp { WritePagesMap(h, e, r.offset, buffer[..r.bytes]); }
  }

  /** With an entry for each slot no request is ever stale unless a count wraps first. */
  lemma {:induction false} AmplePagesNeverStale(h: Hash, e: Engine, offset: nat, data: seq<Byte>)
    requires WholePages(|data|) && Ample(e)
    requires Inv(h, e, AsWritten) && PagesNeverWrap(h, e, offset, data)
    ensures PagesNeverStale(h, e, offset, data)
    decreases |data|
  {
    hide Inv, Engine.HandleWrite, StaleInsert, WrapsCount, ActsFlat;
    if data != [] {
      var first := data[..PAGE_SIZE];
      AmpleNeverStale(h, e, Write(offset, first));
      WriteActsFlat(h, e, offset, first, AsWritten);
      StepKeepsSizes(h, e, Write(offset, first), AsWritten);
      var (f, ok) := e.HandleWrite(h, offset, first, AsWritten);
      if ok { AmplePagesNeverStale(h, f, offset + PAGE_SIZE, data[PAGE_SIZE..]); }
    }
  }

  /** Every mapped offset, and every page of the range, is one of fewer than 2^32 - 1. */
  ghost predicate OnRange(e: Engine, device: set<nat>, offset: nat, bytes: nat) {
    && e.translation.Keys <= device && |device| + 1 < TWO_32
    && forall a: nat :: offset <= a < offset + bytes && WholePages(a) ==> a in device
  }

  /** On so few pages no request wraps a count. */
  lemma {:induction false} SmallPagesHarmless(h: Hash, e: Engine, offset: nat, data: seq<Byte>, device: set<nat>)
    requires WholePages(|data|) && WholePages(offset)
    requires Inv(h, e, AsWritten) && OnRange(e, device, offset, |data|)
    requires Ample(e) || PagesNeverStale(h, e, offset, data)
    ensures PagesHarmless(h, e, offset, data)
    ensures WritePages(h, e, offset, data).0.translation.Keys <= device
    decreases |data|
  {
    hide Inv, Engine.HandleWrite, StaleInsert, WrapsCount, ActsFlat;
    if data != [] {
      var first := data[..PAGE_SIZE];
      CardSubset(e.translation.Keys, device);
      assert Owns(h, e) by { InvMeansOwns(h, e, AsWritten); }
      FewMappedNoWrap(h, e, Write(offset, first));
      if Ample(e) { AmpleNeverStale(h, e, Write(offset, first)); }
      WriteActsFlat(h, e, offset, first, AsWritten);
      StepKeepsSizes(h, e, Write(offset, first), AsWritten);
      var (f, ok) := e.HandleWrite(h, offset, first, AsWritten);
      assert offset in device;
      if ok { SmallPagesHarmless(h, f, offset + PAGE_SIZE, data[PAGE_SIZE..], device); }
    }
  }
}
