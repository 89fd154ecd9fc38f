/** `execute_request` itself, page by page over the mutable engine and the I/O buffer. */
module BlockDevice {
  import opened Fingerprints
  import opened Engines
  import opened ProxyEngines
  import opened Frontend

  /** The write of `data` from `start` is what remains to be written from `e` after `i` pages. */
  ghost predicate WritesFrom(h: Hash, start: Engine, offset: nat, data: seq<Byte>, e: Engine, i: nat) {
    && WholePages(|data|) && PageBytes(i) <= |data|
    && var (f, n, done) := WritePages(h, e, offset + PageBytes(i), data[PageBytes(i)..]);
       WritePages(h, start, offset, data) == (f, i + n, done)
  }

  lemma WritesStart(h: Hash, start: Engine, offset: nat, data: seq<Byte>)
    requires WholePages(|data|)
    ensures WritesFrom(h, start, offset, data, start, 0)
  {
    assert data[0..] == data;
  }

  lemma WritesAdvance(h: Hash, start: Engine, offset: nat, data: seq<Byte>, e: Engine, i: nat)
    requires WritesFrom(h, start, offset, data, e, i) && PageBytes(i + 1) <= |data|
    ensures var (f, ok) := e.HandleWrite(h, offset + PageBytes(i), data[PageBytes(i)..PageBytes(i + 1)], AsWritten);
            if ok then WritesFrom(h, start, offset, data, f, i + 1)
            else WritePages(h, start, offset, data) == (f, i, false)
  {
    hide Engine.HandleWrite;
    var rest := data[PageBytes(i)..];
    assert rest[..PAGE_SIZE] == data[PageBytes(i)..PageBytes(i + 1)];
    assert rest[PAGE_SIZE..] == data[PageBytes(i + 1)..];
  }

  lemma WritesEnd(h: Hash, start: Engine, offset: nat, data: seq<Byte>, e: Engine, i: nat)
    requires WritesFrom(h, start, offset, data, e, i) && PageBytes(i) == |data|
    ensures WritePages(h, start, offset, data) == (e, i, true)
  {
    assert data[PageBytes(i)..] == [];
  }

  /** One turn of the write loops: page `i` of the ghost `data`. */
  method WriteOnePage(engine: ProxyEngine, ghost start: Engine, offset: nat, ghost data: seq<Byte>, i: nat, chunk: seq<Byte>)
    returns (ok: bool)
    requires engine.Valid() && WritesFrom(engine.hash, start, offset, data, engine.View(), i)
    requires WholePages(|data|) && PageBytes(i + 1) <= |data| && chunk == data[PageBytes(i)..PageBytes(i + 1)]
    modifies engine, engine.table, engine.table.bloom.words, engine.store.pages, engine.allocator
    ensures if ok then WritesFrom(engine.hash, start, offset, data, engine.View(), i + 1)
            else WritePages(engine.hash, start, offset, data) == (engine.View(), i, false)
  {
    hide WritesFrom, WritePages, Engine.HandleWrite;
    ghost var e := engine.View();
    ok := engine.HandleWrite(offset + PageBytes(i), chunk);
    WritesAdvance(engine.hash, start, offset, data, e, i);
  }

  /** Writes the first `bytes` of the buffer, page by page, stopping at a failure. */
  method WriteBuffer(engine: ProxyEngine, offset: nat, bytes: nat, buffer: array<Byte>) returns (done: bool)
    requires engine.Valid() && WholePages(bytes) && bytes <= buffer.Length
    modifies engine, engine.table, engine.table.bloom.words, engine.store.pages, engine.allocator
    ensures var (f, n, all) := WritePages(engine.hash, old(engine.View()), offset, old(buffer[..])[..bytes]);
            engine.View() == f && done == all
  {
    hide WritesFrom, WritePages, Engine.HandleWrite, ProxyEngine.View;
    ghost var data := buffer[..][..bytes];
    ghost var start := engine.View();
    var i := 0;
    WritesStart(engine.hash, start, offset, data);
    while i < PageCount(bytes)
      invariant 0 <= i <= PageCount(bytes) && engine.Valid()
      invariant WritesFrom(engine.hash, start, offset, data, engine.View(), i)
    {
      SliceOfPrefix(buffer[..], bytes, i);
      var ok := WriteOnePage(engine, start, offset, data, i, buffer[..][PageBytes(i)..PageBytes(i + 1)]);
      if !ok {
        return false;
      }
      i := i + 1;
    }
    WritesEnd(engine.hash, start, offset, data, engine.View(), i);
    return true;
  }

  method ExecuteWrite(engine: ProxyEngine, r: BlockRequest, buffer: array<Byte>) returns (reply: Reply)
    requires engine.Valid() && r.op == WriteOp
    modifies engine, engine.table, engine.table.bloom.words, engine.store.pages, engine.allocator, buffer
    ensures (engine.View(), buffer[..], reply) == Execute(engine.hash, old(engine.View()), r, old(buffer[..]))
  {
    if !PageAligned(r) || buffer.Length < r.bytes {
      return Failed(-EINVAL);
    }
    hide WritePages, ReadPages, DiscardPages, ProxyEngine.View;
    var done := WriteBuffer(engine, r.offset, r.bytes, buffer);
    return if done then Completed(r.bytes) else Failed(-EIO);
  }

  method ExecuteDiscard(engine: ProxyEngine, r: BlockRequest, buffer: array<Byte>) returns (reply: Reply)
    requires engine.Valid() && r.op == DiscardOp
    modifies engine, engine.table, engine.table.bloom.words, engine.store.pages, engine.allocator, buffer
    ensures (engine.View(), buffer[..], reply) == Execute(engine.hash, old(engine.View()), r, old(buffer[..]))
  {
    if !PageAligned(r) {
      return Failed(-EINVAL);
    }
    ghost var start := engine.View();
    var i := 0;
    while i < PageCount(r.bytes)
      invariant 0 <= i <= PageCount(r.bytes) && engine.Valid() && buffer[..] == old(buffer[..])
      invariant DiscardPages(start, r.offset, PageCount(r.bytes)) ==
                DiscardPages(engine.View(), r.offset + PageBytes(i), PageCount(r.bytes) - i)
    {
      engine.HandleDiscard(r.offset + PageBytes(i));
      i := i + 1;
    }
    reply := Completed(r.bytes);
  }

  /** Writes `pages` zero pages, stopping at a failure. */
  method WriteZeroPages(engine: ProxyEngine, offset: nat, pages: nat) returns (done: bool)
    requires engine.Valid()
    modifies engine, engine.table, engine.table.bloom.words, engine.store.pages, engine.allocator
    ensures var (f, n, all) := WritePages(engine.hash, old(engine.View()), offset, Zeros(PageBytes(pages)));
            engine.View() == f && done == all
  {
    hide WritesFrom, WritePages, Engine.HandleWrite, ProxyEngine.View, Zeros;
    ghost var data := Zeros(PageBytes(pages));
    ghost var start := engine.View();
    var zeroPage := Zeros(PAGE_SIZE);
    var i := 0;
    WritesStart(engine.hash, start, offset, data);
    while i < pages
      invariant 0 <= i <= pages && engine.Valid()
      invariant WritesFrom(engine.hash, start, offset, data, engine.View(), i)
    {
      ZeroSlice(PageBytes(pages), i);
      var ok := WriteOnePage(engine, start, offset, data, i, zeroPage);
      if !ok {
        return false;
      }
      i := i + 1;
    }
    WritesEnd(engine.hash, start, offset, data, engine.View(), i);
    return true;
  }

  method ExecuteWriteZeroes(engine: ProxyEngine, r: BlockRequest, buffer: array<Byte>) returns (reply: Reply)
    requires engine.Valid() && r.op == WriteZeroesOp
    modifies engine, engine.table, engine.table.bloom.words, engine.store.pages, engine.allocator, buffer
    ensures (engine.View(), buffer[..], reply) == Execute(engine.hash, old(engine.View()), r, old(buffer[..]))
  {
    if !PageAligned(r) {
      return Failed(-EINVAL);
    }
    hide WritePages, ReadPages, DiscardPages, ProxyEngine.View, Zeros;
    assert PageBytes(PageCount(r.bytes)) == r.bytes;
    var done := WriteZeroPages(engine, r.offset, PageCount(r.bytes));
    return if done then Completed(r.bytes) else Failed(-EIO);
  }

  /** One turn of the read loop: page `i` copied into the buffer. */
  method ReadOnePage(engine: ProxyEngine, ghost start: Engine, offset: nat, ghost pages: nat, i: nat,
                     ghost got: seq<Byte>, ghost was: seq<Byte>, buffer: array<Byte>)
    returns (page: Option<Page>)
    requires engine.Valid() && i < pages && ReadsFrom(start, offset, pages, engine.View(), i, got)
    requires |got| == PageBytes(i) && buffer[..] == Overwrite(was, got)
    requires |was| == buffer.Length && PageBytes(i + 1) <= buffer.Length
    modifies engine, buffer
    ensures if page.Some? then
              && ReadsFrom(start, offset, pages, engine.View(), i + 1, got + page.value)
              && buffer[..] == Overwrite(was, got + page.value)
            else
              ReadPages(start, offset, pages) == (engine.View(), got, false) && buffer[..] == Overwrite(was, got)
  {
    hide ReadsFrom, ReadPages, Engine.HandleRead, ProxyEngine.View, Overwrite;
    ghost var e := engine.View();
    page := engine.HandleRead(offset + PageBytes(i));
    ReadsAdvance(start, offset, pages, e, i, got);
    if page.Some? {
      ghost var now := buffer[..];
      CopyPage(page.value, buffer, PageBytes(i));
      OverwriteMore(was, got, page.value, now, buffer[..]);
    }
  }

  method ExecuteRead(engine: ProxyEngine, r: BlockRequest, buffer: array<Byte>) returns (reply: Reply)
    requires engine.Valid() && r.op == ReadOp
    modifies engine, buffer
    ensures (engine.View(), buffer[..], reply) == Execute(engine.hash, old(engine.View()), r, old(buffer[..]))
  {
    if !PageAligned(r) || buffer.Length < r.bytes {
      return Failed(-EINVAL);
    }
    ghost var start := engine.View();
    ReadExecutes(engine.hash, start, r, buffer[..]);
    hide ReadsFrom, ReadPages, Execute, Engine.HandleRead, PageAligned, ProxyEngine.View, Overwrite;
    ghost var was := buffer[..];
    ghost var got: seq<Byte> := [];
    var i := 0;
    ReadsStart(start, r.offset, PageCount(r.bytes));
    OverwriteNone(was);
    while i < PageCount(r.bytes)
      invariant 0 <= i <= PageCount(r.bytes) && engine.Valid()
      invariant |got| == PageBytes(i) && buffer[..] == Overwrite(was, got)
      invariant ReadsFrom(start, r.offset, PageCount(r.bytes), engine.View(), i, got)
    {
      var page := ReadOnePage(engine, start, r.offset, PageCount(r.bytes), i, got, was, buffer);
      if page.None? {
        return Failed(-EIO);
      }
      got := got + page.value;
      i := i + 1;
    }
    assert PageBytes(i) == r.bytes;
    ReadsEnd(start, r.offset, PageCount(r.bytes), engine.View(), got);
    reply := Completed(r.bytes);
  }

  lemma ZeroSlice(n: nat, i: nat)
    requires PageBytes(i + 1) <= n
    ensures Zeros(n)[PageBytes(i)..PageBytes(i + 1)] == Zeros(PAGE_SIZE)
  {
  }

  lemma SliceOfPrefix(buffer: seq<Byte>, n: nat, i: nat)
    requires PageBytes(i + 1) <= n <= |buffer|
    ensures buffer[..n][PageBytes(i)..PageBytes(i + 1)] == buffer[PageBytes(i)..PageBytes(i + 1)]
  {
  }

  lemma OverwriteNone(was: seq<Byte>)
    ensures Overwrite(was, []) == was
  {
  }

  lemma OverwriteMore(was: seq<Byte>, got: seq<Byte>, page: Page, now: seq<Byte>, after: seq<Byte>)
    requires |got| + PAGE_SIZE <= |was| && now == Overwrite(was, got)
    requires after == now[..|got|] + page + now[|got| + PAGE_SIZE..]
    ensures after == Overwrite(was, got + page)
  {
  }

  /** `copy_from_slice` of one page into the buffer. */
  method CopyPage(page: Page, buffer: array<Byte>, at: nat)
    requires at + PAGE_SIZE <= buffer.Length
    modifies buffer
    ensures buffer[..] == old(buffer[..])[..at] + page + old(buffer[..])[at + PAGE_SIZE..]
  {
    forall k | 0 <= k < PAGE_SIZE {
      buffer[at + k] := page[k];
    }
  }

  ghost predicate ReadsFrom(start: Engine, offset: nat, pages: nat, e: Engine, i: nat, got: seq<Byte>) {
    && i <= pages
    && var (f, rest, done) := ReadPages(e, offset + PageBytes(i), pages - i);
       ReadPages(start, offset, pages) == (f, got + rest, done)
  }

  lemma ReadsStart(start: Engine, offset: nat, pages: nat)
    ensures ReadsFrom(start, offset, pages, start, 0, [])
  {
    assert [] + ReadPages(start, offset, pages).1 == ReadPages(start, offset, pages).1;
  }

  lemma ReadsEnd(start: Engine, offset: nat, pages: nat, e: Engine, got: seq<Byte>)
    requires ReadsFrom(start, offset, pages, e, pages, got)
    ensures ReadPages(start, offset, pages) == (e, got, true)
  {
    assert got + [] == got;
  }

  lemma ReadExecutes(h: Hash, e: Engine, r: BlockRequest, buffer: seq<Byte>)
    requires r.op == ReadOp && PageAligned(r) && r.bytes <= |buffer|
    ensures var (f, bytes, done) := ReadPages(e, r.offset, PageCount(r.bytes));
            Execute(h, e, r, buffer) == (f, Overwrite(buffer, bytes), if done then Completed(r.bytes) else Failed(-EIO))
    ensures PageBytes(PageCount(r.bytes)) == r.bytes
  {
  }

  lemma ReadsAdvance(start: Engine, offset: nat, pages: nat, e: Engine, i: nat, got: seq<Byte>)
    requires ReadsFrom(start, offset, pages, e, i, got) && i < pages
    ensures var (f, page) := e.HandleRead(offset + PageBytes(i));
            if page.Some? then ReadsFrom(start, offset, pages, f, i + 1, got + page.value)
            else ReadPages(start, offset, pages) == (f, got, false)
  {
    hide Engine.HandleRead;
    var (f, page) := e.HandleRead(offset + PageBytes(i));
    if page.Some? {
      var (g, rest, done) := ReadPages(f, offset + PageBytes(i + 1), pages - i - 1);
      assert got + (page.value + rest) == got + page.value + rest;
    } else {
      assert got + [] == got;
    }
  }

  method ExecuteRequest(engine: ProxyEngine, r: BlockRequest, buffer: array<Byte>) returns (reply: Reply)
    requires engine.Valid()
    modifies engine, engine.table, engine.table.bloom.words, engine.store.pages, engine.allocator, buffer
    ensures (engine.View(), buffer[..], reply) == Execute(engine.hash, old(engine.View()), r, old(buffer[..]))
  {
    match r.op {
      case ReadOp => reply := ExecuteRead(engine, r, buffer);
      case WriteOp => reply := ExecuteWrite(engine, r, buffer);
      case FlushOp => reply := Completed(0);
      case DiscardOp => reply := ExecuteDiscard(engine, r, buffer);
      case WriteZeroesOp => reply := ExecuteWriteZeroes(engine, r, buffer);
      case UnsupportedOp(_) => reply := Failed(-EOPNOTSUPP);
    }
  }
}
