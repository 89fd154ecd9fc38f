/** Requests as the driver issues them, in sectors: what each does to the bytes of the device. */
module SectorRequests {
  import opened Fingerprints
  import opened Backend
  import opened Engines
  import opened EngineSteps
  import opened Refinement
  import opened Frontend

  /** Whole pages of 512-byte sectors, within the widths of the two shifts. */
  predicate InEights(startSector: nat, nrSectors: nat) {
    && startSector % 8 == 0 && nrSectors % 8 == 0
    && startSector < 0x80_0000_0000_0000 && nrSectors < 0x80_0000
  }

  /** The request means what was issued: its operation on bytes `512 * startSector` and on. */
  lemma RequestMeans(op: RequestOp, startSector: nat, nrSectors: nat)
    requires InEights(startSector, nrSectors)
    ensures NewRequest(op, startSector, nrSectors) == BlockRequest(op, 512 * startSector, 512 * nrSectors)
    ensures PageAligned(NewRequest(op, startSector, nrSectors)) && WholePages(512 * nrSectors)
  {
    NewRequestSectors(op, startSector, nrSectors);
  }

  /** A write of sectors stores the buffer there and nowhere else, or fails after whole pages
      of a proper prefix. */
  lemma SectorWrite(h: Hash, e: Engine, startSector: nat, nrSectors: nat, buffer: seq<Byte>)
    requires InEights(startSector, nrSectors) && 512 * nrSectors <= |buffer|
    requires WholePages(512 * nrSectors) && Inv(h, e, AsWritten)
    requires PagesHarmless(h, e, 512 * startSector, buffer[..512 * nrSectors])
    ensures var (f, after, reply) := Execute(h, e, NewRequest(WriteOp, startSector, nrSectors), buffer);
            && Inv(h, f, AsWritten) && after == buffer
            && if reply == Completed(512 * nrSectors) then Patched(e, f, 512 * startSector, buffer[..512 * nrSectors])
               else reply == Failed(-EIO) && exists n: nat ::
                      PageBytes(n) < 512 * nrSectors && Patched(e, f, 512 * startSector, buffer[..PageBytes(n)])
  {
    hide Inv, PagesHarmless, Patched, Execute;
    RequestMeans(WriteOp, startSector, nrSectors);
    WriteRequest(h, e, NewRequest(WriteOp, startSector, nrSectors), buffer);
  }

  /** A read of sectors fills the buffer with the bytes stored there and changes nothing. */
  lemma SectorRead(h: Hash, e: Engine, startSector: nat, nrSectors: nat, buffer: seq<Byte>)
    requires InEights(startSector, nrSectors) && 512 * nrSectors <= |buffer| && Inv(h, e, AsWritten)
    ensures var (f, after, reply) := Execute(h, e, NewRequest(ReadOp, startSector, nrSectors), buffer);
            && reply == Completed(512 * nrSectors) && Inv(h, f, AsWritten) && SameReadable(e, f)
            && |after| == |buffer| && after[512 * nrSectors..] == buffer[512 * nrSectors..]
            && forall i :: 0 <= i < 512 * nrSectors ==> ByteAt(e, 512 * startSector + i) == Some(after[i])
  {
    hide Inv, Execute, ByteAt;
    RequestMeans(ReadOp, startSector, nrSectors);
    ReadRequest(h, e, NewRequest(ReadOp, startSector, nrSectors), buffer);
  }

  /** A discard of sectors zeroes them and nothing else, and never fails. */
  lemma SectorDiscard(h: Hash, e: Engine, startSector: nat, nrSectors: nat, buffer: seq<Byte>)
    requires InEights(startSector, nrSectors) && Inv(h, e, AsWritten)
    ensures var (f, after, reply) := Execute(h, e, NewRequest(DiscardOp, startSector, nrSectors), buffer);
            reply == Completed(512 * nrSectors) && Patched(e, f, 512 * startSector, Zeros(512 * nrSectors))
  {
    hide Inv, Execute, Patched;
    RequestMeans(DiscardOp, startSector, nrSectors);
    ZeroingRequest(h, e, NewRequest(DiscardOp, startSector, nrSectors), buffer);
  }

  /** Writing zeroes to sectors zeroes them and nothing else, or fails after whole pages of a
      proper prefix. */
  lemma SectorWriteZeroes(h: Hash, e: Engine, startSector: nat, nrSectors: nat, buffer: seq<Byte>)
    requires InEights(startSector, nrSectors) && WholePages(512 * nrSectors) && Inv(h, e, AsWritten)
    requires PagesHarmless(h, e, 512 * startSector, Zeros(512 * nrSectors))
    ensures var (f, after, reply) := Execute(h, e, NewRequest(WriteZeroesOp, startSector, nrSectors), buffer);
            if reply.Completed? then
              reply.bytes == 512 * nrSectors && Patched(e, f, 512 * startSector, Zeros(512 * nrSectors))
            else reply == Failed(-EIO) && exists n: nat ::
                   PageBytes(n) < 512 * nrSectors && Patched(e, f, 512 * startSector, Zeros(PageBytes(n)))
  {
    hide Inv, Patched, PagesHarmless, WritePages;
    RequestMeans(WriteZeroesOp, startSector, nrSectors);
    ZeroingRequest(h, e, NewRequest(WriteZeroesOp, startSector, nrSectors), buffer);
  }

  /** Sectors that are not in eights are refused, whatever the operation, except by a flush. */
  lemma SectorsRefused(h: Hash, e: Engine, op: RequestOp, startSector: nat, nrSectors: nat, buffer: seq<Byte>)
    requires op in {ReadOp, WriteOp, DiscardOp, WriteZeroesOp}
    requires startSector % 8 != 0 || nrSectors % 8 != 0
    ensures Execute(h, e, NewRequest(op, startSector, nrSectors), buffer) == (e, buffer, Failed(-EINVAL))
  {
    hide Execute;
    NewRequestSectors(op, startSector, nrSectors);
    RefusedRequest(h, e, NewRequest(op, startSector, nrSectors), buffer);
  }

  /** Sectors written are the sectors read back. */
  lemma SectorRoundTrip(h: Hash, e: Engine, startSector: nat, nrSectors: nat, data: seq<Byte>, buffer: seq<Byte>)
    requires InEights(startSector, nrSectors) && 512 * nrSectors <= |data| && 512 * nrSectors <= |buffer|
    requires WholePages(512 * nrSectors) && Inv(h, e, AsWritten)
    requires PagesHarmless(h, e, 512 * startSector, data[..512 * nrSectors])
    requires Execute(h, e, NewRequest(WriteOp, startSector, nrSectors), data).2.Completed?
    ensures var f := Execute(h, e, NewRequest(WriteOp, startSector, nrSectors), data).0;
            var (_, after, reply) := Execute(h, f, NewRequest(ReadOp, startSector, nrSectors), buffer);
            reply == Completed(512 * nrSectors) && after[..512 * nrSectors] == data[..512 * nrSectors]
  {
    hide Inv, PagesHarmless, Execute;
    RequestMeans(WriteOp, startSector, nrSectors);
    RequestMeans(ReadOp, startSector, nrSectors);
    WriteThenReadRequest(h, e, NewRequest(WriteOp, startSector, nrSectors), data,
                         NewRequest(ReadOp, startSector, nrSectors), buffer);
  }
}
