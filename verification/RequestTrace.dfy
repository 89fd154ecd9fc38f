/** The run of EvictionTrace as block requests: without the hypothesis on stale insertions
    a device behind a small table is no plain disk. */
module RequestTrace {
  import opened Fingerprints
  import opened Engines
  import opened Refinement
  import opened Frontend
  import opened RequestRuns
  import opened RequestExactness
  import opened EvictionTrace

  /** The trace as one-page block requests. */
  function Replay(s: Setup): seq<Event> {
    AsEvents(s.Trace())
  }

  lemma ReplayRuns(s: Setup, n: nat)
    requires n <= 6
    ensures After(s.h, s.Fresh(), Replay(s)[..n]) == s.After(n)
  {
    EventsRun(s.h, s.Fresh(), s.Trace(), n);
    AfterRuns(s, n);
  }

  lemma EventsAppend(a: seq<Op>, b: seq<Op>)
    requires (forall i :: 0 <= i < |a| ==> OnePage(a[i])) && forall i :: 0 <= i < |b| ==> OnePage(b[i])
    ensures AsEvents(a + b) == AsEvents(a) + AsEvents(b)
  {
    hide AsEvent, OnePage;
  }

  /** The trace around the write that gets lost. */
  lemma TraceParts(s: Setup)
    ensures Replay(s) == AsEvents(s.Trace()[..3]) + [AsEvent(Write(8192, s.a))] + AsEvents(s.Trace()[4..])
    ensures AsEvents(s.Trace()[..3]) == Replay(s)[..3]
  {
    hide AsEvent;
    var t := s.Trace();
    assert t == t[..3] + [t[3]] + t[4..];
    EventsAppend(t[..3], [t[3]]);
    EventsAppend(t[..3] + [t[3]], t[4..]);
    assert AsEvents([t[3]]) == [AsEvent(t[3])];
  }

  lemma TraceSpares(s: Setup)
    ensures |s.Trace()| == 6 && Spares(s.Trace()[4..], 8192) && OnePage(Write(8192, s.a))
  {
  }

  lemma ReplayKeeps(s: Setup, e: Engine, evs: seq<Event>, cont: seq<Op>, f: Engine, j: nat)
    requires e == After(s.h, s.Fresh(), evs) && e.HandleWrite(s.h, 8192, s.a, AsWritten).1
    requires Spares(cont, 8192) && OnePage(Write(8192, s.a)) && j < PAGE_SIZE
    requires var all := evs + [AsEvent(Write(8192, s.a))] + AsEvents(cont);
             ServedLikeDisk(s.h, s.Fresh(), all) && f == After(s.h, s.Fresh(), all)
    ensures Image(f)(8192 + j) == s.a[j]
  {
    hide ServedLikeDisk, Image, After, AsEvent, Engine.HandleWrite;
    var all := evs + [AsEvent(Write(8192, s.a))] + AsEvents(cont);
    BytesStay(s.h, s.Fresh(), evs, Write(8192, s.a), cont, |cont|, j);
    assert all[..|evs| + 1 + |cont|] == all;
  }

  /** On a plain disk the third page written would still be there at the end. */
  lemma DiskWouldKeep(s: Setup, j: nat)
    requires s.Apt() && ServedLikeDisk(s.h, s.Fresh(), Replay(s)) && j < PAGE_SIZE
    ensures Image(s.After(6))(8192 + j) == s.a[j]
  {
    hide Setup.After, After, ServedLikeDisk, Image, AsEvent, AsEvents, Engine.HandleWrite, Spares, OnePage;
    ThirdWriteOk(s);
    ReplayRuns(s, 3);
    ReplayRuns(s, 6);
    TraceParts(s);
    TraceSpares(s);
    assert Replay(s)[..6] == Replay(s);
    ReplayKeeps(s, s.After(3), Replay(s)[..3], s.Trace()[4..], s.After(6), j);
  }

  lemma ThirdWriteOk(s: Setup)
    requires s.Apt()
    ensures s.After(3).HandleWrite(s.h, 8192, s.a, AsWritten).1
  {
    hide Engine.HandleWrite;
    After4(s);
  }

  /** One table entry: some byte of a page that was acknowledged and never touched again
      comes back wrong, so the run is not served as by any plain disk. */
  lemma SmallTableIsNoDisk(s: Setup)
    requires s.Apt()
    ensures !ServedLikeDisk(s.h, s.Fresh(), Replay(s))
  {
    hide Setup.After, ServedLikeDisk, Replay;
    After6(s);
    var j := SomeDifference(s.a, s.c);
    assert InPage(8192 + j) == j;
    assert Image(s.After(6))(8192 + j) == s.c[j];
    if ServedLikeDisk(s.h, s.Fresh(), Replay(s)) {
      DiskWouldKeep(s, j);
    }
  }

  lemma SomeDifference(a: Page, c: Page) returns (j: nat)
    requires a != c
    ensures j < PAGE_SIZE && a[j] != c[j]
  {
    j :| j < PAGE_SIZE && a[j] != c[j];
  }
}
