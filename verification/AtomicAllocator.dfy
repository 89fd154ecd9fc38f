/** The lock-free slot allocator of crates/swap-proxy/src/backend.rs, one atomic step of
    one thread at a time: pop, fetch_add, fetch_sub and push may interleave freely. */
module AtomicAllocator {
  import opened Fingerprints
  import opened Backend

  /** Where a thread stands inside `allocate`. */
  datatype Phase =
    | Idle
    | MustAdd   // its pop found the queue empty
    | MustSub   // its fetch_add went past the end and is still to be undone

  datatype Thread = Thread(phase: Phase, held: set<nat>)

  datatype World = World(free: seq<nat>, next: nat, max: nat, threads: seq<Thread>)

  datatype Move =
    | Pop(t: nat)
    | FetchAdd(t: nat)
    | FetchSub(t: nat)
    | Push(t: nat, slot: nat)
    | Hand(t: nat, slot: nat, to: nat)

  predicate Enabled(w: World, m: Move) {
    && m.t < |w.threads|
    && match m
       case Pop(t) => w.threads[t].phase == Idle
       case FetchAdd(t) => w.threads[t].phase == MustAdd
       case FetchSub(t) => w.threads[t].phase == MustSub
       case Push(t, slot) => slot in w.threads[t].held
       case Hand(t, slot, to) => slot in w.threads[t].held && to < |w.threads|
  }

  function SetThread(w: World, t: nat, phase: Phase, held: set<nat>): World
    requires t < |w.threads|
  {
    w.(threads := w.threads[t := Thread(phase, held)])
  }

  function WrappingInc(n: nat): nat {
    if n + 1 == TWO_64 then 0 else n + 1
  }

  function WrappingDec(n: nat): nat {
    if n == 0 then TWO_64 - 1 else n - 1
  }

  /** One atomic step; a move its thread is in no position to make leaves the world as is. */
  function Next(w: World, m: Move): World {
    if !Enabled(w, m) then w else
    var th := w.threads[m.t];
    match m
    case Pop(t) =>
      if w.free != [] then SetThread(w, t, Idle, th.held + {w.free[0]}).(free := w.free[1..])
      else SetThread(w, t, MustAdd, th.held)
    case FetchAdd(t) =>
      var u := w.(next := WrappingInc(w.next));
      if w.next >= w.max then SetThread(u, t, MustSub, th.held) else SetThread(u, t, Idle, th.held + {w.next})
    case FetchSub(t) => SetThread(w.(next := WrappingDec(w.next)), t, Idle, th.held)
    case Push(t, slot) =>
      var u := SetThread(w, t, th.phase, th.held - {slot});
      if slot < w.max then u.(free := w.free + [slot]) else u
    case Hand(t, slot, to) =>
      var u := SetThread(w, t, th.phase, th.held - {slot});
      SetThread(u, to, u.threads[to].phase, u.threads[to].held + {slot})
  }

  function After(w: World, moves: seq<Move>): World {
    if moves == [] then w else Next(After(w, moves[..|moves| - 1]), moves[|moves| - 1])
  }

  function NewWorld(max: nat, threads: nat): World {
    World([], 0, max, seq(threads, i => Thread(Idle, {})))
  }

  // ----- The invariant -----

  /** Threads whose failed fetch_add is still to be undone. */
  function Pending(threads: seq<Thread>): nat {
    if threads == [] then 0 else
    Pending(threads[..|threads| - 1]) + if threads[|threads| - 1].phase == MustSub then 1 else 0
  }

  ghost predicate QueueBelow(w: World, n: nat) {
    && (forall i :: i in w.free ==> i < n)
    && (forall i, j :: 0 <= i < j < |w.free| ==> w.free[i] != w.free[j])
  }

  predicate Holds(w: World, t: int, s: nat) {
    0 <= t < |w.threads| && s in w.threads[t].held
  }

  /** No slot has two holders, and a held slot is not queued. */
  ghost predicate OneHolder(w: World, n: nat) {
    && (forall t, s: nat :: Holds(w, t, s) ==> s < n && s !in w.free)
    && (forall t, u, s: nat :: Holds(w, t, s) && Holds(w, u, s) ==> t == u)
  }

  ghost predicate NoneLost(w: World, n: nat) {
    forall s: nat :: s < n && s !in w.free ==> exists t :: Holds(w, t, s)
  }

  /** `n` slots have been taken from the counter; every excess of the counter is pending. */
  ghost predicate Accounted(w: World, n: nat) {
    && w.next == n + Pending(w.threads) && n <= w.max && (Pending(w.threads) > 0 ==> n == w.max)
    && QueueBelow(w, n) && OneHolder(w, n) && NoneLost(w, n)
  }

  lemma {:induction false} PendingSet(threads: seq<Thread>, t: nat, x: Thread)
    requires t < |threads|
    ensures Pending(threads[t := x]) ==
              Pending(threads) - (if threads[t].phase == MustSub then 1 else 0) + (if x.phase == MustSub then 1 else 0)
  {
    var last := |threads| - 1;
    if t < last {
      PendingSet(threads[..last], t, x);
      assert threads[t := x][..last] == threads[..last][t := x];
    } else {
      assert threads[t := x][..last] == threads[..last];
    }
  }

  lemma {:induction false} PendingBound(threads: seq<Thread>)
    ensures Pending(threads) <= |threads|
    ensures (exists t :: 0 <= t < |threads| && threads[t].phase == MustSub) ==> Pending(threads) > 0
  {
    if threads != [] {
      var last := |threads| - 1;
      PendingBound(threads[..last]);
      if Pending(threads) == 0 {
        forall t | 0 <= t < |threads|
          ensures threads[t].phase != MustSub
        {
          if t < last { assert threads[..last][t] == threads[t]; }
        }
      }
    }
  }

  // ----- Each step -----

  /** Thread `t` takes a slot nobody holds. */
  lemma TakeKeeps(w: World, n: nat, t: nat, slot: nat, u: World, m: nat)
    requires OneHolder(w, n) && NoneLost(w, n) && t < |w.threads|
    requires u.threads == w.threads[t := Thread(Idle, w.threads[t].held + {slot})]
    requires n <= m && slot < m && slot !in u.free && forall x :: !Holds(w, x, slot)
    requires forall i :: i in u.free ==> i in w.free
    requires forall i: nat :: i < m && i !in u.free && i != slot ==> i < n && i !in w.free
    ensures OneHolder(u, m) && NoneLost(u, m)
  {
    assert forall x, s: nat :: Holds(u, x, s) <==> Holds(w, x, s) || (x == t && s == slot);
    forall s: nat | s < m && s !in u.free
      ensures exists x :: Holds(u, x, s)
    {
      if s == slot {
        assert Holds(u, t, s);
      } else {
        var x :| Holds(w, x, s);
        assert Holds(u, x, s);
      }
    }
  }

  lemma PopKeeps(w: World, n: nat, t: nat)
    requires Accounted(w, n) && Enabled(w, Pop(t))
    ensures Accounted(Next(w, Pop(t)), n)
  {
    if w.free != [] {
      var slot := w.free[0];
      assert slot in w.free;
      assert forall i :: i in w.free <==> i == slot || i in w.free[1..];
      assert forall i :: 0 <= i < |w.free| - 1 ==> w.free[1..][i] == w.free[i + 1];
      PendingSet(w.threads, t, Thread(Idle, w.threads[t].held + {slot}));
      TakeKeeps(w, n, t, slot, Next(w, Pop(t)), n);
    } else {
      PendingSet(w.threads, t, Thread(MustAdd, w.threads[t].held));
      RephaseKeeps(w, n, t, MustAdd, Next(w, Pop(t)));
    }
  }

  /** Changing a phase moves no slot. */
  lemma RephaseKeeps(w: World, n: nat, t: nat, phase: Phase, u: World)
    requires OneHolder(w, n) && NoneLost(w, n) && t < |w.threads|
    requires u.threads == w.threads[t := Thread(phase, w.threads[t].held)] && u.free == w.free
    ensures OneHolder(u, n) && NoneLost(u, n)
  {
    assert forall x, s: nat :: Holds(u, x, s) <==> Holds(w, x, s);
  }

  lemma AddKeeps(w: World, n: nat, t: nat)
    requires Accounted(w, n) && Enabled(w, FetchAdd(t)) && w.max + |w.threads| + 1 < TWO_64
    ensures Accounted(Next(w, FetchAdd(t)), if w.next < w.max then n + 1 else n)
    ensures w.next < w.max ==> w.next == n
    ensures w.next >= w.max ==> n == w.max
  {
    PendingBound(w.threads);
    assert w.next + 1 < TWO_64;
    if w.next < w.max {
      PendingSet(w.threads, t, Thread(Idle, w.threads[t].held + {n}));
      TakeKeeps(w, n, t, n, Next(w, FetchAdd(t)), n + 1);
    } else {
      PendingSet(w.threads, t, Thread(MustSub, w.threads[t].held));
      RephaseKeeps(w, n, t, MustSub, Next(w, FetchAdd(t)));
    }
  }

  lemma SubKeeps(w: World, n: nat, t: nat)
    requires Accounted(w, n) && Enabled(w, FetchSub(t))
    ensures Accounted(Next(w, FetchSub(t)), n)
  {
    PendingBound(w.threads);
    PendingSet(w.threads, t, Thread(Idle, w.threads[t].held));
    RephaseKeeps(w, n, t, Idle, Next(w, FetchSub(t)));
  }

  lemma PushKeeps(w: World, n: nat, t: nat, slot: nat)
    requires Accounted(w, n) && Enabled(w, Push(t, slot))
    ensures Accounted(Next(w, Push(t, slot)), n)
  {
    PendingSet(w.threads, t, Thread(w.threads[t].phase, w.threads[t].held - {slot}));
    var u := Next(w, Push(t, slot));
    assert Holds(w, t, slot);
    assert forall i :: i in u.free <==> i in w.free || i == slot;
    assert forall x, s: nat :: Holds(u, x, s) <==> Holds(w, x, s) && !(x == t && s == slot);
    forall s: nat | s < n && s !in u.free
      ensures exists x :: Holds(u, x, s)
    {
      var x :| Holds(w, x, s);
      assert Holds(u, x, s);
    }
  }

  lemma HandKeeps(w: World, n: nat, t: nat, slot: nat, to: nat)
    requires Accounted(w, n) && Enabled(w, Hand(t, slot, to))
    ensures Accounted(Next(w, Hand(t, slot, to)), n)
  {
    var v := SetThread(w, t, w.threads[t].phase, w.threads[t].held - {slot});
    var u := Next(w, Hand(t, slot, to));
    PendingSet(w.threads, t, v.threads[t]);
    PendingSet(v.threads, to, u.threads[to]);
    assert Holds(w, t, slot);
    assert forall x :: Holds(w, x, slot) ==> x == t;
    assert forall x, s: nat :: Holds(v, x, s) <==> Holds(w, x, s) && s != slot;
    assert forall x, s: nat :: Holds(u, x, s) <==> Holds(v, x, s) || (x == to && s == slot);
    forall s: nat | s < n && s !in u.free
      ensures exists x :: Holds(u, x, s)
    {
      var x :| Holds(w, x, s);
      assert Holds(u, if s == slot then to else x, s);
    }
  }

  lemma NextKeeps(w: World, n: nat, m: Move) returns (k: nat)
    requires Accounted(w, n) && w.max + |w.threads| + 1 < TWO_64
    ensures Accounted(Next(w, m), k) && n <= k
    ensures |Next(w, m).threads| == |w.threads| && Next(w, m).max == w.max
  {
    k := n;
    if Enabled(w, m) {
      match m
      case Pop(t) => PopKeeps(w, n, t);
      case FetchAdd(t) => AddKeeps(w, n, t); k := if w.next < w.max then n + 1 else n;
      case FetchSub(t) => SubKeeps(w, n, t);
      case Push(t, slot) => PushKeeps(w, n, t, slot);
      case Hand(t, slot, to) => HandKeeps(w, n, t, slot, to);
    }
  }

  // ----- Every interleaving -----

  lemma {:induction false} NoThreadsPending(threads: seq<Thread>)
    requires forall t :: 0 <= t < |threads| ==> threads[t].phase == Idle
    ensures Pending(threads) == 0
  {
    if threads != [] {
      NoThreadsPending(threads[..|threads| - 1]);
    }
  }

  lemma {:induction false} InterleavingKeeps(max: nat, threads: nat, moves: seq<Move>) returns (n: nat)
    requires max + threads + 1 < TWO_64
    ensures var w := After(NewWorld(max, threads), moves);
            Accounted(w, n) && w.max == max && |w.threads| == threads
  {
    if moves == [] {
      n := 0;
      NoThreadsPending(NewWorld(max, threads).threads);
    } else {
      var init := moves[..|moves| - 1];
      n := InterleavingKeeps(max, threads, init);
      n := NextKeeps(After(NewWorld(max, threads), init), n, moves[|moves| - 1]);
    }
  }

  /** However the threads interleave, no slot ever has two holders or is both held and
      queued, and every slot is below the limit. */
  lemma NeverTwoHolders(max: nat, threads: nat, moves: seq<Move>, t: nat, u: nat, slot: nat)
    requires max + threads + 1 < TWO_64 && t < threads && u < threads && t != u
    ensures var w := After(NewWorld(max, threads), moves);
            && |w.threads| == threads
            && (Holds(w, t, slot) ==> !Holds(w, u, slot) && slot !in w.free && slot < max)
  {
    var n := InterleavingKeeps(max, threads, moves);
  }

  /** Once no failed attempt is pending the counter is back within the limit, and the slots
      below it are exactly the queued and the held ones. */
  lemma QuietCounter(max: nat, threads: nat, moves: seq<Move>)
    requires max + threads + 1 < TWO_64
    ensures var w := After(NewWorld(max, threads), moves);
            && w.next <= max + Pending(w.threads)
            && (Pending(w.threads) == 0 ==>
                  && w.next <= max
                  && forall s: nat :: s < w.next <==>
                       s in w.free || exists t :: Holds(w, t, s))
  {
    var n := InterleavingKeeps(max, threads, moves);
  }

  /** A thread is refused only once the counter has passed every slot: each has been handed
      out before, and is held or queued again at that moment. */
  lemma RefusedPastEverySlot(max: nat, threads: nat, moves: seq<Move>, t: nat)
    requires max + threads + 1 < TWO_64 && t < threads
    requires var w := After(NewWorld(max, threads), moves);
             |w.threads| == threads && w.threads[t].phase == MustAdd
             && Next(w, FetchAdd(t)).threads[t].phase == MustSub
    ensures var w := After(NewWorld(max, threads), moves);
            forall s: nat :: s < max ==> s in w.free || exists u :: Holds(w, u, s)
  {
    var n := InterleavingKeeps(max, threads, moves);
    AddKeeps(After(NewWorld(max, threads), moves), n, t);
  }

  // ----- An undisturbed call -----

  /** Without interference the steps of one call are the sequential allocator. */
  lemma UndisturbedCallIsAllocate(w: World, t: nat)
    requires t < |w.threads| && w.threads[t].phase == Idle && w.max + 1 < TWO_64 && w.next <= w.max
    ensures var u := Next(Next(Next(w, Pop(t)), FetchAdd(t)), FetchSub(t));
            var (a, slot) := Allocator(w.free, w.next, w.max).Allocate();
            && Allocator(u.free, u.next, u.max) == a && u.threads[t].phase == Idle
            && u.threads[t].held == w.threads[t].held + if slot.Some? then {slot.value} else {}
  {
  }
}
