/** Under constant pressure and non-negative profit the governor reaches its target level
    within a bounded time, from any reachable state, and stays there. */
module Convergence {
  import opened Fingerprints
  import opened GovernorMachine
  import opened GovernorRuns

  /** Ticks at one pressure, without loss, no more than `period` apart after `clock`. */
  ghost predicate Calm(target: nat, clock: nat, period: nat, rs: seq<Reading>) {
    forall i :: 0 <= i < |rs| ==>
      && PressureToLevel(rs[i].pressure) == target && rs[i].profit >= 0
      && Before(clock, rs, i) <= rs[i].now <= Before(clock, rs, i) + period
  }

  /** The time of the tick before the `i`-th, or the start. */
  function Before(clock: nat, rs: seq<Reading>, i: nat): nat
    requires i < |rs|
  {
    if i == 0 then clock else rs[i - 1].now
  }

  /** The state is no younger than `clock`. */
  ghost predicate Settled(c: Config, g: Governor, clock: nat) {
    Steady(c, g) && g.enteredAt <= clock && g.lastAction <= clock
  }

  function Max(a: nat, b: nat): nat {
    if a < b then b else a
  }

  function Cooldown(c: Config): nat {
    c.minLevelSecs * SECOND
  }

  function Stabilization(c: Config): nat {
    c.stabilizationSecs * SECOND
  }

  function Times(n: nat, period: nat): nat {
    n * period
  }

  /** The time one level change may take: the windows plus the readings needed. */
  function StepTime(c: Config, period: nat): nat {
    Stabilization(c) + Cooldown(c) + Needed(c) * period
  }

  // ----- When the next attempt comes -----

  /** An upper bound on the time of the next attempt to change level. */
  function NextAttempt(c: Config, g: Governor, target: nat, clock: nat, period: nat): nat
    requires Steady(c, g)
  {
    if target < g.level then Max(g.enteredAt + Cooldown(c), clock) + Times(Needed(c) - g.hysteresis, period)
    else if target == g.level + 1 then clock + Times(Needed(c) - g.rampUp, period)
    else clock + period
  }

  /** An upper bound on the time of the next change of level: a deferred attempt happened
      before the window closed, and the following one comes a cooldown and the needed
      readings later. */
  function Deadline(c: Config, g: Governor, target: nat, clock: nat, period: nat): nat
    requires Steady(c, g)
  {
    Max(NextAttempt(c, g, target, clock, period), g.lastAction + StepTime(c, period))
  }

  lemma DeadlineBound(c: Config, g: Governor, target: nat, clock: nat, period: nat)
    requires Settled(c, g, clock)
    ensures Deadline(c, g, target, clock, period) <= clock + StepTime(c, period)
  {
    Fewer(Needed(c) - g.hysteresis, Needed(c), period);
    Fewer(Needed(c) - g.rampUp, Needed(c), period);
    Fewer(1, Needed(c), period);
  }

  lemma Fewer(m: nat, n: nat, period: nat)
    requires m <= n
    ensures m * period <= n * period
  {
  }

  lemma OneLess(n: nat, period: nat)
    requires n >= 1
    ensures n * period == (n - 1) * period + period
  {
  }

  /** A calm tick either changes the level toward the target, before the deadline, or leaves
      the level alone and does not move the deadline. */
  ghost predicate Progress(c: Config, g: Governor, f: Governor, target: nat, clock: nat, now: nat, period: nat)
    requires Steady(c, g) && Steady(c, f)
  {
    if f.level == g.level then
      f.lastAction == g.lastAction
      && (g.level != target ==>
            now <= Deadline(c, g, target, clock, period)
            && Deadline(c, f, target, now, period) <= Deadline(c, g, target, clock, period))
    else
      && now <= Deadline(c, g, target, clock, period) && f.lastAction == now
      && (g.level < target ==> f.level == target) && (target < g.level ==> f.level == g.level - 1)
      && g.level != target
  }

  lemma DownTick(c: Config, g: Governor, r: Reading, target: nat, clock: nat, period: nat)
    requires Settled(c, g, clock) && target == PressureToLevel(r.pressure) && target < g.level && r.profit >= 0
    requires clock <= r.now <= clock + period
    ensures Settled(c, Tick(c, g, r), r.now) && Progress(c, g, Tick(c, g, r), target, clock, r.now, period)
  {
    var f := Tick(c, g, r);
    OneLess(Needed(c) - g.hysteresis, period);
    Fewer(1, Needed(c) - g.hysteresis, period);
    Fewer(Needed(c) - g.hysteresis, Needed(c), period);
  }

  lemma UpTick(c: Config, g: Governor, r: Reading, target: nat, clock: nat, period: nat)
    requires Settled(c, g, clock) && target == PressureToLevel(r.pressure) && target > g.level && r.profit >= 0
    requires clock <= r.now <= clock + period
    ensures Settled(c, Tick(c, g, r), r.now) && Progress(c, g, Tick(c, g, r), target, clock, r.now, period)
  {
    var f := Tick(c, g, r);
    OneLess(Needed(c) - g.rampUp, period);
    Fewer(1, Needed(c) - g.rampUp, period);
    Fewer(Needed(c) - g.rampUp, Needed(c), period);
    Fewer(1, Needed(c), period);
  }

  lemma CalmTick(c: Config, g: Governor, r: Reading, target: nat, clock: nat, period: nat)
    requires Settled(c, g, clock) && target == PressureToLevel(r.pressure) && r.profit >= 0
    requires clock <= r.now <= clock + period
    ensures Settled(c, Tick(c, g, r), r.now) && Progress(c, g, Tick(c, g, r), target, clock, r.now, period)
  {
    if target < g.level {
      DownTick(c, g, r, target, clock, period);
    } else if target > g.level {
      UpTick(c, g, r, target, clock, period);
    }
  }

  // ----- Runs -----

  /** Level changes still needed: one upward, or one per level downward. */
  function Changes(level: nat, target: nat): nat {
    if level == target then 0 else if level < target then 1 else level - target
  }

  /** An upper bound on the time by which `k` level changes have happened. */
  function Due(c: Config, g: Governor, k: nat, target: nat, clock: nat, period: nat): int
    requires Steady(c, g)
  {
    Deadline(c, g, target, clock, period) + (k - 1) * StepTime(c, period)
  }

  /** Of `k` changes due from `g`, those still due from a later state `f`. */
  function Left(g: Governor, f: Governor, k: nat, target: nat): int {
    k - (Changes(g.level, target) - Changes(f.level, target))
  }

  lemma DueStep(c: Config, g: Governor, f: Governor, k: nat, target: nat, clock: nat, now: nat, period: nat)
    requires Settled(c, g, clock) && Settled(c, f, now) && Progress(c, g, f, target, clock, now, period)
    requires g.level != target && k >= 1
    ensures now <= Due(c, g, k, target, clock, period)
    ensures f.level != target && Left(g, f, k, target) >= 1 ==>
              Due(c, f, Left(g, f, k, target), target, now, period) <= Due(c, g, k, target, clock, period)
  {
    var step := StepTime(c, period);
    Fewer(0, k - 1, step);
    if f.level != g.level && f.level != target {
      assert Left(g, f, k, target) == k - 1;
      DeadlineBound(c, f, target, now, period);
      if k > 1 { OneLess(k - 1, step); }
    }
  }

  lemma DueBound(c: Config, g: Governor, k: nat, target: nat, clock: nat, period: nat)
    requires Settled(c, g, clock) && k >= 1
    ensures Due(c, g, k, target, clock, period) <= clock + k * StepTime(c, period)
  {
    DeadlineBound(c, g, target, clock, period);
    OneLess(k, StepTime(c, period));
  }

  lemma CalmPrefix(target: nat, clock: nat, period: nat, rs: seq<Reading>)
    requires rs != [] && Calm(target, clock, period, rs)
    ensures Calm(target, clock, period, rs[..|rs| - 1])
    ensures var last := rs[|rs| - 1];
            PressureToLevel(last.pressure) == target && last.profit >= 0
            && Clock(clock, rs[..|rs| - 1]) <= last.now <= Clock(clock, rs[..|rs| - 1]) + period
  {
    var init := rs[..|rs| - 1];
    forall i | 0 <= i < |init|
      ensures PressureToLevel(init[i].pressure) == target && init[i].profit >= 0
      ensures Before(clock, init, i) <= init[i].now <= Before(clock, init, i) + period
    {
      assert init[i] == rs[i] && Before(clock, init, i) == Before(clock, rs, i);
    }
    assert Clock(clock, init) == Before(clock, rs, |rs| - 1);
  }

  /** From `g` at `clock` to `f` at `now` the level never moved away from the target and, while
      some of `k` changes are due, the clock is not past their due time. */
  ghost predicate OnTime(c: Config, g: Governor, f: Governor, k: nat, target: nat, clock: nat, now: nat, period: nat)
    requires Steady(c, g) && Steady(c, f)
  {
    && Changes(f.level, target) <= Changes(g.level, target)
    && (f.level != target && Left(g, f, k, target) >= 1 ==>
          && now <= Due(c, g, k, target, clock, period)
          && Due(c, f, Left(g, f, k, target), target, now, period) <= Due(c, g, k, target, clock, period))
  }

  lemma OnTimeStep(c: Config, g: Governor, f: Governor, f': Governor, k: nat, target: nat, clock: nat, mid: nat,
                   now: nat, period: nat)
    requires Steady(c, g) && Settled(c, f, mid) && Settled(c, f', now)
    requires OnTime(c, g, f, k, target, clock, mid, period) && Progress(c, f, f', target, mid, now, period)
    ensures OnTime(c, g, f', k, target, clock, now, period)
  {
    hide Due;
    var left := Left(g, f, k, target);
    if f.level != target && left >= 1 {
      DueStep(c, f, f', left, target, mid, now, period);
    }
  }

  /** Calm runs are on time, for every number of changes. */
  lemma {:induction false} CalmRun(c: Config, g: Governor, k: nat, target: nat, clock: nat, period: nat, rs: seq<Reading>)
    requires Settled(c, g, clock) && Calm(target, clock, period, rs)
    ensures Settled(c, Run(c, g, rs), Clock(clock, rs))
    ensures OnTime(c, g, Run(c, g, rs), k, target, clock, Clock(clock, rs), period)
  {
    hide Tick, Due, Progress, Calm;
    if rs == [] {
      if k >= 1 { DueLater(c, g, k, target, clock, period); }
    } else {
      hide OnTime;
      CalmPrefix(target, clock, period, rs);
      var last := |rs| - 1;
      CalmRun(c, g, k, target, clock, period, rs[..last]);
      var before := Run(c, g, rs[..last]);
      CalmTick(c, before, rs[last], target, Clock(clock, rs[..last]), period);
      OnTimeStep(c, g, before, Run(c, g, rs), k, target, clock, Clock(clock, rs[..last]), rs[last].now, period);
    }
  }

  lemma DueLater(c: Config, g: Governor, k: nat, target: nat, clock: nat, period: nat)
    requires Settled(c, g, clock) && k >= 1
    ensures clock <= Due(c, g, k, target, clock, period)
  {
    Fewer(0, k - 1, StepTime(c, period));
    Fewer(0, Needed(c) - g.hysteresis, period);
    Fewer(0, Needed(c) - g.rampUp, period);
  }

  lemma ReachedSettled(c: Config, start: nat, acted: nat, past: seq<Reading>)
    requires Monotone(start, past) && acted <= start
    ensures Settled(c, Run(c, NewGovernor(start, acted), past), Clock(start, past))
    decreases |past|
  {
    RunSteady(c, start, acted, past);
    ReachedStamps(c, start, acted, past);
  }

  lemma {:induction false} ReachedStamps(c: Config, start: nat, acted: nat, past: seq<Reading>)
    requires Monotone(start, past) && acted <= start
    ensures var g := Run(c, NewGovernor(start, acted), past);
            g.enteredAt <= Clock(start, past) && g.lastAction <= Clock(start, past)
  {
    if past != [] {
      ReachedStamps(c, start, acted, past[..|past| - 1]);
      assert Clock(start, past[..|past| - 1]) <= Clock(start, past);
    }
  }

  /** Each level change is in time: from any reachable state, calm ticks that last longer than
      `k` step times bring the level `k` changes closer, or all the way. */
  lemma ChangesInTime(c: Config, start: nat, acted: nat, past: seq<Reading>, k: nat, target: nat, period: nat,
                      rs: seq<Reading>)
    requires Monotone(start, past) && acted <= start && Calm(target, Clock(start, past), period, rs)
    requires Clock(Clock(start, past), rs) > Clock(start, past) + k * StepTime(c, period)
    ensures var g := Run(c, NewGovernor(start, acted), past);
            var f := Run(c, g, rs);
            f.level == target || Changes(f.level, target) + k <= Changes(g.level, target)
  {
    hide Due;
    var g := Run(c, NewGovernor(start, acted), past);
    var clock := Clock(start, past);
    ReachedSettled(c, start, acted, past);
    CalmRun(c, g, k, target, clock, period, rs);
    if k >= 1 { DueBound(c, g, k, target, clock, period); }
  }

  /** In particular each single step down takes at most one step time. */
  lemma StepDownInTime(c: Config, start: nat, acted: nat, past: seq<Reading>, target: nat, period: nat, rs: seq<Reading>)
    requires Monotone(start, past) && acted <= start && Calm(target, Clock(start, past), period, rs)
    requires Clock(Clock(start, past), rs) > Clock(start, past) + StepTime(c, period)
    requires Run(c, NewGovernor(start, acted), past).level > target
    ensures target <= Run(c, Run(c, NewGovernor(start, acted), past), rs).level
              < Run(c, NewGovernor(start, acted), past).level
  {
    ChangesInTime(c, start, acted, past, 1, target, period, rs);
    ReachedSettled(c, start, acted, past);
    NeverBelow(c, Run(c, NewGovernor(start, acted), past), target, Clock(start, past), period, rs);
  }

  /** Going down, calm ticks never overshoot. */
  lemma {:induction false} NeverBelow(c: Config, g: Governor, target: nat, clock: nat, period: nat, rs: seq<Reading>)
    requires Settled(c, g, clock) && g.level >= target && Calm(target, clock, period, rs)
    ensures Run(c, g, rs).level >= target
  {
    hide Tick, Due;
    if rs != [] {
      CalmPrefix(target, clock, period, rs);
      var init := rs[..|rs| - 1];
      NeverBelow(c, g, target, clock, period, init);
      CalmRun(c, g, 0, target, clock, period, init);
      CalmTick(c, Run(c, g, init), rs[|rs| - 1], target, Clock(clock, init), period);
    }
  }

  /** Convergence: from any reachable state, once calm ticks have lasted longer than one
      step time per level change still needed, the level is the target. */
  lemma Converges(c: Config, start: nat, acted: nat, past: seq<Reading>, target: nat, period: nat, rs: seq<Reading>)
    requires Monotone(start, past) && acted <= start && Calm(target, Clock(start, past), period, rs)
    requires var g := Run(c, NewGovernor(start, acted), past);
             Clock(Clock(start, past), rs) > Clock(start, past) + Changes(g.level, target) * StepTime(c, period)
    ensures Run(c, Run(c, NewGovernor(start, acted), past), rs).level == target
  {
    var g := Run(c, NewGovernor(start, acted), past);
    ChangesInTime(c, start, acted, past, Changes(g.level, target), target, period, rs);
  }

  /** Once there it stays there. */
  lemma {:induction false} StaysAtTarget(c: Config, g: Governor, target: nat, clock: nat, period: nat, rs: seq<Reading>)
    requires Steady(c, g) && g.level == target && Calm(target, clock, period, rs)
    ensures Run(c, g, rs).level == target && Steady(c, Run(c, g, rs))
  {
    if rs != [] {
      CalmPrefix(target, clock, period, rs);
      StaysAtTarget(c, g, target, clock, period, rs[..|rs| - 1]);
      TickKeepsSteady(c, Run(c, g, rs[..|rs| - 1]), rs[|rs| - 1]);
    }
  }

  /** Upward one application suffices: a calm run never leaves a level below the target
      except for the target itself, and downward it moves one level at a time. */
  lemma {:induction false} CalmActions(c: Config, g: Governor, target: nat, clock: nat, period: nat, rs: seq<Reading>)
    requires Settled(c, g, clock) && Calm(target, clock, period, rs)
    ensures |Actions(c, g, rs)| == Changes(g.level, target) - Changes(Run(c, g, rs).level, target)
    ensures forall i :: 0 <= i < |Actions(c, g, rs)| ==> Actions(c, g, rs)[i].driven
  {
    hide Tick, TickActions;
    if rs != [] {
      CalmPrefix(target, clock, period, rs);
      var init := rs[..|rs| - 1];
      CalmActions(c, g, target, clock, period, init);
      CalmRun(c, g, 0, target, clock, period, init);
      var before := Run(c, g, init);
      CalmTick(c, before, rs[|rs| - 1], target, Clock(clock, init), period);
      CalmTickActions(c, before, rs[|rs| - 1], target);
    }
  }

  lemma CalmTickActions(c: Config, g: Governor, r: Reading, target: nat)
    requires Steady(c, g) && r.profit >= 0
    ensures |TickActions(c, g, r)| == if Tick(c, g, r).level == g.level then 0 else 1
    ensures forall i :: 0 <= i < |TickActions(c, g, r)| ==> TickActions(c, g, r)[i].driven
  {
  }
}
