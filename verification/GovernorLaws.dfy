/** What holds the governor back and what drives it: cooldown and hysteresis on the way
    down, the order of pressures and profiles, profit cuts, and where a run starts. */
module GovernorLaws {
  import opened Fingerprints
  import opened Ksm
  import opened GovernorMachine
  import opened GovernorRuns
  import opened Convergence

  // ----- Cooldown -----

  /** A pressure-driven step down comes a cooldown after the start and after every earlier
      pressure-driven action. */
  ghost predicate Cooled(c: Config, start: nat, log: seq<Action>) {
    && (forall j :: 0 <= j < |log| && log[j].driven && log[j].to < log[j].from ==> start + Cooldown(c) <= log[j].at)
    && (forall i, j :: 0 <= i < j < |log| && log[i].driven && log[j].driven && log[j].to < log[j].from ==>
          log[i].at + Cooldown(c) <= log[j].at)
  }

  /** The time of entry bounds the start and every driven action. */
  ghost predicate Entered(g: Governor, start: nat, log: seq<Action>, clock: nat) {
    && start <= g.enteredAt <= clock
    && forall i :: 0 <= i < |log| && log[i].driven ==> log[i].at <= g.enteredAt
  }

  lemma AppendCooled(c: Config, start: nat, log: seq<Action>, a: Action)
    requires Cooled(c, start, log)
    requires a.driven && a.to < a.from ==>
               start + Cooldown(c) <= a.at && forall i :: 0 <= i < |log| && log[i].driven ==> log[i].at + Cooldown(c) <= a.at
    ensures Cooled(c, start, log + [a])
  {
  }

  lemma TickCooled(c: Config, g: Governor, r: Reading, start: nat, log: seq<Action>, clock: nat)
    requires Cooled(c, start, log) && Entered(g, start, log, clock) && clock <= r.now
    ensures var all := log + TickActions(c, g, r);
            Cooled(c, start, all) && Entered(Tick(c, g, r), start, all, r.now)
  {
    var g1 := PressureTick(c, g, r);
    var mid := log;
    if g1.level != g.level {
      var a := Action(true, r.now, g.level, g1.level);
      AppendCooled(c, start, log, a);
      mid := log + [a];
    }
    if ProfitCut(g1, r) {
      var b := Action(false, r.now, g1.level, g1.level - 1);
      AppendCooled(c, start, mid, b);
      assert mid + [b] == log + TickActions(c, g, r);
    } else {
      assert mid == log + TickActions(c, g, r);
    }
  }

  /** In every run the level steps down under pressure only a cooldown after it was entered. */
  lemma {:induction false} CooldownKept(c: Config, start: nat, acted: nat, rs: seq<Reading>)
    requires Monotone(start, rs)
    ensures var log := Actions(c, NewGovernor(start, acted), rs);
            Cooled(c, start, log) && Entered(Run(c, NewGovernor(start, acted), rs), start, log, Clock(start, rs))
  {
    hide Tick, TickActions;
    if rs != [] {
      var init := rs[..|rs| - 1];
      CooldownKept(c, start, acted, init);
      TickCooled(c, Run(c, NewGovernor(start, acted), init), rs[|rs| - 1], start,
                 Actions(c, NewGovernor(start, acted), init), Clock(start, init));
    }
  }

  // ----- Ramp-down needs consecutive readings -----

  /** The reading asks for less than `g` has, a cooldown after `g` entered its level. */
  predicate AsksDown(c: Config, g: Governor, r: Reading) {
    PressureToLevel(r.pressure) < g.level && Elapsed(r.now, g.enteredAt) >= Cooldown(c)
  }

  /** How many of the latest ticks asked for less, each past the cooldown it found. */
  function DownStreak(c: Config, g: Governor, rs: seq<Reading>): nat {
    if rs == [] then 0 else
    var last := |rs| - 1;
    if AsksDown(c, Run(c, g, rs[..last]), rs[last]) then DownStreak(c, g, rs[..last]) + 1 else 0
  }

  /** Readings are only counted past the cooldown. */
  ghost predicate CountsLate(c: Config, g: Governor, clock: nat) {
    g.hysteresis > 0 ==> Elapsed(clock, g.enteredAt) >= Cooldown(c)
  }

  lemma TickCountsLate(c: Config, g: Governor, r: Reading, clock: nat, streak: nat)
    requires CountsLate(c, g, clock) && clock <= r.now && g.hysteresis <= streak
    ensures CountsLate(c, Tick(c, g, r), r.now)
    ensures Tick(c, g, r).hysteresis <= if AsksDown(c, g, r) then streak + 1 else 0
  {
  }

  lemma {:induction false} DownStreakCounts(c: Config, start: nat, acted: nat, rs: seq<Reading>)
    requires Monotone(start, rs)
    ensures CountsLate(c, Run(c, NewGovernor(start, acted), rs), Clock(start, rs))
    ensures Run(c, NewGovernor(start, acted), rs).hysteresis <= DownStreak(c, NewGovernor(start, acted), rs) <= |rs|
  {
    hide Tick, AsksDown, CountsLate;
    if rs == [] {
      NoneCounted(c, start, acted);
    } else {
      var init := rs[..|rs| - 1];
      DownStreakCounts(c, start, acted, init);
      TickCountsLate(c, Run(c, NewGovernor(start, acted), init), rs[|rs| - 1], Clock(start, init),
                     DownStreak(c, NewGovernor(start, acted), init));
    }
  }

  lemma NoneCounted(c: Config, start: nat, acted: nat)
    ensures CountsLate(c, NewGovernor(start, acted), start) && NewGovernor(start, acted).hysteresis == 0
  {
  }

  lemma {:induction false} DownStreakMeans(c: Config, g: Governor, rs: seq<Reading>, i: nat)
    requires |rs| - DownStreak(c, g, rs) <= i < |rs|
    ensures AsksDown(c, Run(c, g, rs[..i]), rs[i])
    decreases |rs|
  {
    hide Tick, AsksDown;
    var last := |rs| - 1;
    if i < last {
      DownStreakMeans(c, g, rs[..last], i);
      assert rs[..last][..i] == rs[..i];
    }
  }

  /** The pressure half of a tick lowers the level exactly at the last reading needed, past
      the cooldown and outside the stabilization window, and then by one. */
  lemma LowersExactly(c: Config, g: Governor, r: Reading)
    requires Steady(c, g)
    ensures var f := PressureTick(c, g, r);
            && (f.level < g.level <==>
                  AsksDown(c, g, r) && g.hysteresis + 1 == Needed(c) && Elapsed(r.now, g.lastAction) >= Stabilization(c))
            && (f.level < g.level ==> f.level == g.level - 1)
  {
  }

  /** A tick whose pressure half lowers the level lowers it by one, and ends as many
      consecutive ticks as hysteresis asks for, each with a target below the level it found
      and a cooldown after every pressure-driven action before it. */
  lemma RampDownIsEarned(c: Config, start: nat, acted: nat, rs: seq<Reading>)
    requires rs != [] && Monotone(start, rs)
    requires var before := Run(c, NewGovernor(start, acted), rs[..|rs| - 1]);
             PressureTick(c, before, rs[|rs| - 1]).level < before.level
    ensures var before := Run(c, NewGovernor(start, acted), rs[..|rs| - 1]);
            PressureTick(c, before, rs[|rs| - 1]).level == before.level - 1
    ensures |rs| >= Needed(c)
    ensures forall i :: |rs| - Needed(c) <= i < |rs| ==>
              PressureToLevel(rs[i].pressure) < Run(c, NewGovernor(start, acted), rs[..i]).level
              && forall a :: a in Actions(c, NewGovernor(start, acted), rs[..i]) && a.driven ==>
                   a.at + Cooldown(c) <= rs[i].now
  {
    hide Tick, PressureTick, Actions;
    var g := NewGovernor(start, acted);
    var last := |rs| - 1;
    DownStreakCounts(c, start, acted, rs[..last]);
    RunSteady(c, start, acted, rs[..last]);
    LowersExactly(c, Run(c, g, rs[..last]), rs[last]);
    assert DownStreak(c, g, rs) >= Needed(c);
    DownStreakCounts(c, start, acted, rs);
    forall i | |rs| - Needed(c) <= i < |rs|
      ensures PressureToLevel(rs[i].pressure) < Run(c, g, rs[..i]).level
      ensures forall a :: a in Actions(c, g, rs[..i]) && a.driven ==> a.at + Cooldown(c) <= rs[i].now
    {
      DownStreakMeans(c, g, rs, i);
      CooldownKept(c, start, acted, rs[..i]);
    }
  }

  // ----- Attempts -----

  /** The reading completes what a change of level needs, whether or not the stabilization
      window lets the change through. */
  predicate Attempts(c: Config, g: Governor, r: Reading) {
    var target := PressureToLevel(r.pressure);
    || target >= g.level + 2
    || (target == g.level + 1 && g.rampUp + 1 >= Needed(c))
    || (AsksDown(c, g, r) && g.hysteresis + 1 >= Needed(c))
  }

  /** Every attempt, also one that is deferred, starts counters and cooldown afresh; nothing
      else restarts the cooldown, and a reading counts in the direction it asks for. */
  lemma AttemptsRestart(c: Config, g: Governor, r: Reading)
    requires Steady(c, g)
    ensures var f := PressureTick(c, g, r);
            var target := PressureToLevel(r.pressure);
            if Attempts(c, g, r) then
              && f.rampUp == 0 && f.hysteresis == 0 && f.enteredAt == r.now
              && (f.level != g.level <==> Elapsed(r.now, g.lastAction) >= Stabilization(c))
              && (f.level != g.level ==> f.lastAction == r.now && f.level == if target > g.level then target else g.level - 1)
              && (f.level == g.level ==> f.lastAction == g.lastAction)
            else
              && f.level == g.level && f.enteredAt == g.enteredAt && f.lastAction == g.lastAction
              && f.rampUp == (if target == g.level + 1 then g.rampUp + 1 else 0)
              && f.hysteresis == if AsksDown(c, g, r) then g.hysteresis + 1 else if target < g.level then g.hysteresis else 0
  {
  }

  lemma TickEntered(c: Config, g: Governor, r: Reading)
    requires Steady(c, g) && g.enteredAt <= r.now
    ensures g.enteredAt <= Tick(c, g, r).enteredAt <= r.now
    ensures Attempts(c, g, r) ==> Tick(c, g, r).enteredAt == r.now
  {
    AttemptsRestart(c, g, r);
  }

  lemma {:induction false} EnteredSince(c: Config, start: nat, acted: nat, rs: seq<Reading>, i: nat)
    requires Monotone(start, rs) && i < |rs| && Attempts(c, Run(c, NewGovernor(start, acted), rs[..i]), rs[i])
    ensures rs[i].now <= Run(c, NewGovernor(start, acted), rs).enteredAt <= Clock(start, rs)
    decreases |rs|
  {
    hide Tick, Attempts;
    var g, last := NewGovernor(start, acted), |rs| - 1;
    var init := rs[..last];
    RunSteady(c, start, acted, init);
    CooldownKept(c, start, acted, init);
    TickEntered(c, Run(c, g, init), rs[last]);
    if i < last {
      assert init[..i] == rs[..i];
      EnteredSince(c, start, acted, init, i);
    }
  }

  /** So the level is lowered only a cooldown after every earlier attempt in either direction,
      deferred ones included. */
  lemma DeferredDownWaits(c: Config, start: nat, acted: nat, rs: seq<Reading>, i: nat)
    requires Monotone(start, rs) && i < |rs| - 1
    requires Attempts(c, Run(c, NewGovernor(start, acted), rs[..i]), rs[i])
    requires var before := Run(c, NewGovernor(start, acted), rs[..|rs| - 1]);
             PressureTick(c, before, rs[|rs| - 1]).level < before.level
    ensures rs[i].now + Cooldown(c) <= rs[|rs| - 1].now
  {
    hide Tick, PressureTick, Attempts;
    var g, last := NewGovernor(start, acted), |rs| - 1;
    assert rs[..last][..i] == rs[..i];
    EnteredSince(c, start, acted, rs[..last], i);
    RunSteady(c, start, acted, rs[..last]);
    LowersExactly(c, Run(c, g, rs[..last]), rs[last]);
  }

  // ----- Pressure -----

  /** How severe a pressure is. */
  function Severity(p: Pressure): nat {
    match p
    case PressureIdle => 0
    case PressureLow => 1
    case PressureMedium => 2
    case PressureHigh => 3
    case PressureCritical => 4
  }

  /** More pressure never asks for a lower level; critical pressure asks for the top, idle and
      low for the lightest running level, and from there medium is a multi-level jump. */
  lemma PressureOrder(p: Pressure, q: Pressure)
    ensures Severity(p) <= Severity(q) ==> PressureToLevel(p) <= PressureToLevel(q)
    ensures PressureToLevel(PressureCritical) == TOP_LEVEL
    ensures PressureToLevel(PressureIdle) == PressureToLevel(PressureLow) == 1
    ensures PressureToLevel(PressureLow) + 2 <= PressureToLevel(PressureMedium)
    ensures PressureToLevel(PressureMedium) < PressureToLevel(PressureHigh) < PressureToLevel(PressureCritical)
  {
  }

  /** Outside the stabilization window a target two or more levels up is reached at once,
      whatever the counters; inside it nothing moves. */
  lemma JumpsAtOnce(c: Config, g: Governor, r: Reading)
    requires g.level + 2 <= PressureToLevel(r.pressure)
    ensures PressureTick(c, g, r).level ==
              if Elapsed(r.now, g.lastAction) >= Stabilization(c) then PressureToLevel(r.pressure) else g.level
  {
  }

  /** Ticks at one pressure, without loss, no more than `period` apart after `clock`. */
  ghost predicate Steadily(p: Pressure, clock: nat, period: nat, rs: seq<Reading>) {
    forall i :: 0 <= i < |rs| ==>
      rs[i].pressure == p && rs[i].profit >= 0 && Before(clock, rs, i) <= rs[i].now <= Before(clock, rs, i) + period
  }

  /** Steady critical pressure ends at the top level within one step time, from any reachable state. */
  lemma CriticalReachesTop(c: Config, start: nat, acted: nat, past: seq<Reading>, period: nat, rs: seq<Reading>)
    requires Monotone(start, past) && acted <= start && Steadily(PressureCritical, Clock(start, past), period, rs)
    requires Clock(Clock(start, past), rs) > Clock(start, past) + StepTime(c, period)
    ensures Run(c, Run(c, NewGovernor(start, acted), past), rs).level == TOP_LEVEL
  {
    PressureOrder(PressureCritical, PressureCritical);
    RunSteady(c, start, acted, past);
    ChangesInTime(c, start, acted, past, 1, TOP_LEVEL, period, rs);
  }

  /** Steady idleness ends at the lightest running level, not at a stopped KSM, within four
      step times. */
  lemma IdleReachesLightest(c: Config, start: nat, acted: nat, past: seq<Reading>, period: nat, rs: seq<Reading>)
    requires Monotone(start, past) && acted <= start && Steadily(PressureIdle, Clock(start, past), period, rs)
    requires Clock(Clock(start, past), rs) > Clock(start, past) + 4 * StepTime(c, period)
    ensures Run(c, Run(c, NewGovernor(start, acted), past), rs).level == 1
  {
    PressureOrder(PressureIdle, PressureIdle);
    RunSteady(c, start, acted, past);
    ChangesInTime(c, start, acted, past, 4, 1, period, rs);
  }

  // ----- Profit cuts -----

  /** After any run a losing reading with more than ten full scans leaves the level one below
      what its pressure half left, if that is above one; no other reading cuts. */
  lemma CutsExactly(c: Config, start: nat, acted: nat, rs: seq<Reading>)
    requires rs != []
    ensures var last := |rs| - 1;
            var half := PressureTick(c, Run(c, NewGovernor(start, acted), rs[..last]), rs[last]).level;
            Run(c, NewGovernor(start, acted), rs).level ==
              if rs[last].profit < 0 && rs[last].fullScans > 10 && half > 1 then half - 1 else half
  {
    RunSteady(c, start, acted, rs[..|rs| - 1]);
  }

  // ----- Where a run starts -----

  /** Each action starts where the one before it ended: the first at level 0, where every
      governor starts, and the last ended at the current level. */
  ghost predicate Chained(log: seq<Action>, level: nat) {
    && (log == [] ==> level == 0)
    && (log != [] ==> log[0].from == 0 && log[|log| - 1].to == level)
    && (forall i :: 0 <= i < |log| ==> log[i].from != log[i].to)
    && forall i :: 0 <= i < |log| - 1 ==> log[i].to == log[i + 1].from
  }

  lemma AppendChained(log: seq<Action>, a: Action)
    requires Chained(log, a.from) && a.from != a.to
    ensures Chained(log + [a], a.to)
  {
  }

  lemma {:induction false} ActionsChain(c: Config, start: nat, acted: nat, rs: seq<Reading>)
    ensures Chained(Actions(c, NewGovernor(start, acted), rs), Run(c, NewGovernor(start, acted), rs).level)
  {
    hide Chained, ComputeTransition;
    if rs == [] {
      NothingChained(start, acted);
    } else {
      var init := rs[..|rs| - 1];
      ActionsChain(c, start, acted, init);
      var log := Actions(c, NewGovernor(start, acted), init);
      TickChained(c, Run(c, NewGovernor(start, acted), init), rs[|rs| - 1], log);
    }
  }

  lemma NothingChained(start: nat, acted: nat)
    ensures Chained([], NewGovernor(start, acted).level)
  {
  }

  lemma TickChained(c: Config, g: Governor, r: Reading, log: seq<Action>)
    requires Chained(log, g.level)
    ensures Chained(log + TickActions(c, g, r), Tick(c, g, r).level)
  {
    hide Chained;
    var g1 := PressureTick(c, g, r);
    var mid := log;
    if g1.level != g.level {
      var a := Action(true, r.now, g.level, g1.level);
      AppendChained(log, a);
      mid := log + [a];
    }
    if ProfitCut(g1, r) {
      var b := Action(false, r.now, g1.level, g1.level - 1);
      AppendChained(mid, b);
      assert mid + [b] == log + TickActions(c, g, r);
    } else {
      assert mid == log + TickActions(c, g, r);
    }
  }

  /** Start-up leaves KSM running, under the scan-time advisor if the governor is to use it
      and under the mode it found otherwise. */
  lemma StartupRuns(kernel: Kernel, regs: Registers, useAdvisor: bool)
    requires TakesNumbers(kernel, "run") && (useAdvisor ==> TakesMode(kernel, "scan-time"))
    ensures var after := Startup(kernel, regs, false, useAdvisor);
            && "run" in after && after["run"] == Number(1)
            && (useAdvisor ==> UnderScanTime(after))
            && forall p :: p != "run" && !(useAdvisor && p == "advisor_mode") ==>
                 (p in after <==> p in regs) && (p in after ==> after[p] == regs[p])
  {
    hide Clamp, TakesNumbers;
    ClampByTable(0, 1);
    var r0 := if useAdvisor then WriteMode(kernel, regs, false, "scan-time").0 else regs;
    Accepted(kernel, r0, "run", 1);
  }

  // ----- Profiles -----

  /** A higher level sleeps less, scans more and shares at least as much; the top level sits
      at the edge of the safe ranges, and only level 0 stops KSM. */
  lemma ProfilesOrdered(i: nat, j: nat)
    requires i < j <= TOP_LEVEL
    ensures PROFILES[i].sleepMillisecs > PROFILES[j].sleepMillisecs
    ensures PROFILES[i].pagesToScan < PROFILES[j].pagesToScan
    ensures PROFILES[i].maxPageSharing <= PROFILES[j].maxPageSharing
    ensures PROFILES[i].level == i && PROFILES[j].level == j
    ensures (PROFILES[i].run == 0 <==> i == 0) && PROFILES[j].run == 1
    ensures Clamp("sleep_millisecs", 0) == PROFILES[TOP_LEVEL].sleepMillisecs
    ensures forall n: nat :: n >= PROFILES[TOP_LEVEL].pagesToScan ==>
              Clamp("pages_to_scan", n) == PROFILES[TOP_LEVEL].pagesToScan
  {
    hide Clamp;
    ClampByTable(2, 0);
    forall n: nat | n >= PROFILES[TOP_LEVEL].pagesToScan
      ensures Clamp("pages_to_scan", n) == PROFILES[TOP_LEVEL].pagesToScan
    {
      ClampByTable(1, n);
    }
  }
}
