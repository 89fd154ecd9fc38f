/** Safety of whole governor runs: levels, counters, spacing of actions, registers. */
module GovernorRuns {
  import opened Fingerprints
  import opened Ksm
  import opened GovernorMachine

  /** Readings needed before a one-level change: `hysteresis_readings`, at least one. */
  function Needed(c: Config): nat {
    if c.hysteresisReadings == 0 then 1 else c.hysteresisReadings
  }

  // ----- Levels and counters -----

  /** What holds between ticks. */
  ghost predicate Steady(c: Config, g: Governor) {
    && g.level <= TOP_LEVEL && g.hysteresis < Needed(c) && g.rampUp < Needed(c) && g.fullScansAtLevel == 0
  }

  lemma TickKeepsSteady(c: Config, g: Governor, r: Reading)
    requires Steady(c, g)
    ensures Steady(c, Tick(c, g, r)) && (g.level > 0 ==> Tick(c, g, r).level > 0)
  {
  }

  /** Every run keeps the level in 0..5 and the counters below the number of readings
      needed; the full-scan mark is never anything but zero. */
  lemma {:induction false} RunSteady(c: Config, start: nat, acted: nat, rs: seq<Reading>)
    ensures Steady(c, Run(c, NewGovernor(start, acted), rs))
  {
    if rs != [] {
      RunSteady(c, start, acted, rs[..|rs| - 1]);
      TickKeepsSteady(c, Run(c, NewGovernor(start, acted), rs[..|rs| - 1]), rs[|rs| - 1]);
    }
  }

  /** Once above zero the level never returns to zero. */
  lemma {:induction false} NeverIdleAgain(c: Config, start: nat, acted: nat, rs: seq<Reading>, n: nat)
    requires n <= |rs| && Run(c, NewGovernor(start, acted), rs[..n]).level > 0
    ensures Run(c, NewGovernor(start, acted), rs).level > 0
    decreases |rs|
  {
    hide Tick, Steady;
    var last := |rs| - 1;
    if n < |rs| {
      assert rs[..last][..n] == rs[..n];
      NeverIdleAgain(c, start, acted, rs[..last], n);
      RunSteady(c, start, acted, rs[..last]);
      TickKeepsSteady(c, Run(c, NewGovernor(start, acted), rs[..last]), rs[last]);
    } else {
      assert rs[..n] == rs;
    }
  }

  // ----- Ramp-up needs consecutive readings -----

  /** How many of the latest ticks had a target one above the level they found. */
  function Streak(c: Config, g: Governor, rs: seq<Reading>): nat {
    if rs == [] then 0 else
    var last := |rs| - 1;
    if PressureToLevel(rs[last].pressure) == Run(c, g, rs[..last]).level + 1 then Streak(c, g, rs[..last]) + 1 else 0
  }

  lemma {:induction false} StreakCounts(c: Config, start: nat, acted: nat, rs: seq<Reading>)
    ensures Run(c, NewGovernor(start, acted), rs).rampUp <= Streak(c, NewGovernor(start, acted), rs)
  {
    if rs != [] {
      StreakCounts(c, start, acted, rs[..|rs| - 1]);
    }
  }

  lemma {:induction false} StreakMeans(c: Config, g: Governor, rs: seq<Reading>, i: nat)
    requires |rs| - Streak(c, g, rs) <= i < |rs|
    ensures PressureToLevel(rs[i].pressure) == Run(c, g, rs[..i]).level + 1
    decreases |rs|
  {
    var last := |rs| - 1;
    if i < last {
      StreakMeans(c, g, rs[..last], i);
      assert rs[..last][..i] == rs[..i];
    }
  }

  lemma {:induction false} StreakBound(c: Config, g: Governor, rs: seq<Reading>)
    ensures Streak(c, g, rs) <= |rs|
  {
    if rs != [] {
      StreakBound(c, g, rs[..|rs| - 1]);
    }
  }

  /** A tick whose pressure half raises the level by exactly one ends as many consecutive
      ticks as hysteresis asks for, each with a target one above the level it found. */
  lemma RampUpIsEarned(c: Config, start: nat, acted: nat, rs: seq<Reading>)
    requires rs != []
    requires var before := Run(c, NewGovernor(start, acted), rs[..|rs| - 1]);
             PressureTick(c, before, rs[|rs| - 1]).level == before.level + 1
    ensures |rs| >= Needed(c)
    ensures forall i :: |rs| - Needed(c) <= i < |rs| ==>
              PressureToLevel(rs[i].pressure) == Run(c, NewGovernor(start, acted), rs[..i]).level + 1
  {
    var g := NewGovernor(start, acted);
    var last := |rs| - 1;
    StreakCounts(c, start, acted, rs[..last]);
    StreakBound(c, g, rs);
    assert Streak(c, g, rs) >= Needed(c);
    forall i | |rs| - Needed(c) <= i < |rs|
      ensures PressureToLevel(rs[i].pressure) == Run(c, g, rs[..i]).level + 1
    {
      StreakMeans(c, g, rs, i);
    }
  }

  // ----- Spacing of actions -----

  datatype Action = Action(driven: bool, at: nat, from: nat, to: nat)

  function TickActions(c: Config, g: Governor, r: Reading): seq<Action> {
    var g1 := PressureTick(c, g, r);
    (if g1.level != g.level then [Action(true, r.now, g.level, g1.level)] else [])
    + (if ProfitCut(g1, r) then [Action(false, r.now, g1.level, g1.level - 1)] else [])
  }

  /** Every profile application of a run, pressure-driven or profit cut, in order. */
  function Actions(c: Config, g: Governor, rs: seq<Reading>): seq<Action> {
    if rs == [] then [] else
    Actions(c, g, rs[..|rs| - 1]) + TickActions(c, Run(c, g, rs[..|rs| - 1]), rs[|rs| - 1])
  }

  /** The readings' clock never runs backwards. */
  ghost predicate Monotone(start: nat, rs: seq<Reading>) {
    && (forall i :: 0 <= i < |rs| ==> start <= rs[i].now)
    && (forall i, j :: 0 <= i < j < |rs| ==> rs[i].now <= rs[j].now)
  }

  /** A pressure-driven action comes a stabilization window after every earlier action. */
  ghost predicate Spaced(c: Config, log: seq<Action>) {
    forall i, j :: 0 <= i < j < |log| && log[j].driven ==> log[i].at + c.stabilizationSecs * SECOND <= log[j].at
  }

  /** A profit cut lowers the level by one and never below one. */
  ghost predicate CutsByOne(log: seq<Action>) {
    forall i :: 0 <= i < |log| && !log[i].driven ==> log[i].to + 1 == log[i].from && log[i].to >= 1
  }

  /** The governor's timestamp bounds the log. */
  ghost predicate Stamped(g: Governor, log: seq<Action>, clock: nat) {
    && g.lastAction <= clock && forall i :: 0 <= i < |log| ==> log[i].at <= g.lastAction
  }

  lemma AppendDriven(c: Config, log: seq<Action>, a: Action)
    requires Spaced(c, log) && CutsByOne(log)
    requires a.driven ==> forall i :: 0 <= i < |log| ==> log[i].at + c.stabilizationSecs * SECOND <= a.at
    requires !a.driven ==> a.to + 1 == a.from && a.to >= 1
    ensures Spaced(c, log + [a]) && CutsByOne(log + [a])
  {
  }

  lemma TickSpaced(c: Config, g: Governor, r: Reading, log: seq<Action>, clock: nat)
    requires Spaced(c, log) && CutsByOne(log) && Stamped(g, log, clock) && clock <= r.now
    ensures var all := log + TickActions(c, g, r);
            Spaced(c, all) && CutsByOne(all) && Stamped(Tick(c, g, r), all, r.now)
  {
    var g1 := PressureTick(c, g, r);
    var mid := log;
    if g1.level != g.level {
      var a := Action(true, r.now, g.level, g1.level);
      AppendDriven(c, log, a);
      mid := log + [a];
    }
    assert Stamped(g1, mid, r.now);
    if ProfitCut(g1, r) {
      var b := Action(false, r.now, g1.level, g1.level - 1);
      AppendDriven(c, mid, b);
      assert mid + [b] == log + TickActions(c, g, r);
    } else {
      assert mid == log + TickActions(c, g, r);
    }
  }

  function Clock(start: nat, rs: seq<Reading>): nat {
    if rs == [] then start else rs[|rs| - 1].now
  }

  /** In every run a pressure-driven application keeps the stabilization distance from all
      earlier ones; anything closer is a profit cut by exactly one, never below one. */
  lemma {:induction false} ActionSpacing(c: Config, start: nat, acted: nat, rs: seq<Reading>)
    requires Monotone(start, rs) && acted <= start
    ensures var log := Actions(c, NewGovernor(start, acted), rs);
            Spaced(c, log) && CutsByOne(log) && Stamped(Run(c, NewGovernor(start, acted), rs), log, Clock(start, rs))
  {
    if rs != [] {
      var init := rs[..|rs| - 1];
      ActionSpacing(c, start, acted, init);
      TickSpaced(c, Run(c, NewGovernor(start, acted), init), rs[|rs| - 1], Actions(c, NewGovernor(start, acted), init),
                 Clock(start, init));
    }
  }

  // ----- Registers -----

  function RunRegisters(c: Config, kernel: Kernel, dryRun: bool, start: nat, acted: nat, regs: Registers,
                        rs: seq<Reading>): Registers
  {
    if rs == [] then Startup(kernel, regs, dryRun, c.useAdvisor) else
    var before := Run(c, NewGovernor(start, acted), rs[..|rs| - 1]);
    if before.level > TOP_LEVEL then regs else
    TickRegisters(c, kernel, dryRun, before,
                  RunRegisters(c, kernel, dryRun, start, acted, regs, rs[..|rs| - 1]), rs[|rs| - 1])
  }

  /** The kernel takes the numbers the governor can send; in manual mode it may still refuse
      `pages_to_scan` under scan-time. */
  ghost predicate AcceptsGovernor(kernel: Kernel, useAdvisor: bool) {
    && TakesNumbers(kernel, "sleep_millisecs") && TakesNumbers(kernel, "max_page_sharing") && TakesNumbers(kernel, "run")
    && (!useAdvisor ==> TakesPages(kernel))
  }

  lemma StrictKernelAccepts(useAdvisor: bool)
    ensures AcceptsGovernor(StrictKernel(), useAdvisor)
  {
    StrictKernelObliges("none");
  }

  /** In manual mode the scan-time advisor must not be active. */
  ghost predicate AdvisorSuits(regs: Registers, useAdvisor: bool) {
    !useAdvisor ==> !UnderScanTime(regs)
  }

  /** The registers show a profile, clamping notwithstanding. */
  ghost predicate Shows(regs: Registers, level: nat, useAdvisor: bool)
    requires level <= TOP_LEVEL
  {
    && "sleep_millisecs" in regs && regs["sleep_millisecs"] == Number(PROFILES[level].sleepMillisecs)
    && "max_page_sharing" in regs && regs["max_page_sharing"] == Number(PROFILES[level].maxPageSharing)
    && (level > 0 ==> "run" in regs && regs["run"] == Number(1))
    && (!useAdvisor ==>
          && "pages_to_scan" in regs && regs["pages_to_scan"] == Number(PROFILES[level].pagesToScan)
          && "run" in regs && regs["run"] == Number(PROFILES[level].run))
  }

  /** Clamping leaves every profile value alone. */
  lemma ProfilesInRange(level: nat)
    requires level <= TOP_LEVEL
    ensures var p := PROFILES[level];
            && InRange("run", p.run) && InRange("sleep_millisecs", p.sleepMillisecs)
            && InRange("max_page_sharing", p.maxPageSharing) && InRange("pages_to_scan", p.pagesToScan)
  {
    ClampByTable(0, PROFILES[level].run);
    ClampByTable(1, PROFILES[level].pagesToScan);
    ClampByTable(2, PROFILES[level].sleepMillisecs);
    ClampByTable(3, PROFILES[level].maxPageSharing);
  }

  lemma ApplyShows(kernel: Kernel, regs: Registers, useAdvisor: bool, level: nat)
    requires AcceptsGovernor(kernel, useAdvisor) && AdvisorSuits(regs, useAdvisor) && level <= TOP_LEVEL
    ensures Shows(ApplyProfile(kernel, regs, false, useAdvisor, level), level, useAdvisor)
  {
    hide Clamp, TakesNumbers, TakesPages;
    ProfilesInRange(level);
    var p := PROFILES[level];
    var r0 := regs;
    if p.run == 0 && !useAdvisor {
      Accepted(kernel, regs, "run", 0);
      r0 := regs["run" := Number(0)];
    }
    Accepted(kernel, r0, "sleep_millisecs", p.sleepMillisecs);
    var r1 := r0["sleep_millisecs" := Number(p.sleepMillisecs)];
    Accepted(kernel, r1, "max_page_sharing", p.maxPageSharing);
    var r2 := r1["max_page_sharing" := Number(p.maxPageSharing)];
    var r3 := r2;
    if !useAdvisor {
      assert !UnderScanTime(r2);
      Accepted(kernel, r2, "pages_to_scan", p.pagesToScan);
      r3 := r2["pages_to_scan" := Number(p.pagesToScan)];
    }
    Accepted(kernel, r3, "run", 1);
  }

  /** No profile write touches the advisor mode. */
  lemma ApplySuits(kernel: Kernel, regs: Registers, dryRun: bool, useAdvisor: bool, level: nat)
    requires AdvisorSuits(regs, useAdvisor) && level <= TOP_LEVEL
    ensures AdvisorSuits(ApplyProfile(kernel, regs, dryRun, useAdvisor, level), useAdvisor)
  {
    hide Clamp;
  }

  /** In advisor mode the governor leaves `pages_to_scan` to the kernel and never stops it. */
  ghost predicate LeavesAdvisor(before: Registers, after: Registers) {
    && ("pages_to_scan" in after <==> "pages_to_scan" in before)
    && ("pages_to_scan" in after ==> after["pages_to_scan"] == before["pages_to_scan"])
    && ("run" in after ==> after["run"] == Number(1) || ("run" in before && after["run"] == before["run"]))
  }

  lemma AdvisorApply(kernel: Kernel, before: Registers, regs: Registers, dryRun: bool, level: nat)
    requires level <= TOP_LEVEL && LeavesAdvisor(before, regs)
    ensures LeavesAdvisor(before, ApplyProfile(kernel, regs, dryRun, true, level))
  {
    hide Clamp;
    ProfilesInRange(1);
  }

  lemma RegistersStep(c: Config, kernel: Kernel, dryRun: bool, start: nat, acted: nat, regs: Registers, rs: seq<Reading>)
    requires rs != []
    ensures var before := Run(c, NewGovernor(start, acted), rs[..|rs| - 1]);
            before.level <= TOP_LEVEL
            && RunRegisters(c, kernel, dryRun, start, acted, regs, rs) ==
                 TickRegisters(c, kernel, dryRun, before,
                               RunRegisters(c, kernel, dryRun, start, acted, regs, rs[..|rs| - 1]), rs[|rs| - 1])
  {
    RunSteady(c, start, acted, rs[..|rs| - 1]);
  }

  /** Whatever the kernel accepts, in advisor mode no run ever writes `pages_to_scan`, nor
      writes anything but 1 to `run`. */
  lemma {:induction false} AdvisorKeepsScanRate(c: Config, kernel: Kernel, dryRun: bool, start: nat, acted: nat,
                                                regs: Registers, rs: seq<Reading>)
    requires c.useAdvisor
    ensures LeavesAdvisor(regs, RunRegisters(c, kernel, dryRun, start, acted, regs, rs))
  {
    hide ApplyProfile, Clamp;
    if rs == [] {
      ClampByTable(0, 1);
    } else {
      var init := rs[..|rs| - 1];
      AdvisorKeepsScanRate(c, kernel, dryRun, start, acted, regs, init);
      RegistersStep(c, kernel, dryRun, start, acted, regs, rs);
      AdvisorTick(c, kernel, dryRun, Run(c, NewGovernor(start, acted), init), regs,
                  RunRegisters(c, kernel, dryRun, start, acted, regs, init), rs[|rs| - 1]);
    }
  }

  lemma AdvisorTick(c: Config, kernel: Kernel, dryRun: bool, g: Governor, before: Registers, regs: Registers, r: Reading)
    requires c.useAdvisor && g.level <= TOP_LEVEL && LeavesAdvisor(before, regs)
    ensures LeavesAdvisor(before, TickRegisters(c, kernel, dryRun, g, regs, r))
  {
    hide ApplyProfile, LeavesAdvisor;
    var (g1, level) := ComputeTransition(c, g, PressureToLevel(r.pressure), r.now);
    if level != g1.level && MayAct(c, g1, r.now) { AdvisorApply(kernel, before, regs, dryRun, level); }
    var mid := if level != g1.level && MayAct(c, g1, r.now) then ApplyProfile(kernel, regs, dryRun, true, level) else regs;
    var g2 := PressureTick(c, g, r);
    if ProfitCut(g2, r) { AdvisorApply(kernel, before, mid, dryRun, g2.level - 1); }
  }

  lemma TickShows(c: Config, kernel: Kernel, g: Governor, regs: Registers, r: Reading)
    requires AcceptsGovernor(kernel, c.useAdvisor) && AdvisorSuits(regs, c.useAdvisor) && Steady(c, g)
    ensures AdvisorSuits(TickRegisters(c, kernel, false, g, regs, r), c.useAdvisor)
    ensures TickActions(c, g, r) != [] ==> Shows(TickRegisters(c, kernel, false, g, regs, r), Tick(c, g, r).level, c.useAdvisor)
    ensures TickActions(c, g, r) == [] ==> TickRegisters(c, kernel, false, g, regs, r) == regs && Tick(c, g, r).level == g.level
  {
    hide ApplyProfile, Shows, AcceptsGovernor, AdvisorSuits;
    var (g1, level) := ComputeTransition(c, g, PressureToLevel(r.pressure), r.now);
    var acts := level != g1.level && MayAct(c, g1, r.now);
    if acts {
      ApplyShows(kernel, regs, c.useAdvisor, level);
      ApplySuits(kernel, regs, false, c.useAdvisor, level);
    }
    var mid := if acts then ApplyProfile(kernel, regs, false, c.useAdvisor, level) else regs;
    var g2 := PressureTick(c, g, r);
    if ProfitCut(g2, r) {
      ApplyShows(kernel, mid, c.useAdvisor, g2.level - 1);
      ApplySuits(kernel, mid, false, c.useAdvisor, g2.level - 1);
    }
  }

  lemma StartupSuits(c: Config, kernel: Kernel, regs: Registers)
    requires AdvisorSuits(regs, c.useAdvisor)
    ensures AdvisorSuits(Startup(kernel, regs, false, c.useAdvisor), c.useAdvisor)
  {
    hide Clamp;
  }

  /** If the kernel takes the governor's numbers then, from the first application on, the
      registers show the profile of the current level, unclamped; in manual mode the run
      must start outside scan-time, and stays there. */
  lemma {:induction false} RegistersFollowLevel(c: Config, kernel: Kernel, start: nat, acted: nat, regs: Registers,
                                                rs: seq<Reading>)
    requires AcceptsGovernor(kernel, c.useAdvisor) && AdvisorSuits(regs, c.useAdvisor)
    ensures var g := Run(c, NewGovernor(start, acted), rs);
            var now := RunRegisters(c, kernel, false, start, acted, regs, rs);
            && g.level <= TOP_LEVEL && AdvisorSuits(now, c.useAdvisor)
            && (Actions(c, NewGovernor(start, acted), rs) != [] ==> Shows(now, g.level, c.useAdvisor))
  {
    hide AcceptsGovernor, AdvisorSuits, Shows, TickActions, TickRegisters;
    RunSteady(c, start, acted, rs);
    if rs == [] {
      StartupSuits(c, kernel, regs);
    } else {
      var init := rs[..|rs| - 1];
      var before := Run(c, NewGovernor(start, acted), init);
      RunSteady(c, start, acted, init);
      RegistersStep(c, kernel, false, start, acted, regs, rs);
      RegistersFollowLevel(c, kernel, start, acted, regs, init);
      TickShows(c, kernel, before, RunRegisters(c, kernel, false, start, acted, regs, init), rs[|rs| - 1]);
    }
  }

  // ----- Dry runs -----

  lemma DryApply(kernel: Kernel, regs: Registers, useAdvisor: bool, level: nat)
    requires level <= TOP_LEVEL
    ensures ApplyProfile(kernel, regs, true, useAdvisor, level) == regs
  {
    hide Clamp;
  }

  lemma DryStartup(kernel: Kernel, regs: Registers, useAdvisor: bool)
    ensures Startup(kernel, regs, true, useAdvisor) == regs
  {
    hide Clamp;
  }

  lemma DryTick(c: Config, kernel: Kernel, g: Governor, regs: Registers, r: Reading)
    requires g.level <= TOP_LEVEL
    ensures TickRegisters(c, kernel, true, g, regs, r) == regs
  {
    hide ApplyProfile;
    forall level: nat | level <= TOP_LEVEL
      ensures ApplyProfile(kernel, regs, true, c.useAdvisor, level) == regs
    {
      DryApply(kernel, regs, c.useAdvisor, level);
    }
  }

  /** In a dry run no governor run, start-up included, writes a register. */
  lemma {:induction false} DryRunWritesNothing(c: Config, kernel: Kernel, start: nat, acted: nat, regs: Registers,
                                               rs: seq<Reading>)
    ensures RunRegisters(c, kernel, true, start, acted, regs, rs) == regs
  {
    hide Startup, TickRegisters;
    if rs == [] {
      DryStartup(kernel, regs, c.useAdvisor);
    } else {
      DryRunWritesNothing(c, kernel, start, acted, regs, rs[..|rs| - 1]);
      RegistersStep(c, kernel, true, start, acted, regs, rs);
      DryTick(c, kernel, Run(c, NewGovernor(start, acted), rs[..|rs| - 1]), regs, rs[|rs| - 1]);
    }
  }

  // ----- Restoring after a run -----

  lemma ApplyTouches(kernel: Kernel, regs: Registers, dryRun: bool, useAdvisor: bool, level: nat)
    requires level <= TOP_LEVEL
    ensures AgreeElsewhere(regs, ApplyProfile(kernel, regs, dryRun, useAdvisor, level))
  {
    hide Clamp;
  }

  lemma AgreeTrans(a: Registers, b: Registers, c: Registers)
    requires AgreeElsewhere(a, b) && AgreeElsewhere(b, c)
    ensures AgreeElsewhere(a, c)
  {
    forall p | p !in RESTORED
      ensures p in a <==> p in c
      ensures p in a ==> a[p] == c[p]
    {
      assert p in a <==> p in b;
    }
  }

  lemma TickTouches(c: Config, kernel: Kernel, dryRun: bool, g: Governor, regs: Registers, r: Reading)
    requires g.level <= TOP_LEVEL
    ensures AgreeElsewhere(regs, TickRegisters(c, kernel, dryRun, g, regs, r))
  {
    hide ApplyProfile;
    var (g1, level) := ComputeTransition(c, g, PressureToLevel(r.pressure), r.now);
    var acts := level != g1.level && MayAct(c, g1, r.now);
    if acts { ApplyTouches(kernel, regs, dryRun, c.useAdvisor, level); }
    var mid := if acts then ApplyProfile(kernel, regs, dryRun, c.useAdvisor, level) else regs;
    var g2 := PressureTick(c, g, r);
    if ProfitCut(g2, r) {
      ApplyTouches(kernel, mid, dryRun, c.useAdvisor, g2.level - 1);
      AgreeTrans(regs, mid, TickRegisters(c, kernel, dryRun, g, regs, r));
    }
  }

  lemma {:induction false} RunTouches(c: Config, kernel: Kernel, dryRun: bool, start: nat, acted: nat, regs: Registers,
                                      rs: seq<Reading>)
    ensures AgreeElsewhere(regs, RunRegisters(c, kernel, dryRun, start, acted, regs, rs))
  {
    hide AgreeElsewhere, TickRegisters;
    if rs == [] {
      StartupTouches(c, kernel, dryRun, regs);
    } else {
      var init := rs[..|rs| - 1];
      RunTouches(c, kernel, dryRun, start, acted, regs, init);
      RegistersStep(c, kernel, dryRun, start, acted, regs, rs);
      var mid := RunRegisters(c, kernel, dryRun, start, acted, regs, init);
      TickTouches(c, kernel, dryRun, Run(c, NewGovernor(start, acted), init), mid, rs[|rs| - 1]);
      AgreeTrans(regs, mid, RunRegisters(c, kernel, dryRun, start, acted, regs, rs));
    }
  }

  lemma StartupTouches(c: Config, kernel: Kernel, dryRun: bool, regs: Registers)
    ensures AgreeElsewhere(regs, Startup(kernel, regs, dryRun, c.useAdvisor))
  {
    hide Clamp;
  }

  /** After any governor run the snapshot taken before it restores: no write is refused,
      and the register file is back exactly when the snapshot's values are in range. */
  lemma RestoreUndoesRun(c: Config, kernel: Kernel, start: nat, acted: nat, regs: Registers, rs: seq<Reading>)
    requires Complete(regs) && Obliging(kernel, regs["advisor_mode"].s)
    ensures ReadConfig(regs).Some?
    ensures var now := RunRegisters(c, kernel, false, start, acted, regs, rs);
            var (after, ok) := Restore(kernel, now, false, ReadConfig(regs).value);
            ok && (after == regs <==> RestoredInRange(regs))
  {
    hide Restore, RunRegisters, RestoredInRange, Clamped, ReadConfig;
    RunTouches(c, kernel, false, start, acted, regs, rs);
    RestoreBringsBack(kernel, regs, RunRegisters(c, kernel, false, start, acted, regs, rs));
  }
}
