/** The governor of crates/daemon/src/governor.rs: pressure levels with hysteresis,
    cooldown, stabilization and a profit cut, writing profiles to the KSM registers.
    Time is an explicit clock in nanoseconds, one reading per tick. */
module GovernorMachine {
  import opened Fingerprints
  import opened Ksm

  const SECOND: nat := 1_000_000_000

  datatype Pressure = PressureIdle | PressureLow | PressureMedium | PressureHigh | PressureCritical

  datatype Profile = Profile(level: nat, run: nat, maxPageSharing: nat, sleepMillisecs: nat, pagesToScan: nat)

  const PROFILES: seq<Profile> := [
    Profile(0, 0, 256, 500, 100),
    Profile(1, 1, 256, 100, 500),
    Profile(2, 1, 384, 50, 2000),
    Profile(3, 1, 512, 20, 5000),
    Profile(4, 1, 768, 10, 15000),
    Profile(5, 1, 1024, 5, 30000)
  ]

  const TOP_LEVEL: nat := 5

  datatype Config = Config(useAdvisor: bool, hysteresisReadings: nat, minLevelSecs: nat, stabilizationSecs: nat)

  datatype Reading = Reading(pressure: Pressure, profit: int, fullScans: nat, now: nat)

  /** `lastAction` is the shared timestamp of the governor's last profile write. */
  datatype Governor = Governor(
    level: nat, hysteresis: nat, rampUp: nat, enteredAt: nat, fullScansAtLevel: nat, lastAction: nat)

  /** Created at `now`; the shared timestamp was set when that state was created. */
  function NewGovernor(now: nat, acted: nat): Governor {
    Governor(0, 0, 0, now, 0, acted)
  }

  /** `Instant::elapsed`, which saturates at zero. */
  function Elapsed(now: nat, since: nat): nat {
    if now < since then 0 else now - since
  }

  function PressureToLevel(p: Pressure): (level: nat)
    ensures 1 <= level <= TOP_LEVEL
  {
    match p
    case PressureIdle => 1
    case PressureLow => 1
    case PressureMedium => 3
    case PressureHigh => 4
    case PressureCritical => 5
  }

  /** The level that hysteresis and cooldown allow, and the counters they leave. */
  function ComputeTransition(c: Config, g: Governor, target: nat, now: nat): (Governor, nat) {
    if target > g.level then
      if target >= g.level + 2 then
        (g.(hysteresis := 0, rampUp := 0, enteredAt := now, fullScansAtLevel := 0), target)
      else if g.rampUp + 1 >= c.hysteresisReadings then
        (g.(rampUp := 0, hysteresis := 0, enteredAt := now, fullScansAtLevel := 0), target)
      else
        (g.(rampUp := g.rampUp + 1, hysteresis := 0), g.level)
    else if target < g.level then
      if Elapsed(now, g.enteredAt) < c.minLevelSecs * SECOND then (g.(rampUp := 0), g.level)
      else if g.hysteresis + 1 >= c.hysteresisReadings then
        (g.(rampUp := 0, hysteresis := 0, enteredAt := now, fullScansAtLevel := 0), g.level - 1)
      else
        (g.(rampUp := 0, hysteresis := g.hysteresis + 1), g.level)
    else
      (g.(hysteresis := 0, rampUp := 0), g.level)
  }

  /** Records a profile change at `now`. */
  function Enter(g: Governor, level: nat, now: nat): Governor {
    g.(level := level, lastAction := now)
  }

  predicate MayAct(c: Config, g: Governor, now: nat) {
    Elapsed(now, g.lastAction) >= c.stabilizationSecs * SECOND
  }

  /** The pressure half of a tick. */
  function PressureTick(c: Config, g: Governor, r: Reading): Governor {
    var (g1, level) := ComputeTransition(c, g, PressureToLevel(r.pressure), r.now);
    if level != g1.level && MayAct(c, g1, r.now) then Enter(g1, level, r.now) else g1
  }

  predicate ProfitCut(g: Governor, r: Reading) {
    g.level > 1 && r.profit < 0 && r.fullScans > g.fullScansAtLevel + 10
  }

  function Tick(c: Config, g: Governor, r: Reading): Governor {
    var g1 := PressureTick(c, g, r);
    if ProfitCut(g1, r) then Enter(g1, g1.level - 1, r.now) else g1
  }

  function Run(c: Config, g: Governor, rs: seq<Reading>): Governor {
    if rs == [] then g else Tick(c, Run(c, g, rs[..|rs| - 1]), rs[|rs| - 1])
  }

  // ----- Register writes -----

  /** The writes of one profile, in order; refusals are ignored. */
  function ApplyProfile(kernel: Kernel, regs: Registers, dryRun: bool, useAdvisor: bool, level: nat): Registers
    requires level <= TOP_LEVEL
  {
    var p := PROFILES[level];
    var r0 := if p.run == 0 && !useAdvisor then WriteNumber(kernel, regs, dryRun, "run", 0).0 else regs;
    var r1 := WriteNumber(kernel, r0, dryRun, "sleep_millisecs", p.sleepMillisecs).0;
    var r2 := WriteNumber(kernel, r1, dryRun, "max_page_sharing", p.maxPageSharing).0;
    var r3 := if useAdvisor then r2 else WriteNumber(kernel, r2, dryRun, "pages_to_scan", p.pagesToScan).0;
    if p.run != 0 then WriteNumber(kernel, r3, dryRun, "run", 1).0 else r3
  }

  /** What the daemon's loop writes before its first tick. */
  function Startup(kernel: Kernel, regs: Registers, dryRun: bool, useAdvisor: bool): Registers {
    var r0 := if useAdvisor then WriteMode(kernel, regs, dryRun, "scan-time").0 else regs;
    WriteNumber(kernel, r0, dryRun, "run", 1).0
  }

  predicate LevelsInRange(g: Governor) {
    g.level <= TOP_LEVEL
  }

  /** The registers after one tick. */
  function TickRegisters(c: Config, kernel: Kernel, dryRun: bool, g: Governor, regs: Registers, r: Reading): Registers
    requires LevelsInRange(g)
  {
    var (g1, level) := ComputeTransition(c, g, PressureToLevel(r.pressure), r.now);
    var acts := level != g1.level && MayAct(c, g1, r.now);
    var r1 := if acts then ApplyProfile(kernel, regs, dryRun, c.useAdvisor, level) else regs;
    var g2 := PressureTick(c, g, r);
    if ProfitCut(g2, r) then ApplyProfile(kernel, r1, dryRun, c.useAdvisor, g2.level - 1) else r1
  }
}
