/** The governor as an object that changes its level, counters and timestamps tick by tick
    and drives the KSM controller (crates/daemon/src/governor.rs). */
module Governors {
  import opened Fingerprints
  import opened Ksm
  import opened KsmControllers
  import opened GovernorMachine
  import opened GovernorRuns

  class Governor {
    const config: Config
    const ksm: KsmController
    var currentLevel: nat
    var hysteresisCount: nat
    var rampUpCount: nat
    var levelEnteredAt: nat
    var fullScansAtLevel: nat
    /** The shared state's timestamp of the governor's last action. */
    var lastGovernorAction: nat

    ghost function View(): GovernorMachine.Governor
      reads this
    {
      GovernorMachine.Governor(currentLevel, hysteresisCount, rampUpCount, levelEnteredAt, fullScansAtLevel,
                               lastGovernorAction)
    }

    constructor (config: Config, ksm: KsmController, now: nat, acted: nat)
      ensures this.config == config && this.ksm == ksm && View() == NewGovernor(now, acted)
    {
      this.config := config;
      this.ksm := ksm;
      currentLevel := 0;
      hysteresisCount := 0;
      rampUpCount := 0;
      levelEnteredAt := now;
      fullScansAtLevel := 0;
      lastGovernorAction := acted;
    }

    method EnableOnStart()
      modifies ksm`registers
      ensures ksm.registers == Startup(ksm.kernel, old(ksm.registers), ksm.dryRun, config.useAdvisor)
      ensures ksm.dryRun ==> ksm.registers == old(ksm.registers)
    {
      if config.useAdvisor {
        var _ := ksm.SetAdvisorMode("scan-time");
      }
      var _ := ksm.WriteValidated("run", 1);
    }

    method Transition(target: nat, now: nat) returns (level: nat)
      modifies this`hysteresisCount, this`rampUpCount, this`levelEnteredAt, this`fullScansAtLevel
      ensures (View(), level) == ComputeTransition(config, old(View()), target, now)
    {
      if target > currentLevel {
        if target >= currentLevel + 2 {
          hysteresisCount := 0;
          rampUpCount := 0;
          levelEnteredAt := now;
          fullScansAtLevel := 0;
          return target;
        }
        rampUpCount := rampUpCount + 1;
        hysteresisCount := 0;
        if rampUpCount >= config.hysteresisReadings {
          rampUpCount := 0;
          levelEnteredAt := now;
          fullScansAtLevel := 0;
          return target;
        }
        return currentLevel;
      } else if target < currentLevel {
        rampUpCount := 0;
        if Elapsed(now, levelEnteredAt) < config.minLevelSecs * SECOND {
          return currentLevel;
        }
        hysteresisCount := hysteresisCount + 1;
        if hysteresisCount >= config.hysteresisReadings {
          hysteresisCount := 0;
          levelEnteredAt := now;
          fullScansAtLevel := 0;
          return currentLevel - 1;
        }
        return currentLevel;
      }
      hysteresisCount := 0;
      rampUpCount := 0;
      return currentLevel;
    }

    method Apply(level: nat, now: nat)
      requires level <= TOP_LEVEL
      modifies this`currentLevel, this`lastGovernorAction, ksm`registers
      ensures View() == Enter(old(View()), level, now)
      ensures ksm.registers == ApplyProfile(ksm.kernel, old(ksm.registers), ksm.dryRun, config.useAdvisor, level)
      ensures ksm.dryRun ==> ksm.registers == old(ksm.registers)
    {
      hide WriteNumber;
      var profile := PROFILES[level];
      if profile.run == 0 && !config.useAdvisor {
        var _ := ksm.WriteValidated("run", 0);
      }
      var _ := ksm.WriteValidated("sleep_millisecs", profile.sleepMillisecs);
      var _ := ksm.WriteValidated("max_page_sharing", profile.maxPageSharing);
      if !config.useAdvisor {
        var _ := ksm.WriteValidated("pages_to_scan", profile.pagesToScan);
      }
      if profile.run != 0 {
        var _ := ksm.WriteValidated("run", 1);
      }
      currentLevel := level;
      lastGovernorAction := now;
    }

    /** One tick, from any level the profiles cover; the level stays among them. */
    method TickWithReadings(r: Reading)
      requires currentLevel <= TOP_LEVEL
      modifies this, ksm`registers
      ensures currentLevel <= TOP_LEVEL && View() == Tick(config, old(View()), r)
      ensures ksm.registers ==
              TickRegisters(config, ksm.kernel, ksm.dryRun, old(View()), old(ksm.registers), r)
      ensures ksm.dryRun ==> ksm.registers == old(ksm.registers)
    {
      hide ApplyProfile;
      var level := Transition(PressureToLevel(r.pressure), r.now);
      if level != currentLevel && Elapsed(r.now, lastGovernorAction) >= config.stabilizationSecs * SECOND {
        Apply(level, r.now);
      }
      if currentLevel > 0 && r.profit < 0 && r.fullScans > fullScansAtLevel + 10 {
        if currentLevel > 1 {
          Apply(currentLevel - 1, r.now);
        }
      }
    }

    /** The daemon's loop over a finite series of readings is the run of the state machine. */
    method Loop(rs: seq<Reading>)
      requires currentLevel <= TOP_LEVEL && exists start, acted :: View() == NewGovernor(start, acted)
      modifies this, ksm`registers
      ensures forall start, acted :: old(View()) == NewGovernor(start, acted) ==>
                View() == Run(config, NewGovernor(start, acted), rs)
                && ksm.registers ==
                     RunRegisters(config, ksm.kernel, ksm.dryRun, start, acted, old(ksm.registers), rs)
      ensures ksm.dryRun ==> ksm.registers == old(ksm.registers)
    {
      hide Tick, TickRegisters;
      ghost var start, acted := levelEnteredAt, lastGovernorAction;
      ghost var before := ksm.registers;
      EnableOnStart();
      for i := 0 to |rs|
        invariant currentLevel <= TOP_LEVEL && View() == Run(config, NewGovernor(start, acted), rs[..i])
        invariant ksm.dryRun ==> ksm.registers == before
        invariant ksm.registers == RunRegisters(config, ksm.kernel, ksm.dryRun, start, acted, before, rs[..i])
      {
        TickWithReadings(rs[i]);
        assert rs[..i + 1][..i] == rs[..i];
      }
      assert rs[..|rs|] == rs;
    }
  }
}
