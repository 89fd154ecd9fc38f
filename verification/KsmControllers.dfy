/** The KSM controller as an object: a register file changed write by write
    (crates/common/src/ksm.rs). */
module KsmControllers {
  import opened Fingerprints
  import opened Ksm

  class KsmController {
    const kernel: Kernel
    var registers: Registers
    /** Settled between construction and the first write. */
    const dryRun: bool
    /** The snapshot file, if one was saved. */
    var saved: Option<KsmConfig>

    constructor (kernel: Kernel, registers: Registers, dryRun: bool)
      ensures this.kernel == kernel && this.registers == registers && this.dryRun == dryRun && saved == None
    {
      this.kernel := kernel;
      this.registers := registers;
      this.dryRun := dryRun;
      saved := None;
    }

    method ClampValue(param: string, value: nat) returns (clamped: nat)
      ensures clamped == Clamp(param, value)
      ensures forall i :: 0 <= i < |PARAM_RANGES| && PARAM_RANGES[i].param == param ==>
                PARAM_RANGES[i].min <= clamped <= PARAM_RANGES[i].max
      ensures (forall i :: 0 <= i < |PARAM_RANGES| ==> PARAM_RANGES[i].param != param) ==> clamped == value
    {
      hide PARAM_RANGES;
      ghost var all := PARAM_RANGES;
      for i := 0 to |PARAM_RANGES|
        invariant forall j :: 0 <= j < i ==> PARAM_RANGES[j].param != param
        invariant Clamp(param, value) == ClampIn(PARAM_RANGES[i..], param, value)
      {
        assert PARAM_RANGES[i..][0] == PARAM_RANGES[i] && PARAM_RANGES[i..][1..] == PARAM_RANGES[i + 1..];
        if PARAM_RANGES[i].param == param {
          clamped := if value < PARAM_RANGES[i].min then PARAM_RANGES[i].min
                     else if value > PARAM_RANGES[i].max then PARAM_RANGES[i].max else value;
          ByTable(i, value);
          return;
        }
      }
      clamped := value;
    }

    method WriteSetting(param: string, value: Setting) returns (ok: bool)
      modifies this`registers
      ensures (registers, ok) == WriteParam(kernel, old(registers), dryRun, param, value)
      ensures dryRun ==> ok && registers == old(registers)
    {
      if dryRun {
        return true;
      }
      ok := kernel(registers, param, value);
      if ok {
        registers := registers[param := value];
      }
    }

    method WriteValidated(param: string, value: nat) returns (ok: bool)
      modifies this`registers
      ensures (registers, ok) == WriteNumber(kernel, old(registers), dryRun, param, value)
      ensures dryRun ==> ok && registers == old(registers)
    {
      var clamped := ClampValue(param, value);
      ok := WriteSetting(param, Number(clamped));
    }

    method SetAdvisorMode(mode: string) returns (ok: bool)
      modifies this`registers
      ensures (registers, ok) == WriteMode(kernel, old(registers), dryRun, mode)
      ensures dryRun ==> ok && registers == old(registers)
    {
      ok := WriteSetting("advisor_mode", Text(mode));
    }

    /** Fails, and keeps an earlier snapshot, when a core parameter cannot be read. */
    method Snapshot() returns (ok: bool)
      modifies this`saved
      ensures ok == ReadConfig(registers).Some?
      ensures saved == if ok then ReadConfig(registers) else old(saved)
    {
      var config := ReadConfig(registers);
      ok := config.Some?;
      if ok {
        saved := config;
      }
    }

    /** Without a snapshot nothing is written and the call succeeds. */
    method RestoreSaved() returns (ok: bool)
      modifies this`registers
      ensures old(saved) == None ==> ok && registers == old(registers)
      ensures old(saved).Some? ==> (registers, ok) == Restore(kernel, old(registers), dryRun, old(saved).value)
      ensures dryRun ==> ok && registers == old(registers)
    {
      hide Clamp, WriteNumber, WriteMode;
      if saved == None {
        return true;
      }
      var c := saved.value;
      if c.advisorMode != "scan-time" {
        var _ := SetAdvisorMode(c.advisorMode);
      } else {
        var _ := SetAdvisorMode("none");
      }
      ok := WriteValidated("run", c.run);
      if !ok { return; }
      ok := WriteValidated("pages_to_scan", c.pagesToScan);
      if !ok { return; }
      ok := WriteValidated("sleep_millisecs", c.sleepMillisecs);
      if !ok { return; }
      ok := WriteValidated("max_page_sharing", c.maxPageSharing);
      if !ok { return; }
      var _ := SetAdvisorMode(c.advisorMode);
      var _ := WriteValidated("advisor_target_scan_time", c.advisorTargetScanTime);
      var _ := WriteValidated("advisor_max_cpu", c.advisorMaxCpu);
    }
  }

  lemma ByTable(i: nat, value: nat)
    requires i < |PARAM_RANGES|
    ensures forall j :: 0 <= j < |PARAM_RANGES| && PARAM_RANGES[j].param == PARAM_RANGES[i].param ==> j == i
    ensures PARAM_RANGES[i].min <= PARAM_RANGES[i].max
  {
    NamesDiffer();
  }
}
