/** The KSM register file and its clamping controller (crates/common/src/ksm.rs).
    The kernel's side is a parameter: which writes it accepts in which state. */
module Ksm {
  import opened Fingerprints

  datatype Setting = Number(n: nat) | Text(s: string)

  type Registers = map<string, Setting>

  /** Whether the kernel accepts a write of a setting to a register. */
  type Kernel = (Registers, string, Setting) -> bool

  datatype Range = Range(param: string, min: nat, max: nat)

  const PARAM_RANGES: seq<Range> := [
    Range("run", 0, 2),
    Range("pages_to_scan", 100, 30000),
    Range("sleep_millisecs", 5, 10000),
    Range("max_page_sharing", 16, 4096),
    Range("advisor_target_scan_time", 10, 3600),
    Range("advisor_max_cpu", 10, 100),
    Range("advisor_min_pages_to_scan", 100, 5000),
    Range("advisor_max_pages_to_scan", 1000, 100000)
  ]

  function ClampTo(value: nat, min: nat, max: nat): nat {
    if value < min then min else if value > max then max else value
  }

  /** Searches the ranges in order; an unknown parameter passes through. */
  function ClampIn(ranges: seq<Range>, param: string, value: nat): nat {
    if ranges == [] then value
    else if ranges[0].param == param then ClampTo(value, ranges[0].min, ranges[0].max)
    else ClampIn(ranges[1..], param, value)
  }

  function Clamp(param: string, value: nat): nat {
    ClampIn(PARAM_RANGES, param, value)
  }

  function WriteParam(kernel: Kernel, regs: Registers, dryRun: bool, param: string, value: Setting): (Registers, bool) {
    if dryRun then (regs, true)
    else if kernel(regs, param, value) then (regs[param := value], true)
    else (regs, false)
  }

  function WriteNumber(kernel: Kernel, regs: Registers, dryRun: bool, param: string, value: nat): (Registers, bool) {
    WriteParam(kernel, regs, dryRun, param, Number(Clamp(param, value)))
  }

  function WriteMode(kernel: Kernel, regs: Registers, dryRun: bool, mode: string): (Registers, bool) {
    WriteParam(kernel, regs, dryRun, "advisor_mode", Text(mode))
  }

  /** A dry run accepts every write and makes none; otherwise the kernel decides, and a
      write it takes shows in its register and in no other. */
  lemma WriteEffect(kernel: Kernel, regs: Registers, dryRun: bool, param: string, value: Setting)
    ensures var (after, ok) := WriteParam(kernel, regs, dryRun, param, value);
            && (ok <==> dryRun || kernel(regs, param, value))
            && (dryRun || !ok ==> after == regs)
            && (!dryRun && ok ==> param in after && after[param] == value)
            && forall p :: p != param ==> (p in after <==> p in regs) && (p in after ==> after[p] == regs[p])
  {
  }

  // ----- Snapshot and restore -----

  datatype KsmConfig = KsmConfig(
    run: nat, pagesToScan: nat, sleepMillisecs: nat, maxPageSharing: nat, smartScan: nat, advisorMode: string,
    advisorTargetScanTime: nat, advisorMaxCpu: nat, advisorMinPages: nat, advisorMaxPages: nat)

  function NumberOr(regs: Registers, param: string, default: nat): nat {
    if param in regs && regs[param].Number? then regs[param].n else default
  }

  predicate HasNumber(regs: Registers, param: string) {
    param in regs && regs[param].Number?
  }

  /** Fails when one of the four core parameters cannot be read; the others have defaults. */
  function ReadConfig(regs: Registers): Option<KsmConfig> {
    if !HasNumber(regs, "run") || !HasNumber(regs, "pages_to_scan")
       || !HasNumber(regs, "sleep_millisecs") || !HasNumber(regs, "max_page_sharing") then None else
    Some(KsmConfig(
      regs["run"].n, regs["pages_to_scan"].n, regs["sleep_millisecs"].n, regs["max_page_sharing"].n,
      NumberOr(regs, "smart_scan", 1),
      if "advisor_mode" in regs && regs["advisor_mode"].Text? then regs["advisor_mode"].s else "",
      NumberOr(regs, "advisor_target_scan_time", 200), NumberOr(regs, "advisor_max_cpu", 70),
      NumberOr(regs, "advisor_min_pages_to_scan", 500), NumberOr(regs, "advisor_max_pages_to_scan", 30000)))
  }

  /** The mode that a restore sets before it writes `pages_to_scan`. */
  function FirstMode(mode: string): (first: string)
    ensures first != "scan-time"
  {
    if mode != "scan-time" then mode else "none"
  }

  /** The advisor is moved out of scan-time first, since the kernel refuses `pages_to_scan`
      while it is active; a refused core write ends the restore. */
  function Restore(kernel: Kernel, regs: Registers, dryRun: bool, c: KsmConfig): (Registers, bool) {
    var r0 := WriteMode(kernel, regs, dryRun, FirstMode(c.advisorMode)).0;
    var (r1, ok1) := WriteNumber(kernel, r0, dryRun, "run", c.run);
    if !ok1 then (r1, false) else
    var (r2, ok2) := WriteNumber(kernel, r1, dryRun, "pages_to_scan", c.pagesToScan);
    if !ok2 then (r2, false) else
    var (r3, ok3) := WriteNumber(kernel, r2, dryRun, "sleep_millisecs", c.sleepMillisecs);
    if !ok3 then (r3, false) else
    var (r4, ok4) := WriteNumber(kernel, r3, dryRun, "max_page_sharing", c.maxPageSharing);
    if !ok4 then (r4, false) else
    var r5 := WriteMode(kernel, r4, dryRun, c.advisorMode).0;
    var r6 := WriteNumber(kernel, r5, dryRun, "advisor_target_scan_time", c.advisorTargetScanTime).0;
    (WriteNumber(kernel, r6, dryRun, "advisor_max_cpu", c.advisorMaxCpu).0, true)
  }

  // ----- Clamping -----

  lemma {:induction false} ClampInMember(ranges: seq<Range>, i: nat, value: nat)
    requires i < |ranges| && forall j :: 0 <= j < i ==> ranges[j].param != ranges[i].param
    ensures ClampIn(ranges, ranges[i].param, value) == ClampTo(value, ranges[i].min, ranges[i].max)
  {
    if i > 0 {
      assert ranges[1..][i - 1] == ranges[i];
      ClampInMember(ranges[1..], i - 1, value);
    }
  }

  predicate InRange(param: string, value: nat) {
    Clamp(param, value) == value
  }

  /** Every table entry is in force for its own parameter. */
  lemma ClampByTable(i: nat, value: nat)
    requires i < |PARAM_RANGES|
    ensures Clamp(PARAM_RANGES[i].param, value) == ClampTo(value, PARAM_RANGES[i].min, PARAM_RANGES[i].max)
    ensures InRange(PARAM_RANGES[i].param, value) <==> PARAM_RANGES[i].min <= value <= PARAM_RANGES[i].max
  {
    NamesDiffer();
    ClampInMember(PARAM_RANGES, i, value);
  }

  /** Clamping takes the nearest value of the range. */
  lemma ClampNearest(i: nat, value: nat)
    requires i < |PARAM_RANGES|
    ensures var clamped := Clamp(PARAM_RANGES[i].param, value);
            && PARAM_RANGES[i].min <= clamped <= PARAM_RANGES[i].max
            && forall w: nat :: PARAM_RANGES[i].min <= w <= PARAM_RANGES[i].max ==>
                 Distance(clamped, value) <= Distance(w, value)
  {
    hide Clamp;
    ClampByTable(i, value);
  }

  function Distance(a: nat, b: nat): nat {
    if a < b then b - a else a - b
  }

  /** The table names each parameter once. */
  lemma NamesDiffer()
    ensures forall i, j :: 0 <= i < j < |PARAM_RANGES| ==> PARAM_RANGES[i].param != PARAM_RANGES[j].param
  {
    assert "run"[0] == 'r' && "pages_to_scan"[0] == 'p' && "sleep_millisecs"[0] == 's' && "max_page_sharing"[0] == 'm';
    assert "advisor_target_scan_time"[8] == 't' && |"advisor_max_cpu"| == 15;
    assert |"advisor_min_pages_to_scan"| == 25 && "advisor_min_pages_to_scan"[9] == 'i';
    assert |"advisor_max_pages_to_scan"| == 25 && "advisor_max_pages_to_scan"[9] == 'a';
  }

  /** The safe ranges. */
  lemma SafeRanges(v: nat)
    ensures InRange("run", v) <==> v <= 2
    ensures InRange("pages_to_scan", v) <==> 100 <= v <= 30000
    ensures InRange("sleep_millisecs", v) <==> 5 <= v <= 10000
    ensures InRange("max_page_sharing", v) <==> 16 <= v <= 4096
    ensures InRange("advisor_target_scan_time", v) <==> 10 <= v <= 3600
    ensures InRange("advisor_max_cpu", v) <==> 10 <= v <= 100
    ensures InRange("advisor_min_pages_to_scan", v) <==> 100 <= v <= 5000
    ensures InRange("advisor_max_pages_to_scan", v) <==> 1000 <= v <= 100000
  {
    hide InRange;
    forall i | 0 <= i < |PARAM_RANGES|
      ensures InRange(PARAM_RANGES[i].param, v) <==> PARAM_RANGES[i].min <= v <= PARAM_RANGES[i].max
    {
      ClampByTable(i, v);
    }
    assert PARAM_RANGES[0].param == "run" && PARAM_RANGES[1].param == "pages_to_scan";
    assert PARAM_RANGES[2].param == "sleep_millisecs" && PARAM_RANGES[3].param == "max_page_sharing";
    assert PARAM_RANGES[4].param == "advisor_target_scan_time" && PARAM_RANGES[5].param == "advisor_max_cpu";
    assert PARAM_RANGES[6].param == "advisor_min_pages_to_scan";
    assert PARAM_RANGES[7].param == "advisor_max_pages_to_scan";
  }

  // ----- Taking a snapshot -----

  /** A snapshot succeeds exactly when the four core parameters are readable, with or without
      the others, and holds what was read; a parameter that was not has a default in range. */
  lemma SnapshotReads(regs: Registers)
    ensures ReadConfig(regs).Some? <==>
              HasNumber(regs, "run") && HasNumber(regs, "pages_to_scan")
              && HasNumber(regs, "sleep_millisecs") && HasNumber(regs, "max_page_sharing")
    ensures ReadConfig(regs).Some? ==>
              var c := ReadConfig(regs).value;
              && regs["run"] == Number(c.run) && regs["pages_to_scan"] == Number(c.pagesToScan)
              && regs["sleep_millisecs"] == Number(c.sleepMillisecs) && regs["max_page_sharing"] == Number(c.maxPageSharing)
              && Holds(regs, "smart_scan", c.smartScan, 1)
              && Holds(regs, "advisor_target_scan_time", c.advisorTargetScanTime, 200)
              && Holds(regs, "advisor_max_cpu", c.advisorMaxCpu, 70)
              && Holds(regs, "advisor_min_pages_to_scan", c.advisorMinPages, 500)
              && Holds(regs, "advisor_max_pages_to_scan", c.advisorMaxPages, 30000)
              && (if "advisor_mode" in regs && regs["advisor_mode"].Text? then regs["advisor_mode"] == Text(c.advisorMode)
                  else c.advisorMode == "")
  {
    hide Clamp;
    ClampByTable(4, 200);
    ClampByTable(5, 70);
    ClampByTable(6, 500);
    ClampByTable(7, 30000);
    UnknownUnclamped(1);
  }

  /** What was read, or a default in range. */
  ghost predicate Holds(regs: Registers, param: string, value: nat, default: nat) {
    InRange(param, default) && if HasNumber(regs, param) then regs[param] == Number(value) else value == default
  }

  /** `smart_scan` has no range. */
  lemma UnknownUnclamped(value: nat)
    ensures InRange("smart_scan", value)
  {
    assert |"smart_scan"| == 10 && |"run"| == 3 && |"pages_to_scan"| == 13 && |"sleep_millisecs"| == 15;
    assert |"max_page_sharing"| == 16 && |"advisor_target_scan_time"| == 24 && |"advisor_max_cpu"| == 15;
    assert |"advisor_min_pages_to_scan"| == 25 && |"advisor_max_pages_to_scan"| == 25;
    NoneNamed(PARAM_RANGES, "smart_scan", value);
  }

  lemma {:induction false} NoneNamed(ranges: seq<Range>, param: string, value: nat)
    requires forall i :: 0 <= i < |ranges| ==> ranges[i].param != param
    ensures ClampIn(ranges, param, value) == value
  {
    if ranges != [] {
      NoneNamed(ranges[1..], param, value);
    }
  }

  // ----- Restoring -----

  predicate UnderScanTime(regs: Registers) {
    "advisor_mode" in regs && regs["advisor_mode"] == Text("scan-time")
  }

  /** A kernel that takes every number the controller can send to `param`: those in its safe
      range. What it does with other values is its own business. */
  ghost predicate TakesNumbers(kernel: Kernel, param: string) {
    forall regs, v :: kernel(regs, param, Number(Clamp(param, v)))
  }

  /** A kernel that takes such numbers for `pages_to_scan` unless it is under scan-time. */
  ghost predicate TakesPages(kernel: Kernel) {
    forall regs, v :: !UnderScanTime(regs) ==> kernel(regs, "pages_to_scan", Number(Clamp("pages_to_scan", v)))
  }

  ghost predicate TakesMode(kernel: Kernel, mode: string) {
    forall regs :: kernel(regs, "advisor_mode", Text(mode))
  }

  /** A kernel that takes such numbers for `param` while the advisor is in `mode`. */
  ghost predicate TakesUnder(kernel: Kernel, mode: string, param: string) {
    forall regs, v ::
      "advisor_mode" in regs && regs["advisor_mode"] == Text(mode) ==> kernel(regs, param, Number(Clamp(param, v)))
  }

  /** A kernel that takes what a restore to `mode` sends it, but no `pages_to_scan` under
      scan-time and perhaps no advisor number outside `mode`; it may validate its input. */
  ghost predicate Obliging(kernel: Kernel, mode: string) {
    && TakesMode(kernel, FirstMode(mode)) && TakesMode(kernel, mode) && TakesPages(kernel)
    && TakesNumbers(kernel, "run") && TakesNumbers(kernel, "sleep_millisecs") && TakesNumbers(kernel, "max_page_sharing")
    && TakesUnder(kernel, mode, "advisor_target_scan_time") && TakesUnder(kernel, mode, "advisor_max_cpu")
  }

  /** The registers a restore writes back. */
  ghost predicate Complete(regs: Registers) {
    && HasNumber(regs, "run") && HasNumber(regs, "pages_to_scan")
    && HasNumber(regs, "sleep_millisecs") && HasNumber(regs, "max_page_sharing")
    && "advisor_mode" in regs && regs["advisor_mode"].Text?
    && HasNumber(regs, "advisor_target_scan_time") && HasNumber(regs, "advisor_max_cpu")
  }

  ghost predicate RestoredInRange(regs: Registers)
    requires Complete(regs)
  {
    && InRange("run", regs["run"].n) && InRange("pages_to_scan", regs["pages_to_scan"].n)
    && InRange("sleep_millisecs", regs["sleep_millisecs"].n) && InRange("max_page_sharing", regs["max_page_sharing"].n)
    && InRange("advisor_target_scan_time", regs["advisor_target_scan_time"].n)
    && InRange("advisor_max_cpu", regs["advisor_max_cpu"].n)
  }

  /** The parameters that a restore writes. */
  const RESTORED: set<string> := {"run", "pages_to_scan", "sleep_millisecs", "max_page_sharing",
                                  "advisor_mode", "advisor_target_scan_time", "advisor_max_cpu"}

  function Clamped(regs: Registers): (r: Registers)
    requires Complete(regs)
  {
    regs["run" := Number(Clamp("run", regs["run"].n))]
        ["pages_to_scan" := Number(Clamp("pages_to_scan", regs["pages_to_scan"].n))]
        ["sleep_millisecs" := Number(Clamp("sleep_millisecs", regs["sleep_millisecs"].n))]
        ["max_page_sharing" := Number(Clamp("max_page_sharing", regs["max_page_sharing"].n))]
        ["advisor_target_scan_time" := Number(Clamp("advisor_target_scan_time", regs["advisor_target_scan_time"].n))]
        ["advisor_max_cpu" := Number(Clamp("advisor_max_cpu", regs["advisor_max_cpu"].n))]
  }

  /** Every restored register of `regs` and `other` aside, the two files agree. */
  ghost predicate AgreeElsewhere(regs: Registers, other: Registers) {
    forall p :: p !in RESTORED ==> (p in regs <==> p in other) && (p in regs ==> regs[p] == other[p])
  }

  lemma {:induction false} ClampInTwice(ranges: seq<Range>, param: string, value: nat)
    requires forall i :: 0 <= i < |ranges| ==> ranges[i].min <= ranges[i].max
    ensures ClampIn(ranges, param, ClampIn(ranges, param, value)) == ClampIn(ranges, param, value)
  {
    if ranges != [] && ranges[0].param != param {
      ClampInTwice(ranges[1..], param, value);
    }
  }

  /** What the controller sends is in range. */
  lemma ClampedInRange(param: string, value: nat)
    ensures InRange(param, Clamp(param, value))
  {
    ClampInTwice(PARAM_RANGES, param, value);
  }

  /** A kernel that validates: known modes only, numbers in range only, no text in a numeric
      register, and no `pages_to_scan` under scan-time. */
  function StrictKernel(): Kernel {
    (regs: Registers, param: string, value: Setting) =>
      match value
      case Text(mode) => param == "advisor_mode" && (mode == "none" || mode == "scan-time")
      case Number(n) => param != "advisor_mode" && InRange(param, n) && (param == "pages_to_scan" ==> !UnderScanTime(regs))
  }

  /** The hypotheses on the kernel leave room for validation. */
  lemma StrictKernelObliges(mode: string)
    requires mode == "none" || mode == "scan-time"
    ensures Obliging(StrictKernel(), mode)
  {
    hide Clamp, TakesNumbers, TakesUnder, StrictKernel;
    assert "advisor_mode"[0] == 'a' && "run"[0] == 'r' && "pages_to_scan"[0] == 'p';
    assert "sleep_millisecs"[0] == 's' && "max_page_sharing"[0] == 'm';
    assert |"advisor_mode"| == 12 && |"advisor_target_scan_time"| == 24 && |"advisor_max_cpu"| == 15;
    StrictTakes("run");
    StrictTakes("sleep_millisecs");
    StrictTakes("max_page_sharing");
    StrictTakes("advisor_target_scan_time");
    StrictTakes("advisor_max_cpu");
    StrictTakesPages();
    StrictTakesModes();
    TakesThenUnder(StrictKernel(), mode, "advisor_target_scan_time");
    TakesThenUnder(StrictKernel(), mode, "advisor_max_cpu");
  }

  lemma TakesThenUnder(kernel: Kernel, mode: string, param: string)
    requires TakesNumbers(kernel, param)
    ensures TakesUnder(kernel, mode, param)
  {
  }

  lemma StrictTakes(param: string)
    requires param != "advisor_mode" && param != "pages_to_scan"
    ensures TakesNumbers(StrictKernel(), param)
  {
    hide Clamp;
    forall v
      ensures InRange(param, Clamp(param, v))
    {
      ClampedInRange(param, v);
    }
  }

  lemma StrictTakesPages()
    ensures TakesPages(StrictKernel())
  {
    hide Clamp;
    forall v
      ensures InRange("pages_to_scan", Clamp("pages_to_scan", v))
    {
      ClampedInRange("pages_to_scan", v);
    }
    assert "advisor_mode"[0] == 'a' && "pages_to_scan"[0] == 'p';
  }

  lemma StrictTakesModes()
    ensures TakesMode(StrictKernel(), "none") && TakesMode(StrictKernel(), "scan-time")
  {
  }

  lemma Accepted(kernel: Kernel, regs: Registers, param: string, value: nat)
    requires TakesNumbers(kernel, param) || (param == "pages_to_scan" && TakesPages(kernel) && !UnderScanTime(regs))
    ensures WriteNumber(kernel, regs, false, param, value) == (regs[param := Number(Clamp(param, value))], true)
  {
    assert kernel(regs, param, Number(Clamp(param, value)));
  }

  lemma AcceptedUnder(kernel: Kernel, regs: Registers, mode: string, param: string, value: nat)
    requires TakesUnder(kernel, mode, param) && "advisor_mode" in regs && regs["advisor_mode"] == Text(mode)
    ensures WriteNumber(kernel, regs, false, param, value) == (regs[param := Number(Clamp(param, value))], true)
  {
    assert kernel(regs, param, Number(Clamp(param, value)));
  }

  lemma ModeAccepted(kernel: Kernel, regs: Registers, mode: string)
    requires TakesMode(kernel, mode)
    ensures WriteMode(kernel, regs, false, mode) == (regs["advisor_mode" := Text(mode)], true)
  {
  }

  /** Against an obliging kernel a restore succeeds with what all its writes give in turn. */
  lemma RestoreWrites(kernel: Kernel, now: Registers, c: KsmConfig)
    requires Obliging(kernel, c.advisorMode)
    ensures Restore(kernel, now, false, c) ==
              (now["advisor_mode" := Text(FirstMode(c.advisorMode))]
                  ["run" := Number(Clamp("run", c.run))]
                  ["pages_to_scan" := Number(Clamp("pages_to_scan", c.pagesToScan))]
                  ["sleep_millisecs" := Number(Clamp("sleep_millisecs", c.sleepMillisecs))]
                  ["max_page_sharing" := Number(Clamp("max_page_sharing", c.maxPageSharing))]
                  ["advisor_mode" := Text(c.advisorMode)]
                  ["advisor_target_scan_time" := Number(Clamp("advisor_target_scan_time", c.advisorTargetScanTime))]
                  ["advisor_max_cpu" := Number(Clamp("advisor_max_cpu", c.advisorMaxCpu))], true)
  {
    hide Clamp, WriteNumber, WriteMode, TakesNumbers, TakesPages, TakesMode, TakesUnder;
    ModeAccepted(kernel, now, FirstMode(c.advisorMode));
    var r0 := now["advisor_mode" := Text(FirstMode(c.advisorMode))];
    Accepted(kernel, r0, "run", c.run);
    var r1 := r0["run" := Number(Clamp("run", c.run))];
    assert r1["advisor_mode"] == Text(FirstMode(c.advisorMode));
    Accepted(kernel, r1, "pages_to_scan", c.pagesToScan);
    var r2 := r1["pages_to_scan" := Number(Clamp("pages_to_scan", c.pagesToScan))];
    Accepted(kernel, r2, "sleep_millisecs", c.sleepMillisecs);
    var r3 := r2["sleep_millisecs" := Number(Clamp("sleep_millisecs", c.sleepMillisecs))];
    Accepted(kernel, r3, "max_page_sharing", c.maxPageSharing);
    var r4 := r3["max_page_sharing" := Number(Clamp("max_page_sharing", c.maxPageSharing))];
    ModeAccepted(kernel, r4, c.advisorMode);
    var r5 := r4["advisor_mode" := Text(c.advisorMode)];
    AcceptedUnder(kernel, r5, c.advisorMode, "advisor_target_scan_time", c.advisorTargetScanTime);
    var r6 := r5["advisor_target_scan_time" := Number(Clamp("advisor_target_scan_time", c.advisorTargetScanTime))];
    assert r6["advisor_mode"] == Text(c.advisorMode);
    AcceptedUnder(kernel, r6, c.advisorMode, "advisor_max_cpu", c.advisorMaxCpu);
  }

  /** Whatever mode was active, whatever mode is restored and whatever else the kernel
      refuses, the `pages_to_scan` write of a restore is accepted: the mode is set first, and
      no write in between brings scan-time back. So a restore succeeds exactly when the three
      other core writes do. */
  lemma PagesNeverRefused(kernel: Kernel, now: Registers, c: KsmConfig)
    requires TakesMode(kernel, FirstMode(c.advisorMode)) && TakesPages(kernel)
    ensures var r0 := WriteMode(kernel, now, false, FirstMode(c.advisorMode)).0;
            var (r1, ran) := WriteNumber(kernel, r0, false, "run", c.run);
            var (r2, taken) := WriteNumber(kernel, r1, false, "pages_to_scan", c.pagesToScan);
            var (r3, slept) := WriteNumber(kernel, r2, false, "sleep_millisecs", c.sleepMillisecs);
            var (_, shared) := WriteNumber(kernel, r3, false, "max_page_sharing", c.maxPageSharing);
            && taken && r2 == r1["pages_to_scan" := Number(Clamp("pages_to_scan", c.pagesToScan))]
            && (Restore(kernel, now, false, c).1 <==> ran && slept && shared)
  {
    hide Clamp;
    var r0 := WriteMode(kernel, now, false, FirstMode(c.advisorMode)).0;
    var r1 := WriteNumber(kernel, r0, false, "run", c.run).0;
    assert r1["advisor_mode"] == Text(FirstMode(c.advisorMode));
    Accepted(kernel, r1, "pages_to_scan", c.pagesToScan);
  }

  /** Whatever happened to the restored registers since the snapshot, a restore succeeds
      and brings the whole file back, up to clamping; so it brings it back exactly when
      the snapshot's values lie in their safe ranges. */
  lemma RestoreBringsBack(kernel: Kernel, taken: Registers, now: Registers)
    requires Complete(taken) && Obliging(kernel, taken["advisor_mode"].s) && AgreeElsewhere(taken, now)
    ensures ReadConfig(taken).Some?
    ensures var (after, ok) := Restore(kernel, now, false, ReadConfig(taken).value);
            ok && after == Clamped(taken) && (after == taken <==> RestoredInRange(taken))
  {
    hide Clamp, Restore;
    var c := ReadConfig(taken).value;
    RestoreWrites(kernel, now, c);
    var after := Restore(kernel, now, false, c).0;
    forall p
      ensures p in after <==> p in Clamped(taken)
      ensures p in after ==> after[p] == Clamped(taken)[p]
    {
      if p !in RESTORED {
        assert p in taken <==> p in now;
      }
    }
    assert after == Clamped(taken);
    ClampedIdentity(taken);
  }

  /** A restore that fails leaves the advisor where its first write put it, so after a
      scan-time snapshot the advisor stays off, and the two advisor numbers as they were. */
  lemma FailureLeavesAdvisor(kernel: Kernel, now: Registers, c: KsmConfig)
    requires TakesMode(kernel, FirstMode(c.advisorMode))
    ensures var (after, ok) := Restore(kernel, now, false, c);
            !ok ==>
              && "advisor_mode" in after && after["advisor_mode"] == Text(FirstMode(c.advisorMode)) != Text("scan-time")
              && (forall p :: p in {"advisor_target_scan_time", "advisor_max_cpu"} ==>
                    (p in after <==> p in now) && (p in after ==> after[p] == now[p]))
  {
    hide Clamp;
  }

  /** Also on a kernel without advisor registers, or one that refuses the snapshot's mode: as
      long as scan-time is not left active, a restore brings the four core parameters back. */
  lemma CoreBack(kernel: Kernel, taken: Registers, now: Registers)
    requires ReadConfig(taken).Some?
    requires TakesPages(kernel) && TakesNumbers(kernel, "run")
             && TakesNumbers(kernel, "sleep_millisecs") && TakesNumbers(kernel, "max_page_sharing")
    requires !UnderScanTime(now) || TakesMode(kernel, FirstMode(ReadConfig(taken).value.advisorMode))
    ensures var (after, ok) := Restore(kernel, now, false, ReadConfig(taken).value);
            && ok
            && "run" in after && after["run"] == Number(Clamp("run", taken["run"].n))
            && "pages_to_scan" in after && after["pages_to_scan"] == Number(Clamp("pages_to_scan", taken["pages_to_scan"].n))
            && "sleep_millisecs" in after
            && after["sleep_millisecs"] == Number(Clamp("sleep_millisecs", taken["sleep_millisecs"].n))
            && "max_page_sharing" in after
            && after["max_page_sharing"] == Number(Clamp("max_page_sharing", taken["max_page_sharing"].n))
  {
    hide Clamp, Restore, TakesNumbers, TakesPages;
    SnapshotReads(taken);
    var c := ReadConfig(taken).value;
    SuccessMeansCoreBack(kernel, now, c);
    CoreTaken(kernel, now, c);
  }

  lemma CoreTaken(kernel: Kernel, now: Registers, c: KsmConfig)
    requires TakesPages(kernel) && TakesNumbers(kernel, "run")
             && TakesNumbers(kernel, "sleep_millisecs") && TakesNumbers(kernel, "max_page_sharing")
    requires !UnderScanTime(now) || TakesMode(kernel, FirstMode(c.advisorMode))
    ensures Restore(kernel, now, false, c).1
  {
    hide Clamp, TakesNumbers, TakesPages;
    var r0 := WriteMode(kernel, now, false, FirstMode(c.advisorMode)).0;
    assert !UnderScanTime(r0);
    Accepted(kernel, r0, "run", c.run);
    var r1 := r0["run" := Number(Clamp("run", c.run))];
    assert !UnderScanTime(r1);
    Accepted(kernel, r1, "pages_to_scan", c.pagesToScan);
    var r2 := r1["pages_to_scan" := Number(Clamp("pages_to_scan", c.pagesToScan))];
    Accepted(kernel, r2, "sleep_millisecs", c.sleepMillisecs);
    var r3 := r2["sleep_millisecs" := Number(Clamp("sleep_millisecs", c.sleepMillisecs))];
    Accepted(kernel, r3, "max_page_sharing", c.maxPageSharing);
  }

  /** A dry restore succeeds and leaves every register alone. */
  lemma DryRestoreWritesNothing(kernel: Kernel, regs: Registers, c: KsmConfig)
    ensures Restore(kernel, regs, true, c) == (regs, true)
  {
    hide Clamp;
  }

  /** Outside a dry run the registers change only where a restore writes. */
  lemma RestoreTouches(kernel: Kernel, now: Registers, c: KsmConfig)
    ensures AgreeElsewhere(now, Restore(kernel, now, false, c).0)
  {
    hide Clamp;
  }

  /** Whatever the kernel refuses, a restore that reports success outside a dry run has the
      four core parameters back, clamped. */
  lemma SuccessMeansCoreBack(kernel: Kernel, now: Registers, c: KsmConfig)
    ensures var (after, ok) := Restore(kernel, now, false, c);
            ok ==>
              && "run" in after && after["run"] == Number(Clamp("run", c.run))
              && "pages_to_scan" in after && after["pages_to_scan"] == Number(Clamp("pages_to_scan", c.pagesToScan))
              && "sleep_millisecs" in after && after["sleep_millisecs"] == Number(Clamp("sleep_millisecs", c.sleepMillisecs))
              && "max_page_sharing" in after && after["max_page_sharing"] == Number(Clamp("max_page_sharing", c.maxPageSharing))
  {
    hide Clamp;
  }

  lemma ClampedIdentity(regs: Registers)
    requires Complete(regs)
    ensures Clamped(regs) == regs <==> RestoredInRange(regs)
  {
    hide Clamp;
    var r := Clamped(regs);
    assert r["run"] == Number(Clamp("run", regs["run"].n));
    assert r["pages_to_scan"] == Number(Clamp("pages_to_scan", regs["pages_to_scan"].n));
    assert r["sleep_millisecs"] == Number(Clamp("sleep_millisecs", regs["sleep_millisecs"].n));
    assert r["max_page_sharing"] == Number(Clamp("max_page_sharing", regs["max_page_sharing"].n));
    assert r["advisor_target_scan_time"] == Number(Clamp("advisor_target_scan_time", regs["advisor_target_scan_time"].n));
    assert r["advisor_max_cpu"] == Number(Clamp("advisor_max_cpu", regs["advisor_max_cpu"].n));
  }
}
