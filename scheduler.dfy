/** The monitor's `main`: read and print the kernel identity, load the
    kernel modules once, then repeat the sampling cycle CPU, temperatures,
    GPUs, sleep. The endless loop is modelled by the finite list of samples
    the providers return, one per cycle. */
module Scheduler {
  import opened Maybe
  import opened Strings
  import opened Dicts
  import opened Events
  import opened Bootstrap
  import opened Providers
  import opened Console

  /** What `get_cpu_info` reads, each value as `print` renders it. */
  datatype CpuReading = CpuReading(totalCores: string, processorSpeed: string, totalCpuUsage: string)

  /** The dict `get_cpu_info` returns. */
  function CpuInfo(r: CpuReading): Dict<string> {
    [("total_cores", r.totalCores), ("processor_speed", r.processorSpeed), ("total_cpu_usage", r.totalCpuUsage)]
  }

  /** What the providers return during one cycle. */
  datatype Sample = Sample(cpu: CpuReading, temps: Dict<seq<TempReading>>, devices: seq<DeviceReading>)

  /** The three texts one cycle prints. */
  datatype CycleTexts = CycleTexts(cpu: string, temps: string, gpus: string)

  const Separator: string := "---------------"

  /** The text printed by `print_generic_dict(sys_info, 'sys_info', end='---------------')`. */
  function SysInfoText(u: Uname, ifaces: Dict<seq<string>>): string {
    Unlines(GenericLines(KernelInfo(u, ifaces), "sys_info", Separator))
  }

  /** What the cycle reading `s` prints through `print_cpu_info`,
      `print_system_temp_info` and `print_gpu_info(get_gpu_info())`. */
  function TextsOf(s: Sample): CycleTexts {
    CycleTexts(Unlines([CpuLine(CpuInfo(s.cpu))]), Unlines(TempLines(s.temps)), Unlines([GpuLine(GpuInfo(s.devices))]))
  }

  function SampleTexts(samples: seq<Sample>): seq<CycleTexts> {
    seq(|samples|, i requires 0 <= i < |samples| => TextsOf(samples[i]))
  }

  /** One cycle: sample the CPU (blocking for `interval`) and print it,
      sample the temperatures and print them, sample the GPUs and print
      them, sleep. */
  function CycleOf(interval: real, t: CycleTexts): seq<Event> {
    Sampled(CpuLoad(interval), t.cpu) + Sampled(Temperatures, t.temps) + Sampled(Gpus, t.gpus) + [Sleep(interval)]
  }

  /** A provider sampled, then what it returned printed. */
  function Sampled(source: Source, text: string): seq<Event> {
    [Query(source), Write(text)]
  }

  function Cycles(interval: real, ts: seq<CycleTexts>): seq<Event> {
    if ts == [] then [] else Cycles(interval, ts[..|ts| - 1]) + CycleOf(interval, ts[|ts| - 1])
  }

  /** Everything before the first cycle: the kernel identity read and
      printed, the modules loaded, and the separator printed when loading
      succeeded. */
  function StartTrace(sysText: string, boot: Report): seq<Event> {
    Sampled(KernelIdentity, sysText) + boot.trace + (if boot.error.None? then [Print(Separator)] else [])
  }

  /** The shape of a run: the startup, then, unless loading the modules
      raised, one cycle per entry of `ts`. */
  function RunOf(interval: real, sysText: string, boot: Report, ts: seq<CycleTexts>): Report {
    if boot.error.Some? then Report(boot.error, StartTrace(sysText, boot))
    else Report(None, StartTrace(sysText, boot) + Cycles(interval, ts))
  }

  /** A run of `main` whose providers return `samples`. */
  function MonitorRun(u: Uname, ifaces: Dict<seq<string>>, shell: Shell, modules: seq<string>, interval: real, samples: seq<Sample>): Report {
    RunOf(interval, SysInfoText(u, ifaces), LoadOutcome(u.sysname, modules, true, shell), SampleTexts(samples))
  }

  /** One pass of the `while True` body. */
  method RunCycle(interval: real, sample: Sample) returns (events: seq<Event>)
    ensures events == CycleOf(interval, TextsOf(sample))
  {
    var cpuText := PrintCpuInfo(CpuInfo(sample.cpu));
    events := [Query(CpuLoad(interval)), Write(cpuText)];
    var tempText := PrintSystemTempInfo(sample.temps);
    events := events + [Query(Temperatures), Write(tempText)];
    var gpuInfo := GetGpuInfo(sample.devices);
    var gpuText := PrintGpuInfo(gpuInfo);
    events := events + [Query(Gpus), Write(gpuText)];
    events := events + [Sleep(interval)];
  }

  /** `main(args)` with `args.interval == interval`, run for as many cycles
      as there are samples. */
  method Monitor(u: Uname, ifaces: Dict<seq<string>>, shell: Shell, modules: seq<string>, interval: real, samples: seq<Sample>)
    returns (error: Option<BootError>, trace: seq<Event>)
    requires DistinctKeys(ifaces)
    ensures Report(error, trace) == MonitorRun(u, ifaces, shell, modules, interval, samples)
  {
    var sysInfo := GetKernelInfo(u, ifaces);
    var text := PrintGenericDict(sysInfo, "sys_info", Separator);
    trace := [Query(KernelIdentity), Write(text)];
    KernelInfoContents(u, ifaces);
    var sysname := Get(sysInfo, "sysname").value;
    var bootTrace;
    error, bootTrace := LoadNecessaryModules(sysname, modules, true, shell);
    ghost var boot := Report(error, bootTrace);
    trace := trace + bootTrace;
    if error.Some? {
      return;
    }
    trace := trace + [Print(Separator)];
    var cycles := RunCycles(interval, samples);
    trace := trace + cycles;
  }

  /** The `while True` loop, for as many passes as there are samples. */
  method RunCycles(interval: real, samples: seq<Sample>) returns (trace: seq<Event>)
    ensures trace == Cycles(interval, SampleTexts(samples))
  {
    ghost var ts := SampleTexts(samples);
    trace := [];
    var c := 0;
    while c < |samples|
      invariant 0 <= c <= |samples|
      invariant trace == Cycles(interval, ts[..c])
    {
      var events := RunCycle(interval, samples[c]);
      CyclesSnoc(interval, ts, c);
      trace := trace + events;
      c := c + 1;
    }
    assert ts[..|samples|] == ts;
  }

  lemma CyclesSnoc(interval: real, ts: seq<CycleTexts>, c: nat)
    requires c < |ts|
    ensures Cycles(interval, ts[..c + 1]) == Cycles(interval, ts[..c]) + CycleOf(interval, ts[c])
  {
    assert ts[..c + 1][..c] == ts[..c];
  }

  lemma CycleOfProjections(interval: real, t: CycleTexts)
    ensures |CycleOf(interval, t)| == 7
    ensures Queries(CycleOf(interval, t)) == [CpuLoad(interval), Temperatures, Gpus]
    ensures Sleeps(CycleOf(interval, t)) == 1
    ensures Commands(CycleOf(interval, t)) == []
  {
    var cpu, temps, gpus := Sampled(CpuLoad(interval), t.cpu), Sampled(Temperatures, t.temps), Sampled(Gpus, t.gpus);
    var samples, rest := cpu + temps + gpus, [Sleep(interval)];
    assert CycleOf(interval, t) == samples + rest;
    SampledProjections(CpuLoad(interval), Temperatures, Gpus, t.cpu, t.temps, t.gpus);
    OneEvent(Sleep(interval));
    QueriesAppend(samples, rest);
    CommandsAppend(samples, rest);
    assert Queries(samples) + Queries(rest) == [CpuLoad(interval), Temperatures, Gpus];
  }

  /** Three providers sampled and printed one after the other. */
  lemma SampledProjections(a: Source, b: Source, c: Source, x: string, y: string, z: string)
    ensures Queries(Sampled(a, x) + Sampled(b, y) + Sampled(c, z)) == [a, b, c]
    ensures Sleeps(Sampled(a, x) + Sampled(b, y) + Sampled(c, z)) == 0
    ensures Commands(Sampled(a, x) + Sampled(b, y) + Sampled(c, z)) == []
  {
    PairProjections(a, x);
    PairProjections(b, y);
    PairProjections(c, z);
    Projections3(Sampled(a, x), Sampled(b, y), Sampled(c, z));
    assert [a] + [b] + [c] == [a, b, c];
  }

  /** A provider sampled, then its text printed: one query, no sleep, no
      command. */
  lemma PairProjections(source: Source, text: string)
    ensures Queries(Sampled(source, text)) == [source]
    ensures Sleeps(Sampled(source, text)) == 0
    ensures Commands(Sampled(source, text)) == []
  {
    var q, w := Query(source), Write(text);
    OneEvent(q);
    OneEvent(w);
    QueriesAppend([q], [w]);
    CommandsAppend([q], [w]);
    assert [q] + [w] == Sampled(source, text);
  }

  /** Cycle `c` occupies the seven events after the `c` cycles before it. */
  lemma {:induction false} CycleSlices(interval: real, ts: seq<CycleTexts>)
    ensures |Cycles(interval, ts)| == 7 * |ts|
    ensures forall c :: 0 <= c < |ts| ==> Cycles(interval, ts)[7 * c..7 * c + 7] == CycleOf(interval, ts[c])
    decreases |ts|
  {
    if ts != [] {
      var n := |ts| - 1;
      CycleSlices(interval, ts[..n]);
      var before, last := Cycles(interval, ts[..n]), CycleOf(interval, ts[n]);
      var all := Cycles(interval, ts);
      assert all == before + last;
      CycleOfProjections(interval, ts[n]);
      forall c | 0 <= c < |ts|
        ensures all[7 * c..7 * c + 7] == CycleOf(interval, ts[c])
      {
        if c < n {
          SliceLeft(before, last, 7 * c, 7 * c + 7);
          assert ts[..n][c] == ts[c];
        } else {
          SliceRight(before, last);
        }
      }
    }
  }

  lemma SliceLeft<T>(a: seq<T>, b: seq<T>, i: nat, j: nat)
    requires i <= j <= |a|
    ensures (a + b)[i..j] == a[i..j]
  {
  }

  lemma SliceRight<T>(a: seq<T>, b: seq<T>)
    ensures (a + b)[|a|..|a| + |b|] == b
  {
  }

  /** Over the cycles, the monitor sleeps once per cycle, samples three
      providers per cycle, runs no command and never samples the kernel
      identity. */
  lemma {:induction false} CycleCounts(interval: real, ts: seq<CycleTexts>)
    ensures Sleeps(Cycles(interval, ts)) == |ts|
    ensures |Queries(Cycles(interval, ts))| == 3 * |ts|
    ensures Commands(Cycles(interval, ts)) == []
    ensures KernelIdentity !in Queries(Cycles(interval, ts))
    decreases |ts|
  {
    if ts != [] {
      var n := |ts| - 1;
      var before, last := Cycles(interval, ts[..n]), CycleOf(interval, ts[n]);
      CycleCounts(interval, ts[..n]);
      CycleOfProjections(interval, ts[n]);
      QueriesAppend(before, last);
      CommandsAppend(before, last);
    }
  }

  /** Within the queries of the cycles, cycle `c` samples CPU, temperatures
      and GPUs, in that order, at positions `3c` to `3c + 2`. */
  lemma {:induction false} CycleQueryOrder(interval: real, ts: seq<CycleTexts>)
    ensures |Queries(Cycles(interval, ts))| == 3 * |ts|
    ensures forall c :: 0 <= c < |ts| ==>
              Queries(Cycles(interval, ts))[3 * c..3 * c + 3] == [CpuLoad(interval), Temperatures, Gpus]
    decreases |ts|
  {
    if ts != [] {
      var n := |ts| - 1;
      var before, last := Cycles(interval, ts[..n]), CycleOf(interval, ts[n]);
      CycleQueryOrder(interval, ts[..n]);
      CycleOfProjections(interval, ts[n]);
      QueriesAppend(before, last);
      var qs := Queries(before) + [CpuLoad(interval), Temperatures, Gpus];
      forall c | 0 <= c < |ts|
        ensures qs[3 * c..3 * c + 3] == [CpuLoad(interval), Temperatures, Gpus]
      {
        if c < n {
          assert qs[3 * c..3 * c + 3] == Queries(before)[3 * c..3 * c + 3];
        }
      }
    }
  }

  lemma StartProjections(sysText: string, boot: Report)
    requires Queries(boot.trace) == [] && Sleeps(boot.trace) == 0
    ensures Queries(StartTrace(sysText, boot)) == [KernelIdentity]
    ensures Sleeps(StartTrace(sysText, boot)) == 0
    ensures Commands(StartTrace(sysText, boot)) == Commands(boot.trace)
  {
    var head := Sampled(KernelIdentity, sysText);
    var tail := if boot.error.None? then [Print(Separator)] else [];
    assert StartTrace(sysText, boot) == head + boot.trace + tail;
    PairProjections(KernelIdentity, sysText);
    assert Queries(tail) == [] && Sleeps(tail) == 0 && Commands(tail) == [] by {
      if tail != [] {
        OneEvent(Print(Separator));
      }
    }
    Projections3(head, boot.trace, tail);
  }

  /** The shape of any run whose bootstrap samples nothing and never
      sleeps: the kernel identity is read first and only then, every command
      is a bootstrap command, an exception means no cycle and no sleep, and
      otherwise there is one full cycle per entry of `ts`. */
  lemma RunOfShape(interval: real, sysText: string, boot: Report, ts: seq<CycleTexts>)
    requires Queries(boot.trace) == [] && Sleeps(boot.trace) == 0
    ensures var run := RunOf(interval, sysText, boot, ts);
            && run.error == boot.error
            && run.trace[0] == Query(KernelIdentity) && run.trace[1] == Write(sysText)
            && Commands(run.trace) == Commands(boot.trace)
            && |Queries(run.trace)| >= 1 && Queries(run.trace)[0] == KernelIdentity
            && KernelIdentity !in Queries(run.trace)[1..]
            && (run.error.Some? ==> Queries(run.trace) == [KernelIdentity] && Sleeps(run.trace) == 0)
            && (run.error.None? ==> Sleeps(run.trace) == |ts| && |Queries(run.trace)| == 1 + 3 * |ts|)
  {
    var start := StartTrace(sysText, boot);
    StartProjections(sysText, boot);
    if boot.error.None? {
      var cycles := Cycles(interval, ts);
      CycleCounts(interval, ts);
      QueriesAppend(start, cycles);
      CommandsAppend(start, cycles);
      assert Queries(start + cycles)[1..] == Queries(cycles);
    }
  }

  /** Kernel info is read and printed first and exactly once, and the
      modules are loaded exactly once, before any cycle: every command of
      the run is a command of the bootstrap, and no query after the first
      reads the kernel identity. */
  lemma StartupOnce(u: Uname, ifaces: Dict<seq<string>>, shell: Shell, modules: seq<string>, interval: real, samples: seq<Sample>)
    ensures var run := MonitorRun(u, ifaces, shell, modules, interval, samples);
            && run.trace[0] == Query(KernelIdentity)
            && run.trace[1] == Write(SysInfoText(u, ifaces))
            && Commands(run.trace) == Commands(LoadOutcome(u.sysname, modules, true, shell).trace)
            && |Queries(run.trace)| >= 1 && Queries(run.trace)[0] == KernelIdentity
            && KernelIdentity !in Queries(run.trace)[1..]
  {
    var boot := LoadOutcome(u.sysname, modules, true, shell);
    LoadOutcomeQuiet(u.sysname, modules, true, shell);
    RunOfShape(interval, SysInfoText(u, ifaces), boot, SampleTexts(samples));
  }

  /** An exception while loading modules ends the run before any cycle:
      nothing is sampled but the kernel identity and nothing sleeps. When
      loading succeeds, the run sleeps once per sample and samples the three
      providers once per sample. */
  lemma ErrorMeansNoCycle(u: Uname, ifaces: Dict<seq<string>>, shell: Shell, modules: seq<string>, interval: real, samples: seq<Sample>)
    ensures var run := MonitorRun(u, ifaces, shell, modules, interval, samples);
            && run.error == LoadOutcome(u.sysname, modules, true, shell).error
            && (run.error.Some? ==> Queries(run.trace) == [KernelIdentity] && Sleeps(run.trace) == 0)
            && (run.error.None? ==> Sleeps(run.trace) == |samples| && |Queries(run.trace)| == 1 + 3 * |samples|)
  {
    var boot := LoadOutcome(u.sysname, modules, true, shell);
    LoadOutcomeQuiet(u.sysname, modules, true, shell);
    RunOfShape(interval, SysInfoText(u, ifaces), boot, SampleTexts(samples));
  }

  /** After a successful startup, the startup is a prefix of the run and
      cycle `c` occupies the seven events right after the `c` cycles before
      it. */
  lemma RunOfCycles(interval: real, sysText: string, boot: Report, ts: seq<CycleTexts>, c: nat)
    requires boot.error.None? && c < |ts|
    ensures var run, start := RunOf(interval, sysText, boot, ts), StartTrace(sysText, boot);
            && |run.trace| == |start| + 7 * |ts|
            && run.trace[..|start|] == start
            && run.trace[|start| + 7 * c..|start| + 7 * c + 7] == CycleOf(interval, ts[c])
  {
    var start, cycles := StartTrace(sysText, boot), Cycles(interval, ts);
    CycleSlices(interval, ts);
    var n := |start|;
    assert (start + cycles)[n + 7 * c..n + 7 * c + 7] == cycles[7 * c..7 * c + 7];
  }

  /** When loading succeeds, the startup is a prefix of the run and cycle
      `c` occupies the seven events right after the `c` cycles before it:
      CPU sample and print, temperature sample and print, GPU sample and
      print, sleep. */
  lemma CycleOrder(u: Uname, ifaces: Dict<seq<string>>, shell: Shell, modules: seq<string>, interval: real, samples: seq<Sample>, c: nat)
    requires MonitorRun(u, ifaces, shell, modules, interval, samples).error.None?
    requires c < |samples|
    ensures var run := MonitorRun(u, ifaces, shell, modules, interval, samples);
            var start := StartTrace(SysInfoText(u, ifaces), LoadOutcome(u.sysname, modules, true, shell));
            && |run.trace| == |start| + 7 * |samples|
            && run.trace[..|start|] == start
            && run.trace[|start| + 7 * c..|start| + 7 * c + 7] == CycleOf(interval, TextsOf(samples[c]))
  {
    var ts := SampleTexts(samples);
    RunOfCycles(interval, SysInfoText(u, ifaces), LoadOutcome(u.sysname, modules, true, shell), ts, c);
    assert ts[c] == TextsOf(samples[c]);
  }

  /** A run with the module list the monitor ships, `ubuntu_modules`: on a
      host that is not Linux it is refused; on Linux it runs the `lsmod`
      check for `drivetemp` and `modprobe` only when the check returned 0,
      and it goes on to the cycles exactly when that module does not fail
      to load. */
  lemma ShippedModulesRun(u: Uname, ifaces: Dict<seq<string>>, shell: Shell, interval: real, samples: seq<Sample>)
    ensures var run := MonitorRun(u, ifaces, shell, UbuntuModules, interval, samples);
            && (!Contains(u.sysname, "Linux") ==> run.error == Some(Unsupported(u.sysname)) && Commands(run.trace) == [])
            && (Contains(u.sysname, "Linux") ==>
                  && Commands(run.trace) == StepCommands(UbuntuModules[0], shell)
                  && (run.error.None? <==> !Fails(UbuntuModules[0], shell)))
  {
    var m := UbuntuModules[0];
    var boot := LoadOutcome(u.sysname, UbuntuModules, true, shell);
    StartupOnce(u, ifaces, shell, UbuntuModules, interval, samples);
    ErrorMeansNoCycle(u, ifaces, shell, UbuntuModules, interval, samples);
    if Contains(u.sysname, "Linux") {
      var step := ModuleStep(m, true, shell);
      assert UbuntuModules[..0] == [];
      assert LoadModules(UbuntuModules, true, shell) == Report(step.error, [] + step.trace);
      assert [] + step.trace == step.trace;
      ModuleStepObservable(m, true, shell);
      LoadSucceedsIff(UbuntuModules, true, shell);
    }
  }
}
