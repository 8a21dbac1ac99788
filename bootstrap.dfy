/** The start-up check of utils/utils_monitor.py (`load_necessary_modules`):
    on a Linux host, make sure each required kernel module is loaded; on any
    other host, refuse to run.

    The shell is an input: `shell(cmd)` is what `subprocess.run` reports for
    the command line `cmd` (return code, captured stdout and stderr, already
    decoded). */
module Bootstrap {
  import opened Maybe
  import opened Strings
  import opened Events

  /** `ubuntu_modules`: the kernel modules the monitor needs. */
  const UbuntuModules: seq<string> := ["drivetemp"]

  /** What `subprocess.run(..., capture_output=True)` returns. */
  datatype Completed = Completed(returncode: int, stdout: string, stderr: string)

  type Shell = string -> Completed

  /** The command that checks whether module `m` is present. */
  function CheckCommand(m: string): string {
    "lsmod | grep " + m
  }

  /** The command that loads module `m`. */
  function LoadCommand(m: string): string {
    "sudo modprobe -v " + m
  }

  const LoadingNotice: string := "Loading necessary Linux modules..."

  function NotFoundWarning(m: string): string {
    "Warning: module '" + m + "' not found."
  }

  /** The two exceptions the start-up check raises. */
  datatype BootError =
    | Unsupported(sysname: string)
    | LoadFailed(moduleName: string, returncode: int, stdout: string, stderr: string)

  /** `s` between single quotes. */
  function Quote(s: string): string {
    "'" + s + "'"
  }

  /** The text of the raised exception. */
  function Message(e: BootError): string {
    match e
    case Unsupported(sysname) =>
      "Sorry, system_monitor is not implemented for the system " + Quote(sysname) + " yet!"
    case LoadFailed(m, rc, out, err) =>
      "Error when loading module " + Quote(m) + ". " + ("returncode=" + IntToString(rc))
      + (", stdout=" + Quote(out) + ", stderr=" + Quote(err))
  }

  /** The exception raised (if any) and everything done up to that point. */
  datatype Report = Report(error: Option<BootError>, trace: seq<Event>)

  /** The module is present but `modprobe` fails on it. */
  predicate Fails(m: string, shell: Shell) {
    shell(CheckCommand(m)).returncode == 0 && shell(LoadCommand(m)).returncode != 0
  }

  /** One pass of the loop body for module `m`. */
  function ModuleStep(m: string, verbose: bool, shell: Shell): Report {
    var check := shell(CheckCommand(m));
    if check.returncode == 0 then
      var load := shell(LoadCommand(m));
      Report(if load.returncode != 0 then Some(LoadFailed(m, load.returncode, load.stdout, load.stderr)) else None,
             [Run(CheckCommand(m))]
             + (if verbose then [Print(LoadingNotice), Print(LoadCommand(m))] else [])
             + [Run(LoadCommand(m))])
    else
      Report(None, [Run(CheckCommand(m)), Print(NotFoundWarning(m))])
  }

  /** The loop over `ms` on a Linux host: modules in list order, stopping at
      the first exception. */
  function LoadModules(ms: seq<string>, verbose: bool, shell: Shell): Report {
    if ms == [] then Report(None, [])
    else
      var before := LoadModules(ms[..|ms| - 1], verbose, shell);
      if before.error.Some? then before
      else
        var step := ModuleStep(ms[|ms| - 1], verbose, shell);
        Report(step.error, before.trace + step.trace)
  }

  /** `load_necessary_modules(system_info)` where `system_info['sysname']`
      is `sysname` and `ubuntu_modules` is `ms`. */
  function LoadOutcome(sysname: string, ms: seq<string>, verbose: bool, shell: Shell): Report {
    if Contains(sysname, "Linux") then LoadModules(ms, verbose, shell)
    else Report(Some(Unsupported(sysname)), [])
  }

  /** The procedure itself, step by step: it records each command it runs
      and each line it prints, and stops at the first exception. */
  method LoadNecessaryModules(sysname: string, ms: seq<string>, verbose: bool, shell: Shell)
    returns (error: Option<BootError>, trace: seq<Event>)
    ensures Report(error, trace) == LoadOutcome(sysname, ms, verbose, shell)
  {
    if !Contains(sysname, "Linux") {
      return Some(Unsupported(sysname)), [];
    }
    error, trace := None, [];
    var i := 0;
    while i < |ms|
      invariant 0 <= i <= |ms|
      invariant LoadModules(ms[..i], verbose, shell) == Report(None, trace)
    {
      var m := ms[i];
      assert ms[..i + 1][..i] == ms[..i];
      ghost var before := trace;
      ghost var step := ModuleStep(m, verbose, shell);
      var cmd := CheckCommand(m);
      var p := shell(cmd);
      trace := trace + [Run(cmd)];
      if p.returncode == 0 {
        if verbose {
          trace := trace + [Print(LoadingNotice)];
        }
        cmd := LoadCommand(m);
        if verbose {
          trace := trace + [Print(cmd)];
        }
        p := shell(cmd);
        trace := trace + [Run(cmd)];
        assert trace == before + step.trace;
        if p.returncode != 0 {
          error := Some(LoadFailed(m, p.returncode, p.stdout, p.stderr));
          ErrorSticks(ms, i + 1, verbose, shell);
          return;
        }
      } else {
        trace := trace + [Print(NotFoundWarning(m))];
        assert trace == before + step.trace;
      }
      i := i + 1;
    }
    assert ms[..|ms|] == ms;
  }

  // ----- Properties -----

  /** The loop over modules raises only load failures. */
  lemma {:induction false} LoadModulesOnlyLoadFails(ms: seq<string>, verbose: bool, shell: Shell)
    ensures LoadModules(ms, verbose, shell).error.Some? ==> LoadModules(ms, verbose, shell).error.value.LoadFailed?
    decreases |ms|
  {
    if ms != [] {
      LoadModulesOnlyLoadFails(ms[..|ms| - 1], verbose, shell);
    }
  }

  /** The host is refused exactly when its system name does not contain
      "Linux", and a refused host runs no command and prints nothing. */
  lemma UnsupportedIff(sysname: string, ms: seq<string>, verbose: bool, shell: Shell)
    ensures LoadOutcome(sysname, ms, verbose, shell).error == Some(Unsupported(sysname))
            <==> !(exists i :: OccursAt(sysname, "Linux", i))
    ensures !Contains(sysname, "Linux") ==> LoadOutcome(sysname, ms, verbose, shell).trace == []
  {
    ContainsIff(sysname, "Linux");
    LoadModulesOnlyLoadFails(ms, verbose, shell);
  }

  /** The commands one module's step runs: the check, then the load only
      if the check returned 0. */
  function StepCommands(m: string, shell: Shell): seq<string> {
    [CheckCommand(m)] + (if shell(CheckCommand(m)).returncode == 0 then [LoadCommand(m)] else [])
  }

  /** What one module's step prints: for a present module, the two verbose
      lines; for a missing one, exactly one warning. */
  function StepOutput(m: string, verbose: bool, shell: Shell): string {
    if shell(CheckCommand(m)).returncode != 0 then NotFoundWarning(m) + "\n"
    else if verbose then LoadingNotice + "\n" + LoadCommand(m) + "\n"
    else ""
  }

  /** The commands the loop runs when every module is processed: each
      module's step commands, in list order. */
  function PlannedCommands(ms: seq<string>, shell: Shell): seq<string> {
    if ms == [] then []
    else PlannedCommands(ms[..|ms| - 1], shell) + StepCommands(ms[|ms| - 1], shell)
  }

  /** What the loop prints when every module is processed. */
  function PlannedOutput(ms: seq<string>, verbose: bool, shell: Shell): string {
    if ms == [] then ""
    else PlannedOutput(ms[..|ms| - 1], verbose, shell) + StepOutput(ms[|ms| - 1], verbose, shell)
  }

  /** The three shapes a module's step can take, with the texts left
      abstract: present and verbose, present and quiet, missing. */
  lemma VerboseLoadShape(check: string, load: string, notice: string)
    ensures Commands([Run(check), Print(notice), Print(load), Run(load)]) == [check, load]
    ensures Stdout([Run(check), Print(notice), Print(load), Run(load)]) == notice + "\n" + load + "\n"
  {
    var a, b, c, d := Run(check), Print(notice), Print(load), Run(load);
    assert [a, b, c, d][..3] == [a, b, c] && [a, b, c][..2] == [a, b] && [a, b][..1] == [a];
    OneEvent(a);
    assert Commands([a, b]) == [check] && Stdout([a, b]) == notice + "\n";
    assert Commands([a, b, c]) == [check] && Stdout([a, b, c]) == (notice + "\n") + (load + "\n");
    SeqAssoc(notice + "\n", load, "\n");
  }

  lemma QuietLoadShape(check: string, load: string)
    ensures Commands([Run(check), Run(load)]) == [check, load]
    ensures Stdout([Run(check), Run(load)]) == ""
  {
    var e := [Run(check), Run(load)];
    assert e[..1][..0] == [];
    assert Commands(e[..1]) == [check] && Stdout(e[..1]) == "";
  }

  lemma MissingShape(check: string, warning: string)
    ensures Commands([Run(check), Print(warning)]) == [check]
    ensures Stdout([Run(check), Print(warning)]) == warning + "\n"
  {
    var e := [Run(check), Print(warning)];
    assert e[..1][..0] == [];
    assert Commands(e[..1]) == [check] && Stdout(e[..1]) == "";
  }

  /** What one module contributes to the commands run and to the printed
      text: the check first; the load only after a check that returned 0;
      exactly one warning after a check that did not. */
  lemma ModuleStepObservable(m: string, verbose: bool, shell: Shell)
    ensures Commands(ModuleStep(m, verbose, shell).trace) == StepCommands(m, shell)
    ensures Stdout(ModuleStep(m, verbose, shell).trace) == StepOutput(m, verbose, shell)
  {
    var check, load := CheckCommand(m), LoadCommand(m);
    var trace := ModuleStep(m, verbose, shell).trace;
    if shell(check).returncode != 0 {
      MissingShape(check, NotFoundWarning(m));
    } else if verbose {
      VerboseLoadShape(check, load, LoadingNotice);
      assert trace == [Run(check), Print(LoadingNotice), Print(load), Run(load)];
    } else {
      QuietLoadShape(check, load);
      assert trace == [Run(check), Run(load)];
    }
  }

  /** No module fails exactly when the loop finishes without an exception. */
  lemma {:induction false} LoadSucceedsIff(ms: seq<string>, verbose: bool, shell: Shell)
    ensures LoadModules(ms, verbose, shell).error.None? <==> forall j :: 0 <= j < |ms| ==> !Fails(ms[j], shell)
    decreases |ms|
  {
    if ms != [] {
      var init := ms[..|ms| - 1];
      LoadSucceedsIff(init, verbose, shell);
      assert forall j :: 0 <= j < |init| ==> init[j] == ms[j];
    }
  }

  /** A loop that finishes without an exception has run the planned
      commands in order and printed the planned lines. */
  lemma {:induction false} LoadFollowsPlan(ms: seq<string>, verbose: bool, shell: Shell)
    requires LoadModules(ms, verbose, shell).error.None?
    ensures Commands(LoadModules(ms, verbose, shell).trace) == PlannedCommands(ms, shell)
    ensures Stdout(LoadModules(ms, verbose, shell).trace) == PlannedOutput(ms, verbose, shell)
    decreases |ms|
  {
    if ms != [] {
      var init, m := ms[..|ms| - 1], ms[|ms| - 1];
      var before := LoadModules(init, verbose, shell);
      var step := ModuleStep(m, verbose, shell);
      LoadFollowsPlan(init, verbose, shell);
      ModuleStepObservable(m, verbose, shell);
      CommandsAppend(before.trace, step.trace);
      StdoutAppend(before.trace, step.trace);
    }
  }

  /** Once the loop has raised, the modules after that point change nothing. */
  lemma {:induction false} ErrorSticks(ms: seq<string>, n: nat, verbose: bool, shell: Shell)
    requires n <= |ms| && LoadModules(ms[..n], verbose, shell).error.Some?
    ensures LoadModules(ms, verbose, shell) == LoadModules(ms[..n], verbose, shell)
    decreases |ms|
  {
    if n < |ms| {
      var init := ms[..|ms| - 1];
      assert init[..n] == ms[..n];
      ErrorSticks(init, n, verbose, shell);
    } else {
      assert ms[..n] == ms;
    }
  }

  /** The loop over `ms[..k + 1]` when module `k` is the first to fail. */
  lemma FailingPrefix(ms: seq<string>, verbose: bool, shell: Shell, k: nat)
    requires k < |ms| && Fails(ms[k], shell)
    requires forall j :: 0 <= j < k ==> !Fails(ms[j], shell)
    ensures var before := LoadModules(ms[..k], verbose, shell);
            var step := ModuleStep(ms[k], verbose, shell);
            before.error.None? && step.error.Some? &&
            LoadModules(ms[..k + 1], verbose, shell) == Report(step.error, before.trace + step.trace)
  {
    var init, upto := ms[..k], ms[..k + 1];
    assert upto[..|upto| - 1] == init && upto[|upto| - 1] == ms[k];
    assert forall j :: 0 <= j < |init| ==> !Fails(init[j], shell);
    LoadSucceedsIff(init, verbose, shell);
  }

  /** When module `k` is the first to fail, the loop raises the load error
      for that module with modprobe's return code and output, and runs
      nothing for the modules after it: the run is the one for `ms[..k + 1]`. */
  lemma FirstFailureStops(ms: seq<string>, verbose: bool, shell: Shell, k: nat)
    requires k < |ms| && Fails(ms[k], shell)
    requires forall j :: 0 <= j < k ==> !Fails(ms[j], shell)
    ensures LoadModules(ms, verbose, shell) == LoadModules(ms[..k + 1], verbose, shell)
    ensures var p := shell(LoadCommand(ms[k]));
            LoadModules(ms, verbose, shell).error == Some(LoadFailed(ms[k], p.returncode, p.stdout, p.stderr))
  {
    FailingPrefix(ms, verbose, shell, k);
    ErrorSticks(ms, k + 1, verbose, shell);
  }

  /** When module `k` is the first to fail, the commands run are the planned
      ones for the modules before it, then the check and the load of
      `ms[k]`, and nothing after. */
  lemma FirstFailureCommands(ms: seq<string>, verbose: bool, shell: Shell, k: nat)
    requires k < |ms| && Fails(ms[k], shell)
    requires forall j :: 0 <= j < k ==> !Fails(ms[j], shell)
    ensures Commands(LoadModules(ms, verbose, shell).trace)
            == PlannedCommands(ms[..k], shell) + [CheckCommand(ms[k]), LoadCommand(ms[k])]
  {
    var m := ms[k];
    var before := LoadModules(ms[..k], verbose, shell);
    var step := ModuleStep(m, verbose, shell);
    FailingPrefix(ms, verbose, shell, k);
    FirstFailureStops(ms, verbose, shell, k);
    LoadFollowsPlan(ms[..k], verbose, shell);
    assert LoadModules(ms, verbose, shell).trace == before.trace + step.trace;
    CommandsAppend(before.trace, step.trace);
    ModuleStepObservable(m, verbose, shell);
    assert StepCommands(m, shell) == [CheckCommand(m), LoadCommand(m)];
  }

  /** A string occurs in any string built around it. */
  lemma ContainsMiddle(a: string, x: string, b: string)
    ensures Contains(a + x + b, x)
  {
    assert (a + x + b)[|a|..|a| + |x|] == x;
    assert OccursAt(a + x + b, x, |a|);
    ContainsIff(a + x + b, x);
  }

  /** Both inner pieces occur in a string built around them. */
  lemma ContainsBoth(a: string, x: string, b: string, y: string, c: string)
    ensures Contains(a + x + b + y + c, x) && Contains(a + x + b + y + c, y)
  {
    assert a + x + b + y + c == a + x + (b + y + c);
    ContainsMiddle(a, x, b + y + c);
    ContainsMiddle(a + x + b, y, c);
  }

  /** The load error's message names the module, quoted, and the return code. */
  lemma LoadFailedMessage(m: string, rc: int, out: string, err: string)
    ensures Contains(Message(LoadFailed(m, rc, out, err)), Quote(m))
    ensures Contains(Message(LoadFailed(m, rc, out, err)), "returncode=" + IntToString(rc))
  {
    ContainsBoth("Error when loading module ", Quote(m), ". ", "returncode=" + IntToString(rc),
                 ", stdout=" + Quote(out) + ", stderr=" + Quote(err));
  }

  /** The unsupported-system message names the system, quoted. */
  lemma UnsupportedMessage(sysname: string)
    ensures Contains(Message(Unsupported(sysname)), Quote(sysname))
  {
    ContainsMiddle("Sorry, system_monitor is not implemented for the system ", Quote(sysname), " yet!");
  }

  /** Loading modules runs commands and prints; it samples no provider and
      never sleeps. */
  lemma {:induction false} LoadOutcomeQuiet(sysname: string, ms: seq<string>, verbose: bool, shell: Shell)
    ensures Queries(LoadOutcome(sysname, ms, verbose, shell).trace) == []
    ensures Sleeps(LoadOutcome(sysname, ms, verbose, shell).trace) == 0
  {
    if Contains(sysname, "Linux") {
      LoadModulesQuiet(ms, verbose, shell);
    }
  }

  lemma {:induction false} LoadModulesQuiet(ms: seq<string>, verbose: bool, shell: Shell)
    ensures Queries(LoadModules(ms, verbose, shell).trace) == []
    ensures Sleeps(LoadModules(ms, verbose, shell).trace) == 0
    decreases |ms|
  {
    if ms != [] {
      var before := LoadModules(ms[..|ms| - 1], verbose, shell);
      LoadModulesQuiet(ms[..|ms| - 1], verbose, shell);
      if before.error.None? {
        var step := ModuleStep(ms[|ms| - 1], verbose, shell);
        ModuleStepQuiet(ms[|ms| - 1], verbose, shell);
        QueriesAppend(before.trace, step.trace);
      }
    }
  }

  /** One module's step only runs commands and prints. */
  lemma ModuleStepQuiet(m: string, verbose: bool, shell: Shell)
    ensures Queries(ModuleStep(m, verbose, shell).trace) == []
    ensures Sleeps(ModuleStep(m, verbose, shell).trace) == 0
  {
    var trace := ModuleStep(m, verbose, shell).trace;
    assert forall k :: 0 <= k < |trace| ==> trace[k].Run? || trace[k].Write?;
    StepQuiet(trace);
  }

  lemma {:induction false} StepQuiet(trace: seq<Event>)
    requires forall k :: 0 <= k < |trace| ==> trace[k].Run? || trace[k].Write?
    ensures Queries(trace) == [] && Sleeps(trace) == 0
    decreases |trace|
  {
    if trace != [] {
      StepQuiet(trace[..|trace| - 1]);
    }
  }
}
