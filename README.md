# system_monitor, modelled in Dafny

This project models the core of `system_monitor`, a small Python terminal
monitor. On start-up it reads the host's identity (`os.uname()` and the
network interfaces) into a dict and prints it. It then makes sure the
kernel modules it needs (`drivetemp`) are loaded with `lsmod` and
`modprobe`, and refuses to run on a host that is not Linux. After that it
loops forever: it samples the CPU, the temperature sensors and the GPUs,
prints one block per sample and sleeps for the interval.

The model is split into modules along the program's structure:

- `Maybe`: the `Option` and `Result` wrappers.
- `Strings`: decimal rendering of integers (Python's `str`), substring search (`in`),
  `str.replace` of one character, and joining and splitting lines.
- `Dicts`: a Python dict as an insertion-ordered list of (key, value) pairs.
  `Set` is `d[k] = v`: an existing key keeps its place, a new key goes last.
- `Events`: what the program does that can be observed. It is kept as a
  trace of events: a shell command run, text written to standard output, a
  provider sampled, a sleep. Projections read back the commands, the
  printed text, the sampled providers and the number of sleeps.
- `Bootstrap`: `load_necessary_modules`. The shell is an input function
  from the command text to what `subprocess.run` reports.
- `Providers`: the dict-building providers, namely `get_kernel_info`,
  `get_gpu_info`, `get_disk_info`, `get_process_info` and
  `get_system_uptime`. The library readings (`os.uname`,
  `psutil.net_if_addrs`, `nvitop.Device.all`, `psutil.disk_partitions`,
  `psutil.process_iter`, the boot time and the clock) are inputs.
- `Console`: the printers of `main.py`. Each returns the text it writes.
- `Scheduler`: `main`, meaning start-up and then the sampling cycles, one cycle per sample
  the providers return.

The loops of the source (the module loop, the interface loop, the GPU,
disk and process loops, the printers' loops and `while True`) are methods
with loop invariants. Each method is proved equal to a specification
function, and the lemmas state what the source promises about that
function.

## Model

| member | source | states |
|---|---|---|
| Bootstrap.LoadNecessaryModules | utils/utils_monitor.py:16-37 | the step-by-step procedure (the Linux test, then per module the `lsmod` check, the verbose notices, `modprobe` and the raise on failure or the warning) yields exactly the outcome and trace of the loop's specification |
| Bootstrap.UnsupportedIff | utils/utils_monitor.py:17-18 | the host is refused with the "not implemented" error exactly when `Linux` does not occur in the system name; a refused host runs no command and prints nothing |
| Bootstrap.UnsupportedMessage | utils/utils_monitor.py:37 | the refusal message names the system name, quoted |
| Bootstrap.LoadFailedMessage | utils/utils_monitor.py:32 | the load-failure message names the module, quoted, and `returncode=` with modprobe's return code |
| Bootstrap.LoadModulesOnlyLoadFails | utils/utils_monitor.py:19-35 | the module loop can raise only a load failure, never the refusal |
| Bootstrap.ModuleStepObservable | utils/utils_monitor.py:20-35 | one module runs its check command and then `sudo modprobe -v m` only if the check returned 0; it prints the two verbose lines before loading, or exactly one "not found" warning when the check failed |
| Bootstrap.LoadSucceedsIff | utils/utils_monitor.py:19-35 | the loop finishes without an exception exactly when no module is present but fails to load |
| Bootstrap.LoadFollowsPlan | utils/utils_monitor.py:19-35 | a loop that finishes has run every module's commands in list order and printed every module's lines in list order |
| Bootstrap.ErrorSticks | utils/utils_monitor.py:31-32 | once the loop has raised, the later modules change neither the error nor the trace |
| Bootstrap.FirstFailureStops | utils/utils_monitor.py:30-32 | when module k is the first to fail, the raised error is the load failure of module k with modprobe's return code, stdout and stderr, and the run is the run of the modules up to k |
| Bootstrap.FirstFailureCommands | utils/utils_monitor.py:19-32 | when module k is the first to fail, the commands run are those of the modules before k, then the check and load of module k, and nothing after |
| Bootstrap.LoadOutcomeQuiet | utils/utils_monitor.py:16-37 | loading modules samples no provider and never sleeps |
| Providers.GetKernelInfo | utils/utils_monitor.py:40-54 | the loop of dict assignments builds the specified kernel-info dict, and that dict has no key twice |
| Providers.KernelInfoContents | utils/utils_monitor.py:40-54 | `nodename`, `sysname`, `kernel_version` and `arch` hold the uname fields; `lo` adds no key; each other interface's `_ipv4` key holds its first address when it has one and is absent otherwise, and likewise `_ipv6` with its second address |
| Providers.KernelInfoDistinct | utils/utils_monitor.py:41-53 | no key of the kernel-info dict is assigned twice |
| Providers.InterfaceLookup | utils/utils_monitor.py:48-53 | the lookup of `<iface>_ipv4` / `<iface>_ipv6` on a non-loopback interface finds its first / second address, or nothing when it has too few addresses |
| Providers.LoopbackAbsent | utils/utils_monitor.py:49 | `lo_ipv4` and `lo_ipv6` are never keys of the kernel info |
| Providers.InterfaceKeyOrigin | utils/utils_monitor.py:48-53 | every interface key is the first or second address key of some non-loopback interface that has that address |
| Providers.AddressKeyAbsent | utils/utils_monitor.py:48-53 | an address key is absent when no non-loopback interface of that name has that address |
| Providers.AddressKeyInjective | utils/utils_monitor.py:51-53 | an address key determines both the interface name and whether it holds the first or the second address |
| Providers.AddInterfaceStep | utils/utils_monitor.py:49-53 | one pass of the interface loop appends exactly that interface's entries: every key it assigns is new |
| Providers.NewInterfaceKeysFresh | utils/utils_monitor.py:48-53 | an interface's keys are not yet in the dict built from the interfaces before it |
| Providers.GpuKeyIndex | utils/utils_monitor.py:93 | the device index can be read back from the GPU key `gpu<index>_<name>` |
| Providers.GpuKeyProperties | utils/utils_monitor.py:93 | devices with different indices get different keys whatever their names, and no key holds a space |
| Providers.GetGpuInfo | utils/utils_monitor.py:89-103 | the per-device loop of dict assignments builds the specified GPU dict |
| Providers.GpuInfoPerDevice | utils/utils_monitor.py:89-103 | with distinct device indices the GPU dict has one entry per device, in device order, each under its own key and holding that device's readings, and no key has a space |
| Providers.GpuPairsDistinct | utils/utils_monitor.py:92-93 | with distinct device indices the keys assigned are pairwise distinct |
| Providers.GetDiskInfo | utils/utils_monitor.py:106-117 | the per-partition loop of dict assignments builds the specified disk dict |
| Providers.DiskInfoByMountpoint | utils/utils_monitor.py:109-116 | a mountpoint is a key exactly when some partition is mounted there; a mountpoint listed twice keeps the usage of its last partition, in GiB |
| Providers.DiskInfoSize | utils/utils_monitor.py:109-116 | the disk dict has exactly as many entries as there are distinct mountpoints |
| Providers.GetProcessInfo | utils/utils_monitor.py:128-140 | the loop appends each readable process, passes over the three caught exceptions and lets any other escape, as the process-list specification says |
| Providers.ProcessListOkIff | utils/utils_monitor.py:130-139 | a list is returned exactly when every unreadable process raised NoSuchProcess, AccessDenied or ZombieProcess |
| Providers.ProcessListSelects | utils/utils_monitor.py:130-139 | a returned list is exactly the readable processes, in iteration order |
| Providers.ProcessListFirstFault | utils/utils_monitor.py:130-139 | an escaping exception is that of the first process whose exception is not caught |
| Providers.ProcessErrorSticks | utils/utils_monitor.py:130-139 | once an exception has escaped, later processes change nothing |
| Providers.UptimeParts | utils/utils_monitor.py:178-185 | the float `//` and `%` chain, truncated with `int()`, gives the whole seconds since boot divided into whole days, then the hours (mod 24), minutes (mod 60) and seconds (mod 60) of that count |
| Providers.SystemUptime | utils/utils_monitor.py:185-186 | the dict has the single key `uptime`, and its text `D days, H hours, M minutes, S seconds` reads back as exactly the four numbers of `UptimeParts` |
| Providers.UptimeTextReads | utils/utils_monitor.py:185 | the uptime text reads back as the numbers it was made from, negative days included |
| Providers.UptimeDecomposition | utils/utils_monitor.py:178-186 | the reported hours are below 24, minutes and seconds below 60, and days, hours, minutes and seconds add up to the whole seconds since boot |
| Dicts.SetSpec | utils/utils_monitor.py:51 | `d[k] = v` keeps an existing key in place or appends a new one, makes `k` map to `v`, leaves every other key's value alone and keeps keys distinct |
| Dicts.SetAllLastWins | utils/utils_monitor.py:111 | a run of dict assignments keeps keys distinct, has exactly the old and the assigned keys, and the last assignment to a key wins |
| Dicts.GetAppend | utils/utils_monitor.py:41-53 | looking up a key in a dict extended with new entries finds the old entry first |
| Console.PrintGenericDict | main.py:18-22 | the printer writes one `name['key']: value` line per key, then the `end` line when it is not empty |
| Console.GenericDictShape | main.py:18-22 | read back by lines, the text has one line per key, in key order, showing that key and value, and then the `end` line only when `end` is not empty |
| Console.PrintCpuInfo | main.py:25-29 | the printer writes `CPU  -`, one segment per entry, and one newline |
| Console.CpuInfoShape | main.py:25-29 | the CPU dict prints as exactly one line starting `CPU  -` with one `;` per entry, each entry's segment ending in `;` |
| Console.CpuLineShape | main.py:26-28 | the CPU line holds no newline and one `;` per entry |
| Console.PrintSystemTempInfo | main.py:32-37 | the printer writes the `TEMPS  -` header and one line per sensor chip, built by the inner loop over its readings |
| Console.TempInfoShape | main.py:32-37 | the temperatures print as the header and then exactly one line per chip in key order; a chip's line holds one `;` per reading and is empty exactly when the chip has no reading |
| Console.ChipLineShape | main.py:35-37 | a chip's line holds no newline, one `;` per reading, and is empty exactly when there are no readings |
| Console.PrintGpuInfo | main.py:49-52 | the printer writes one segment per GPU and then one newline |
| Console.GpuInfoShape | main.py:49-52 | the GPUs print as exactly one line, one segment per GPU in key order, each starting with its key and ending in four spaces; with no GPU only the newline is printed |
| Scheduler.RunCycle | main.py:63-77 | one pass of the loop samples and prints the CPU, then the temperatures, then the GPUs, then sleeps for the interval |
| Scheduler.RunCycles | main.py:62-77 | the loop run for the given samples produces one cycle per sample, in order |
| Scheduler.Monitor | main.py:55-77 | `main` reads and prints the kernel info, loads the modules verbosely, prints the separator, then runs the cycles, and stops at an exception from loading |
| Scheduler.StartupOnce | main.py:55-60 | the kernel identity is read and printed first and is never read again; every command of the run comes from loading the modules |
| Scheduler.ErrorMeansNoCycle | main.py:59-77 | an exception while loading means no cycle and no sleep; otherwise the run sleeps once per sample and samples three providers per sample |
| Scheduler.CycleOrder | main.py:59-77 | after a successful start-up, the start-up is a prefix of the run and cycle c occupies the seven events right after the c cycles before it |
| Scheduler.RunOfShape | main.py:55-77 | any run whose module loading samples nothing has this shape: identity first, commands only from loading, no cycle after an error, one full cycle per sample otherwise |
| Scheduler.CycleCounts | main.py:62-77 | over the cycles the monitor sleeps once per cycle, samples three providers per cycle, runs no command and never samples the kernel identity |
| Scheduler.CycleQueryOrder | main.py:63-69 | within the cycles' samples, cycle c samples CPU, temperatures and GPUs in that order |
| Scheduler.ShippedModulesRun | utils/utils_monitor.py:9-37 | with the shipped module list `['drivetemp']`: a host that is not Linux is refused and runs no command; on Linux the run's commands are the `drivetemp` check and the load only after a check that returned 0, and the run reaches the cycles exactly when `drivetemp` does not fail to load |
| Scheduler.CycleSlices | main.py:62-77 | cycle c occupies events 7c to 7c+6 of the cycles |
| Strings.ParseNatToString | utils/utils_monitor.py:93 | parsing the decimal text `str(n)` gives back n |
| Strings.ReadIntOf | utils/utils_monitor.py:185 | `str()` of any integer, followed by a non-digit, is read back as that integer with the rest of the text |
| Strings.ContainsIff | utils/utils_monitor.py:18 | the substring search is true exactly when the pattern occurs at some position |
| Strings.SplitUnlines | main.py:20-22 | text printed as lines without newlines inside splits back into exactly those lines |

## Left out

- The operating system and libraries are not modelled. `os.uname`, `psutil`, `nvitop.Device`, `time.time` and `psutil.boot_time` are inputs.
- The shell is an oracle keyed by the command text. `run_system_command` splits the text on spaces, so `|` and `grep` reach `lsmod` as arguments. The model does not interpret pipes or argument lists.
- Bytes are not decoded. The `stdout` and `stderr` of a command are taken as already decoded strings.
- Floating point is not modelled.
  - Disk sizes in GiB are exact reals (`total / 1073741824`), not IEEE doubles.
  - The uptime arithmetic works on real timestamps.
  - CPU and temperature readings appear only as the text `print` renders for them.
  - A process reading is a record of typed values: `pid` a natural number, `memory_percent` and `cpu_percent` exact reals. The process list is never printed.
- Console.GpuSegment: `%.1f` of the temperature is modelled for whole-number temperatures only. It prints the integer followed by `.0`, which is what nvitop's integer reading gives.
- `get_memory_info`, `get_load_average`, `get_network_info`, `get_disk_io_counters` and `get_net_io_counters` are not part of this model. `main` never calls them. Each one only copies library fields into a dict.
- `get_cpu_info` and `get_system_temperature_info` are a dict literal of three readings and a pass-through. They appear as `Scheduler.CpuInfo` and as the temperature sample. Neither has a contract of its own.
- `parse_args` (argparse) is not modelled. The interval is a parameter.
- `while True` never ends. The model runs one cycle per sample given, so it covers every prefix of a run that ends at a cycle boundary, or at the exception from loading modules. It does not cover the infinite run or a run cut off inside a cycle.
- `time.sleep(interval)` and the wait of `psutil.cpu_percent(interval=interval)` take no time in the model. `main` passes the configured interval to both. Each is an event in the trace that carries the interval.
- Scheduler.MonitorRun takes the module list as a parameter. The source always uses `ubuntu_modules`, which is `Bootstrap.UbuntuModules`; `Scheduler.ShippedModulesRun` states the run for that list.
- Providers.GetGpuInfo builds each device's entry in one value. The source assigns it field by field into an empty dict. Both give the same entry.
- The `device` object stored in the GPU entry is represented by the reading it came from.
- `print_gpu_info`'s commented-out per-field printer is not modelled, and neither is `main`'s commented-out memory and wandb logging. Neither ever runs.
- Providers.GpuInfoPerDevice assumes that device indices are distinct, as NVML numbers them. With repeated indices and equal names, later devices overwrite earlier ones, which `Dicts.SetAllLastWins` describes.
- Providers.GetKernelInfo assumes that interface names are distinct. They are, because `psutil.net_if_addrs()` returns a dict.
- Exceptions raised by the library calls themselves are not modelled. The exceptions that are modelled are the start-up exceptions and the ones met while reading a process's record.
