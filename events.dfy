/** What the monitor does that can be observed from outside: the shell
    commands it runs, the text it writes to standard output, the system
    queries it makes and the pauses between cycles. A run is a trace of
    these events, in the order they happen. */
module Events {

  /** The library query behind each metric family sampled by the loop. */
  datatype Source =
    | KernelIdentity          // os.uname() and psutil.net_if_addrs()
    | CpuLoad(window: real)   // psutil.cpu_percent(interval=window) blocks for `window` seconds
    | Temperatures            // psutil.sensors_temperatures()
    | Gpus                    // nvitop Device.all() and the per-device readings

  datatype Event =
    | Run(command: string)    // subprocess.run of a command line
    | Write(text: string)     // text written to standard output
    | Query(source: Source)   // one provider sampled
    | Sleep(seconds: real)    // time.sleep

  /** `print(line)`: the line followed by a newline. */
  function Print(line: string): Event {
    Write(line + "\n")
  }

  /** The command lines a trace runs, in order. */
  function Commands(trace: seq<Event>): seq<string> {
    if trace == [] then []
    else Commands(trace[..|trace| - 1]) + (if trace[|trace| - 1].Run? then [trace[|trace| - 1].command] else [])
  }

  /** The text a trace leaves on standard output. */
  function Stdout(trace: seq<Event>): string {
    if trace == [] then ""
    else Stdout(trace[..|trace| - 1]) + (if trace[|trace| - 1].Write? then trace[|trace| - 1].text else "")
  }

  lemma {:induction false} CommandsAppend(a: seq<Event>, b: seq<Event>)
    ensures Commands(a + b) == Commands(a) + Commands(b)
    decreases |b|
  {
    if b == [] {
      assert a + b == a;
    } else {
      assert (a + b)[..|a + b| - 1] == a + b[..|b| - 1];
      CommandsAppend(a, b[..|b| - 1]);
    }
  }

  lemma {:induction false} StdoutAppend(a: seq<Event>, b: seq<Event>)
    ensures Stdout(a + b) == Stdout(a) + Stdout(b)
    decreases |b|
  {
    if b == [] {
      assert a + b == a;
    } else {
      assert (a + b)[..|a + b| - 1] == a + b[..|b| - 1];
      StdoutAppend(a, b[..|b| - 1]);
    }
  }

  /** The providers a trace samples, in order. */
  function Queries(trace: seq<Event>): seq<Source> {
    if trace == [] then []
    else Queries(trace[..|trace| - 1]) + (if trace[|trace| - 1].Query? then [trace[|trace| - 1].source] else [])
  }

  /** How many times a trace pauses. */
  function Sleeps(trace: seq<Event>): nat {
    if trace == [] then 0
    else Sleeps(trace[..|trace| - 1]) + (if trace[|trace| - 1].Sleep? then 1 else 0)
  }

  lemma {:induction false} QueriesAppend(a: seq<Event>, b: seq<Event>)
    ensures Queries(a + b) == Queries(a) + Queries(b)
    ensures Sleeps(a + b) == Sleeps(a) + Sleeps(b)
    decreases |b|
  {
    if b == [] {
      assert a + b == a;
    } else {
      assert (a + b)[..|a + b| - 1] == a + b[..|b| - 1];
      QueriesAppend(a, b[..|b| - 1]);
    }
  }

  /** What one event contributes to each projection. */
  lemma OneEvent(e: Event)
    ensures Commands([e]) == (if e.Run? then [e.command] else [])
    ensures Stdout([e]) == (if e.Write? then e.text else "")
    ensures Queries([e]) == (if e.Query? then [e.source] else [])
    ensures Sleeps([e]) == (if e.Sleep? then 1 else 0)
  {
    assert [e][..0] == [];
  }

  /** The command, query and sleep projections of three traces run one
      after the other. */
  lemma Projections3(a: seq<Event>, b: seq<Event>, c: seq<Event>)
    ensures Commands(a + b + c) == Commands(a) + Commands(b) + Commands(c)
    ensures Queries(a + b + c) == Queries(a) + Queries(b) + Queries(c)
    ensures Sleeps(a + b + c) == Sleeps(a) + Sleeps(b) + Sleeps(c)
  {
    CommandsAppend(a, b);
    CommandsAppend(a + b, c);
    QueriesAppend(a, b);
    QueriesAppend(a + b, c);
  }
}
