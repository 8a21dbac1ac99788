/** The metric providers of utils/utils_monitor.py. Every operating-system
    or library query (os.uname, psutil, nvitop) is an input here; what is
    modelled is how each provider shapes those readings into the dicts and
    lists it returns. */
module Providers {
  import opened Maybe
  import opened Strings
  import opened Dicts

  // ----- get_kernel_info -----

  /** The fields of `os.uname()` the monitor reads. */
  datatype Uname = Uname(nodename: string, sysname: string, release: string, machine: string)

  /** The four identity entries every kernel-info dict starts with. */
  function IdentityInfo(u: Uname): Dict<string> {
    [("nodename", u.nodename), ("sysname", u.sysname), ("kernel_version", u.release), ("arch", u.machine)]
  }

  /** The entries interface `iface` with addresses `addrs` adds: none for the
      loopback interface; otherwise its first address as `<iface>_ipv4` and
      its second as `<iface>_ipv6`, when it has them. */
  function InterfaceEntries(iface: string, addrs: seq<string>): Dict<string> {
    if iface == "lo" then []
    else (if |addrs| > 0 then [(iface + "_ipv4", addrs[0])] else [])
         + (if |addrs| > 1 then [(iface + "_ipv6", addrs[1])] else [])
  }

  /** The entries of all interfaces, in the order `psutil.net_if_addrs()`
      lists them. */
  function AllInterfaceEntries(ifaces: Dict<seq<string>>): Dict<string> {
    if ifaces == [] then []
    else AllInterfaceEntries(ifaces[..|ifaces| - 1])
         + InterfaceEntries(ifaces[|ifaces| - 1].0, ifaces[|ifaces| - 1].1)
  }

  /** The dict `get_kernel_info` returns, for the uname `u` and the interface
      address lists `ifaces` (interface name to the `.address` of each entry). */
  function KernelInfo(u: Uname, ifaces: Dict<seq<string>>): Dict<string> {
    IdentityInfo(u) + AllInterfaceEntries(ifaces)
  }

  /** `"_ipv4"` for the first address, `"_ipv6"` for the second. */
  function AddressSuffix(n: nat): (s: string)
    ensures |s| == 5 && s[4] == (if n == 0 then '4' else '6')
  {
    if n == 0 then "_ipv4" else "_ipv6"
  }

  /** An interface key tells both the interface and which of its addresses
      it holds. */
  lemma AddressKeyInjective(a: string, m: nat, b: string, n: nat)
    ensures a + AddressSuffix(m) == b + AddressSuffix(n) <==> a == b && (m == 0 <==> n == 0)
  {
    var x, y := a + AddressSuffix(m), b + AddressSuffix(n);
    if x == y {
      assert x[|x| - 1] == AddressSuffix(m)[4];
      assert y[|y| - 1] == AddressSuffix(n)[4];
      assert a == x[..|a|];
      assert b == y[..|b|];
    }
  }

  /** No interface key is one of the identity keys. */
  lemma AddressKeyNotIdentity(u: Uname, name: string, n: nat)
    ensures name + AddressSuffix(n) !in Keys(IdentityInfo(u))
  {
    var k := name + AddressSuffix(n);
    var ids := Keys(IdentityInfo(u));
    assert k[|k| - 1] in {'4', '6'};
    forall i | 0 <= i < |ids| ensures ids[i] != k {
      var s := ids[i];
      assert s[|s| - 1] in {'e', 'n', 'h'};
    }
  }

  /** The entries one interface adds, position by position: the p-th is its
      p-th address under the key with the p-th suffix, for at most two
      addresses, and the loopback interface adds none. */
  lemma InterfaceEntriesShape(iface: string, addrs: seq<string>)
    ensures |InterfaceEntries(iface, addrs)|
            == if iface == "lo" then 0 else if |addrs| < 2 then |addrs| else 2
    ensures forall p :: 0 <= p < |InterfaceEntries(iface, addrs)| ==>
              InterfaceEntries(iface, addrs)[p] == (iface + AddressSuffix(p), addrs[p])
  {
  }

  /** Every key of the interface entries is the key of an address some
      non-loopback interface has. */
  lemma {:induction false} InterfaceKeyOrigin(ifaces: Dict<seq<string>>, k: string)
    requires k in Keys(AllInterfaceEntries(ifaces))
    ensures exists j, m: nat :: 0 <= j < |ifaces| && m < 2 && m < |ifaces[j].1| &&
              ifaces[j].0 != "lo" && k == ifaces[j].0 + AddressSuffix(m)
    decreases |ifaces|
  {
    var init, last := ifaces[..|ifaces| - 1], ifaces[|ifaces| - 1];
    var added := InterfaceEntries(last.0, last.1);
    assert Keys(AllInterfaceEntries(ifaces)) == Keys(AllInterfaceEntries(init)) + Keys(added);
    if k in Keys(AllInterfaceEntries(init)) {
      InterfaceKeyOrigin(init, k);
      var j, m: nat :| 0 <= j < |init| && m < 2 && m < |init[j].1| &&
                  init[j].0 != "lo" && k == init[j].0 + AddressSuffix(m);
      assert ifaces[j] == init[j];
    } else {
      InterfaceEntriesShape(last.0, last.1);
      var p :| 0 <= p < |added| && added[p].0 == k;
      assert k == ifaces[|ifaces| - 1].0 + AddressSuffix(p);
    }
  }

  /** A key for the n-th address of `name` is absent from the kernel info
      when no non-loopback interface of that name has an n-th address. */
  lemma AddressKeyAbsent(u: Uname, ifaces: Dict<seq<string>>, name: string, n: nat)
    requires n < 2
    requires forall j :: 0 <= j < |ifaces| && ifaces[j].0 == name ==> name == "lo" || n >= |ifaces[j].1|
    ensures name + AddressSuffix(n) !in Keys(KernelInfo(u, ifaces))
  {
    var k := name + AddressSuffix(n);
    KeysAppend(IdentityInfo(u), AllInterfaceEntries(ifaces));
    AddressKeyNotIdentity(u, name, n);
    if k in Keys(AllInterfaceEntries(ifaces)) {
      InterfaceKeyOrigin(ifaces, k);
      var j, m: nat :| 0 <= j < |ifaces| && m < 2 && m < |ifaces[j].1| &&
                  ifaces[j].0 != "lo" && k == ifaces[j].0 + AddressSuffix(m);
      AddressKeyInjective(name, n, ifaces[j].0, m);
      assert false;
    }
  }

  /** The keys interface `i` adds are not yet in the dict built from the
      interfaces before it. */
  lemma NewInterfaceKeysFresh(u: Uname, ifaces: Dict<seq<string>>, i: nat, n: nat)
    requires DistinctKeys(ifaces) && i < |ifaces| && n < 2
    ensures ifaces[i].0 + AddressSuffix(n) !in Keys(KernelInfo(u, ifaces[..i]))
  {
    var init := ifaces[..i];
    assert forall j :: 0 <= j < |init| ==> init[j].0 != ifaces[i].0;
    AddressKeyAbsent(u, init, ifaces[i].0, n);
  }

  /** What the body of the interface loop does to the dict for one
      interface: skip `lo`; otherwise assign `<iface>_ipv4` to the first
      address and `<iface>_ipv6` to the second, when there are such. */
  function AddInterface(info: Dict<string>, iface: string, addrs: seq<string>): Dict<string> {
    if iface == "lo" then info
    else
      var withV4 := if |addrs| > 0 then Set(info, iface + "_ipv4", addrs[0]) else info;
      if |addrs| > 1 then Set(withV4, iface + "_ipv6", addrs[1]) else withV4
  }

  /** The entries interface `i` adds have distinct keys, none of them
      already in the dict built from the interfaces before it. */
  lemma InterfaceEntriesFresh(u: Uname, ifaces: Dict<seq<string>>, i: nat)
    requires DistinctKeys(ifaces) && i < |ifaces|
    ensures var added := InterfaceEntries(ifaces[i].0, ifaces[i].1);
            DistinctKeys(added) &&
            forall p :: 0 <= p < |added| ==> added[p].0 !in Keys(KernelInfo(u, ifaces[..i]))
  {
    var iface, addrs := ifaces[i].0, ifaces[i].1;
    var added := InterfaceEntries(iface, addrs);
    InterfaceEntriesShape(iface, addrs);
    forall p | 0 <= p < |added| ensures added[p].0 !in Keys(KernelInfo(u, ifaces[..i])) {
      NewInterfaceKeysFresh(u, ifaces, i, p);
    }
    AddressKeyInjective(iface, 0, iface, 1);
  }

  /** Each loop step extends the kernel info by exactly the entries of the
      next interface: the keys it assigns are all new. */
  lemma AddInterfaceStep(u: Uname, ifaces: Dict<seq<string>>, i: nat)
    requires DistinctKeys(ifaces) && i < |ifaces|
    ensures AddInterface(KernelInfo(u, ifaces[..i]), ifaces[i].0, ifaces[i].1)
            == KernelInfo(u, ifaces[..i + 1])
  {
    var info, iface, addrs := KernelInfo(u, ifaces[..i]), ifaces[i].0, ifaces[i].1;
    var added := InterfaceEntries(iface, addrs);
    assert ifaces[..i + 1][..i] == ifaces[..i];
    SeqAssoc(IdentityInfo(u), AllInterfaceEntries(ifaces[..i]), added);
    assert KernelInfo(u, ifaces[..i + 1]) == info + added;
    if iface != "lo" && |addrs| > 0 {
      InterfaceEntriesFresh(u, ifaces, i);
      InterfaceEntriesShape(iface, addrs);
      var e4 := added[0];
      assert e4 == (iface + "_ipv4", addrs[0]);
      var withV4 := info + [e4];
      assert Set(info, e4.0, e4.1) == withV4;
      if |addrs| > 1 {
        var e6 := added[1];
        assert e6 == (iface + "_ipv6", addrs[1]);
        assert e6.0 !in Keys(withV4) by {
          assert Keys(withV4) == Keys(info) + [e4.0];
        }
        assert Set(withV4, e6.0, e6.1) == withV4 + [e6];
        assert added == [e4, e6];
        SeqAssoc(info, [e4], [e6]);
      } else {
        assert added == [e4];
      }
    }
  }

  /** `get_kernel_info`: the identity entries, then for each interface in
      order the entries it adds, each written with a dict assignment. */
  method GetKernelInfo(u: Uname, ifaces: Dict<seq<string>>) returns (info: Dict<string>)
    requires DistinctKeys(ifaces)
    ensures info == KernelInfo(u, ifaces)
    ensures DistinctKeys(info)
  {
    info := [("nodename", u.nodename), ("sysname", u.sysname), ("kernel_version", u.release), ("arch", u.machine)];
    var i := 0;
    while i < |ifaces|
      invariant 0 <= i <= |ifaces|
      invariant info == KernelInfo(u, ifaces[..i])
    {
      var iface, addrs := ifaces[i].0, ifaces[i].1;
      if iface != "lo" {
        if |addrs| > 0 {
          info := Set(info, iface + "_ipv4", addrs[0]);
        }
        if |addrs| > 1 {
          info := Set(info, iface + "_ipv6", addrs[1]);
        }
      }
      AddInterfaceStep(u, ifaces, i);
      i := i + 1;
    }
    assert ifaces[..|ifaces|] == ifaces;
    KernelInfoDistinct(u, ifaces);
  }

  /** A dict built by `get_kernel_info` has no key twice. */
  lemma {:induction false} KernelInfoDistinct(u: Uname, ifaces: Dict<seq<string>>)
    requires DistinctKeys(ifaces)
    ensures DistinctKeys(KernelInfo(u, ifaces))
    decreases |ifaces|
  {
    if ifaces != [] {
      var n := |ifaces| - 1;
      var init := ifaces[..n];
      assert DistinctKeys(init) by {
        forall a, b | 0 <= a < b < |init| ensures init[a].0 != init[b].0 {
          assert init[a] == ifaces[a] && init[b] == ifaces[b];
        }
      }
      KernelInfoDistinct(u, init);
      InterfaceEntriesFresh(u, ifaces, n);
      var added := InterfaceEntries(ifaces[n].0, ifaces[n].1);
      SeqAssoc(IdentityInfo(u), AllInterfaceEntries(init), added);
      DistinctAppend(KernelInfo(u, init), added);
    }
  }

  /** The n-th address of a non-loopback interface is among the interface
      entries under its key. */
  lemma {:induction false} InterfacePairPresent(ifaces: Dict<seq<string>>, j: nat, n: nat)
    requires j < |ifaces| && ifaces[j].0 != "lo" && n <= 1 && n < |ifaces[j].1|
    ensures (ifaces[j].0 + AddressSuffix(n), ifaces[j].1[n]) in AllInterfaceEntries(ifaces)
    decreases |ifaces|
  {
    var init := ifaces[..|ifaces| - 1];
    if j < |init| {
      assert init[j] == ifaces[j];
      InterfacePairPresent(init, j, n);
    } else {
      InterfaceEntriesShape(ifaces[j].0, ifaces[j].1);
    }
  }

  /** Looking up `<iface>_ipv4` (n = 0) or `<iface>_ipv6` (n = 1) for an
      interface that is not the loopback finds its n-th address when it has
      one, and nothing otherwise. */
  lemma InterfaceLookup(u: Uname, ifaces: Dict<seq<string>>, j: nat, n: nat)
    requires DistinctKeys(ifaces) && j < |ifaces| && ifaces[j].0 != "lo" && n <= 1
    ensures Get(KernelInfo(u, ifaces), ifaces[j].0 + AddressSuffix(n))
            == if n < |ifaces[j].1| then Some(ifaces[j].1[n]) else None
  {
    var info := KernelInfo(u, ifaces);
    var name, addrs := ifaces[j].0, ifaces[j].1;
    var k := name + AddressSuffix(n);
    if n < |addrs| {
      KernelInfoDistinct(u, ifaces);
      InterfacePairPresent(ifaces, j, n);
      var p :| 0 <= p < |AllInterfaceEntries(ifaces)| && AllInterfaceEntries(ifaces)[p] == (k, addrs[n]);
      assert info[4 + p] == (k, addrs[n]);
      GetAt(info, 4 + p);
    } else {
      assert forall i :: 0 <= i < |ifaces| && ifaces[i].0 == name ==> i == j;
      AddressKeyAbsent(u, ifaces, name, n);
    }
  }

  /** The loopback interface never contributes a key. */
  lemma LoopbackAbsent(u: Uname, ifaces: Dict<seq<string>>, n: nat)
    requires n <= 1
    ensures "lo" + AddressSuffix(n) !in Keys(KernelInfo(u, ifaces))
  {
    AddressKeyAbsent(u, ifaces, "lo", n);
  }

  /** What `get_kernel_info` promises: the four identity keys are always
      there with the uname fields; `lo` contributes no key; an interface
      with at least one address has `<iface>_ipv4` = its first address, one
      with at least two has `<iface>_ipv6` = its second, and otherwise the
      key is absent; and the result has no key twice. */
  lemma KernelInfoContents(u: Uname, ifaces: Dict<seq<string>>)
    requires DistinctKeys(ifaces)
    ensures DistinctKeys(KernelInfo(u, ifaces))
    ensures Get(KernelInfo(u, ifaces), "nodename") == Some(u.nodename)
    ensures Get(KernelInfo(u, ifaces), "sysname") == Some(u.sysname)
    ensures Get(KernelInfo(u, ifaces), "kernel_version") == Some(u.release)
    ensures Get(KernelInfo(u, ifaces), "arch") == Some(u.machine)
    ensures "lo_ipv4" !in Keys(KernelInfo(u, ifaces)) && "lo_ipv6" !in Keys(KernelInfo(u, ifaces))
    ensures forall j :: 0 <= j < |ifaces| && ifaces[j].0 != "lo" ==>
              Get(KernelInfo(u, ifaces), ifaces[j].0 + "_ipv4")
                == (if |ifaces[j].1| > 0 then Some(ifaces[j].1[0]) else None)
    ensures forall j :: 0 <= j < |ifaces| && ifaces[j].0 != "lo" ==>
              Get(KernelInfo(u, ifaces), ifaces[j].0 + "_ipv6")
                == (if |ifaces[j].1| > 1 then Some(ifaces[j].1[1]) else None)
  {
    var info := KernelInfo(u, ifaces);
    KernelInfoDistinct(u, ifaces);
    forall i | 0 <= i < 4 ensures Get(info, info[i].0) == Some(info[i].1) {
      GetAt(info, i);
    }
    assert info[0] == ("nodename", u.nodename) && info[1] == ("sysname", u.sysname);
    assert info[2] == ("kernel_version", u.release) && info[3] == ("arch", u.machine);
    LoopbackAbsent(u, ifaces, 0);
    LoopbackAbsent(u, ifaces, 1);
    assert "lo" + AddressSuffix(0) == "lo_ipv4" && "lo" + AddressSuffix(1) == "lo_ipv6";
    forall j | 0 <= j < |ifaces| && ifaces[j].0 != "lo"
      ensures Get(info, ifaces[j].0 + "_ipv4") == (if |ifaces[j].1| > 0 then Some(ifaces[j].1[0]) else None)
      ensures Get(info, ifaces[j].0 + "_ipv6") == (if |ifaces[j].1| > 1 then Some(ifaces[j].1[1]) else None)
    {
      InterfaceLookup(u, ifaces, j, 0);
      InterfaceLookup(u, ifaces, j, 1);
      assert AddressSuffix(0) == "_ipv4" && AddressSuffix(1) == "_ipv6";
    }
  }

  // ----- get_gpu_info -----

  /** What nvitop reports for one device. */
  datatype DeviceReading = DeviceReading(
    index: nat, name: string, processes: seq<nat>, fanSpeed: int, temperature: int,
    gpuUtilization: int, memoryTotalHuman: string, memoryUsedHuman: string, memoryFreeHuman: string)

  /** The per-device dict: the device itself and the seven readings taken
      from it. */
  datatype GpuEntry = GpuEntry(
    device: DeviceReading, processes: seq<nat>, fanSpeed: int, temperature: int,
    gpuUtilization: int, memoryTotalHuman: string, memoryUsedHuman: string, memoryFreeHuman: string)

  function EntryOf(d: DeviceReading): GpuEntry {
    GpuEntry(d, d.processes, d.fanSpeed, d.temperature, d.gpuUtilization,
             d.memoryTotalHuman, d.memoryUsedHuman, d.memoryFreeHuman)
  }

  /** `'gpu' + str(index) + '_' + name.replace(' ', '_')`. */
  function GpuKey(index: nat, name: string): string {
    "gpu" + NatToString(index) + "_" + ReplaceChar(name, ' ', '_')
  }

  /** Reads the device index back out of a GPU key: the digits between the
      `gpu` prefix and the first non-digit. */
  function KeyIndex(key: string): Option<nat> {
    if |key| < 3 || key[..3] != "gpu" then None
    else
      var digits := DigitPrefix(key[3..]);
      if digits == [] then None else Some(ParseNat(digits))
  }

  /** The key determines the device index: `KeyIndex` undoes `GpuKey`. */
  lemma GpuKeyIndex(index: nat, name: string)
    ensures KeyIndex(GpuKey(index, name)) == Some(index)
  {
    var key := GpuKey(index, name);
    var digits, rest := NatToString(index), "_" + ReplaceChar(name, ' ', '_');
    assert key == "gpu" + (digits + rest);
    assert key[..3] == "gpu" && key[3..] == digits + rest;
    DigitPrefixOf(digits, rest);
    ParseNatToString(index);
  }

  /** Devices with different indices get different keys, whatever their
      names; and no key holds a space. */
  lemma GpuKeyProperties(i: nat, a: string, j: nat, b: string)
    ensures i != j ==> GpuKey(i, a) != GpuKey(j, b)
    ensures ' ' !in GpuKey(i, a)
  {
    GpuKeyIndex(i, a);
    GpuKeyIndex(j, b);
    var digits, name := NatToString(i), ReplaceChar(a, ' ', '_');
    assert GpuKey(i, a) == "gpu" + digits + "_" + name;
    assert forall p :: 0 <= p < |digits| ==> digits[p] != ' ';
  }

  /** The (key, entry) pairs `get_gpu_info` assigns, one per device in the
      order `Device.all()` lists them. */
  function GpuPairs(devices: seq<DeviceReading>): Dict<GpuEntry> {
    seq(|devices|, i requires 0 <= i < |devices| => (GpuKey(devices[i].index, devices[i].name), EntryOf(devices[i])))
  }

  /** The dict `get_gpu_info` returns. */
  function GpuInfo(devices: seq<DeviceReading>): Dict<GpuEntry> {
    SetAll([], GpuPairs(devices))
  }

  /** `get_gpu_info`: one dict assignment per device, in device order. */
  method GetGpuInfo(devices: seq<DeviceReading>) returns (info: Dict<GpuEntry>)
    ensures info == GpuInfo(devices)
  {
    info := [];
    var i := 0;
    while i < |devices|
      invariant 0 <= i <= |devices|
      invariant info == GpuInfo(devices[..i])
    {
      var device := devices[i];
      var gpuName := GpuKey(device.index, device.name);
      assert GpuPairs(devices[..i + 1]) == GpuPairs(devices[..i]) + [(gpuName, EntryOf(device))];
      info := Set(info, gpuName, EntryOf(device));
      i := i + 1;
    }
    assert devices[..|devices|] == devices;
  }

  /** Devices with distinct indices give pairwise distinct keys. */
  lemma GpuPairsDistinct(devices: seq<DeviceReading>)
    requires forall i, j :: 0 <= i < j < |devices| ==> devices[i].index != devices[j].index
    ensures DistinctKeys(GpuPairs(devices))
  {
    var pairs := GpuPairs(devices);
    forall i, j | 0 <= i < j < |pairs| ensures pairs[i].0 != pairs[j].0 {
      GpuKeyProperties(devices[i].index, devices[i].name, devices[j].index, devices[j].name);
    }
  }

  /** Each device's entry is found under its own key. */
  lemma GpuPairsLookup(devices: seq<DeviceReading>, i: nat)
    requires forall i, j :: 0 <= i < j < |devices| ==> devices[i].index != devices[j].index
    requires i < |devices|
    ensures Get(GpuPairs(devices), GpuKey(devices[i].index, devices[i].name)) == Some(EntryOf(devices[i]))
  {
    GpuPairsDistinct(devices);
    GetAt(GpuPairs(devices), i);
  }

  /** When the device indices are distinct (as NVML numbers them), the GPU
      dict holds exactly one entry per device, in device order, each under
      the device's key and holding that device's readings; and no key has a
      space. */
  lemma GpuInfoPerDevice(devices: seq<DeviceReading>)
    requires forall i, j :: 0 <= i < j < |devices| ==> devices[i].index != devices[j].index
    ensures GpuInfo(devices) == GpuPairs(devices)
    ensures |GpuInfo(devices)| == |devices|
    ensures forall i :: 0 <= i < |devices| ==>
              Get(GpuInfo(devices), GpuKey(devices[i].index, devices[i].name)) == Some(EntryOf(devices[i]))
    ensures forall k :: k in Keys(GpuInfo(devices)) ==> ' ' !in k
  {
    var pairs := GpuPairs(devices);
    GpuPairsDistinct(devices);
    assert [] + pairs == pairs;
    SetAllFresh([], pairs);
    forall i | 0 <= i < |devices|
      ensures Get(pairs, GpuKey(devices[i].index, devices[i].name)) == Some(EntryOf(devices[i]))
    {
      GpuPairsLookup(devices, i);
    }
    GpuKeysNoSpace(devices);
  }

  lemma GpuKeysNoSpace(devices: seq<DeviceReading>)
    ensures forall k :: k in Keys(GpuPairs(devices)) ==> ' ' !in k
  {
    var pairs := GpuPairs(devices);
    forall i | 0 <= i < |pairs| ensures ' ' !in pairs[i].0 {
      GpuKeyProperties(devices[i].index, devices[i].name, 0, "");
    }
  }

  // ----- get_disk_info -----

  /** `psutil.disk_usage(mountpoint)`, in bytes. */
  datatype DiskUsage = DiskUsage(total: nat, used: nat, free: nat, percent: real)

  /** A partition of `psutil.disk_partitions()` and the usage read for its
      mountpoint. */
  datatype Partition = Partition(mountpoint: string, usage: DiskUsage)

  /** The per-mountpoint dict: sizes in GiB (`/ (1024.0 ** 3)`) and the
      usage percentage. */
  datatype DiskEntry = DiskEntry(totalSpace: real, usedSpace: real, freeSpace: real, usagePercentage: real)

  const GiB: real := 1073741824.0

  function DiskEntryOf(u: DiskUsage): DiskEntry {
    DiskEntry(u.total as real / GiB, u.used as real / GiB, u.free as real / GiB, u.percent)
  }

  function DiskPairs(parts: seq<Partition>): Dict<DiskEntry> {
    seq(|parts|, i requires 0 <= i < |parts| => (parts[i].mountpoint, DiskEntryOf(parts[i].usage)))
  }

  /** The dict `get_disk_info` returns. */
  function DiskInfo(parts: seq<Partition>): Dict<DiskEntry> {
    SetAll([], DiskPairs(parts))
  }

  /** `get_disk_info`: one dict assignment per partition, keyed by mountpoint. */
  method GetDiskInfo(parts: seq<Partition>) returns (info: Dict<DiskEntry>)
    ensures info == DiskInfo(parts)
  {
    info := [];
    var i := 0;
    while i < |parts|
      invariant 0 <= i <= |parts|
      invariant info == DiskInfo(parts[..i])
    {
      var partition := parts[i];
      var usage := partition.usage;
      assert DiskPairs(parts[..i + 1]) == DiskPairs(parts[..i]) + [(partition.mountpoint, DiskEntryOf(usage))];
      info := Set(info, partition.mountpoint, DiskEntryOf(usage));
      i := i + 1;
    }
    assert parts[..|parts|] == parts;
  }

  function Mountpoints(parts: seq<Partition>): (mps: seq<string>)
    ensures Keys(DiskPairs(parts)) == mps
  {
    seq(|parts|, i requires 0 <= i < |parts| => parts[i].mountpoint)
  }

  /** A mountpoint is in the disk dict exactly when some partition is
      mounted there, and a mountpoint listed more than once keeps the usage
      of its LAST partition. */
  lemma DiskInfoByMountpoint(parts: seq<Partition>, mp: string)
    ensures DistinctKeys(DiskInfo(parts))
    ensures mp in Keys(DiskInfo(parts)) <==> mp in Mountpoints(parts)
    ensures forall i :: 0 <= i < |parts| && parts[i].mountpoint == mp &&
                        (forall j :: i < j < |parts| ==> parts[j].mountpoint != mp) ==>
                        Get(DiskInfo(parts), mp) == Some(DiskEntryOf(parts[i].usage))
  {
    var pairs := DiskPairs(parts);
    SetAllKeys([], pairs, mp);
    forall i | 0 <= i < |parts| && parts[i].mountpoint == mp &&
               (forall j :: i < j < |parts| ==> parts[j].mountpoint != mp)
      ensures Get(DiskInfo(parts), mp) == Some(DiskEntryOf(parts[i].usage))
    {
      assert pairs[i] == (mp, DiskEntryOf(parts[i].usage));
      assert forall j :: i < j < |pairs| ==> pairs[j].0 == parts[j].mountpoint;
      SetAllLast([], pairs, i);
    }
  }

  lemma DiskKeys(parts: seq<Partition>)
    ensures DistinctKeys(DiskInfo(parts))
    ensures forall x :: x in Keys(DiskInfo(parts)) <==> x in Mountpoints(parts)
  {
    SetAllLastWins([], DiskPairs(parts), "");
    forall x ensures x in Keys(DiskInfo(parts)) <==> x in Mountpoints(parts) {
      SetAllLastWins([], DiskPairs(parts), x);
    }
  }

  /** The disk dict has as many entries as there are distinct mountpoints. */
  lemma DiskInfoSize(parts: seq<Partition>)
    ensures |DiskInfo(parts)| == |set i | 0 <= i < |parts| :: parts[i].mountpoint|
  {
    var info, mps := DiskInfo(parts), Mountpoints(parts);
    DiskKeys(parts);
    DistinctKeysSize(info);
    var keys := set i | 0 <= i < |info| :: info[i].0;
    var named := set i | 0 <= i < |parts| :: parts[i].mountpoint;
    forall x ensures x in keys <==> x in named {
      if x in named {
        var i :| 0 <= i < |parts| && parts[i].mountpoint == x;
        assert mps[i] == x;
        assert x in Keys(info);
        var j :| 0 <= j < |info| && Keys(info)[j] == x;
      }
      if x in keys {
        var j :| 0 <= j < |info| && info[j].0 == x;
        assert Keys(info)[j] == x;
        assert x in mps;
        var i :| 0 <= i < |parts| && mps[i] == x;
      }
    }
    assert keys == named;
  }

  // ----- get_process_info -----

  /** The four fields read from `process.info`. */
  datatype ProcessInfo = ProcessInfo(pid: nat, name: string, memoryPercent: real, cpuPercent: real)

  /** What reading a process's record can raise. */
  datatype ProcessFault = NoSuchProcess | AccessDenied | ZombieProcess | OtherFault(kind: string)

  /** One process from `psutil.process_iter`: its record, or the exception
      reading it raises. */
  datatype ProcessRecord = Readable(info: ProcessInfo) | Faulty(fault: ProcessFault)

  /** The three exceptions the `except` clause catches. */
  predicate Skipped(f: ProcessFault) {
    f.NoSuchProcess? || f.AccessDenied? || f.ZombieProcess?
  }

  /** What `get_process_info` returns for the processes `records`, or the
      exception that escapes it. */
  function ProcessList(records: seq<ProcessRecord>): Result<seq<ProcessInfo>, ProcessFault> {
    if records == [] then Ok([])
    else
      match ProcessList(records[..|records| - 1])
      case Err(f) => Err(f)
      case Ok(kept) =>
        match records[|records| - 1]
        case Readable(p) => Ok(kept + [p])
        case Faulty(f) => if Skipped(f) then Ok(kept) else Err(f)
  }

  /** `get_process_info`: append each readable record, pass over the three
      caught exceptions, let any other one escape. */
  method GetProcessInfo(records: seq<ProcessRecord>) returns (r: Result<seq<ProcessInfo>, ProcessFault>)
    ensures r == ProcessList(records)
  {
    var processInfo: seq<ProcessInfo> := [];
    var i := 0;
    while i < |records|
      invariant 0 <= i <= |records|
      invariant ProcessList(records[..i]) == Ok(processInfo)
    {
      assert records[..i + 1][..i] == records[..i];
      match records[i] {
        case Readable(p) =>
          processInfo := processInfo + [p];
        case Faulty(f) =>
          if !Skipped(f) {
            ProcessErrorSticks(records, i + 1);
            return Err(f);
          }
      }
      i := i + 1;
    }
    assert records[..|records|] == records;
    return Ok(processInfo);
  }

  /** Once an exception has escaped, later processes change nothing. */
  lemma {:induction false} ProcessErrorSticks(records: seq<ProcessRecord>, n: nat)
    requires n <= |records| && ProcessList(records[..n]).Err?
    ensures ProcessList(records) == ProcessList(records[..n])
    decreases |records|
  {
    if n < |records| {
      var init := records[..|records| - 1];
      assert init[..n] == records[..n];
      ProcessErrorSticks(init, n);
    } else {
      assert records[..n] == records;
    }
  }

  /** `kept` is `records` with the faulty records removed: `idx` gives, for
      each kept process, the position of its record; the positions increase
      (order is preserved) and cover every readable record. */
  ghost predicate SelectsReadable(records: seq<ProcessRecord>, kept: seq<ProcessInfo>, idx: seq<int>) {
    && |idx| == |kept|
    && (forall k :: 0 <= k < |idx| ==> 0 <= idx[k] < |records| && records[idx[k]] == Readable(kept[k]))
    && (forall k, l :: 0 <= k < l < |idx| ==> idx[k] < idx[l])
    && (forall i :: 0 <= i < |records| && records[i].Readable? ==> i in idx)
  }

  /** The process list is returned exactly when every faulty record raised
      one of the three caught exceptions. */
  lemma {:induction false} ProcessListOkIff(records: seq<ProcessRecord>)
    ensures ProcessList(records).Ok? <==>
            forall i :: 0 <= i < |records| && records[i].Faulty? ==> Skipped(records[i].fault)
    decreases |records|
  {
    if records != [] {
      var n := |records| - 1;
      ProcessListOkIff(records[..n]);
      assert forall i :: 0 <= i < n ==> records[..n][i] == records[i];
    }
  }

  /** Appending one record extends a selection of the readable records. */
  lemma SelectsAppend(init: seq<ProcessRecord>, kept: seq<ProcessInfo>, idx: seq<int>, last: ProcessRecord)
    requires SelectsReadable(init, kept, idx)
    ensures last.Readable? ==> SelectsReadable(init + [last], kept + [last.info], idx + [|init|])
    ensures last.Faulty? ==> SelectsReadable(init + [last], kept, idx)
  {
    var records := init + [last];
    assert forall i :: 0 <= i < |init| ==> records[i] == init[i];
    forall i | 0 <= i < |records| && records[i].Readable? && i < |init| ensures i in idx {
      assert init[i].Readable?;
    }
  }

  /** A returned process list is the readable records, in iteration order. */
  lemma {:induction false} ProcessListSelects(records: seq<ProcessRecord>)
    requires ProcessList(records).Ok?
    ensures exists idx :: SelectsReadable(records, ProcessList(records).value, idx)
    decreases |records|
  {
    if records == [] {
      assert SelectsReadable(records, [], []);
    } else {
      var n := |records| - 1;
      var init, last := records[..n], records[n];
      assert records == init + [last];
      ProcessListSelects(init);
      var kept := ProcessList(init).value;
      var idx :| SelectsReadable(init, kept, idx);
      SelectsAppend(init, kept, idx, last);
      if last.Readable? {
        assert ProcessList(records).value == kept + [last.info];
        assert SelectsReadable(records, ProcessList(records).value, idx + [n]);
      } else {
        assert ProcessList(records).value == kept;
        assert SelectsReadable(records, ProcessList(records).value, idx);
      }
    }
  }

  /** The exception that escapes is that of the first record whose
      exception is not caught. */
  lemma {:induction false} ProcessListFirstFault(records: seq<ProcessRecord>)
    requires ProcessList(records).Err?
    ensures exists i :: 0 <= i < |records| && records[i] == Faulty(ProcessList(records).error) &&
                        !Skipped(records[i].fault) &&
                        forall j :: 0 <= j < i && records[j].Faulty? ==> Skipped(records[j].fault)
    decreases |records|
  {
    var n := |records| - 1;
    var init := records[..n];
    if ProcessList(init).Err? {
      ProcessListFirstFault(init);
      var i :| 0 <= i < n && init[i] == Faulty(ProcessList(init).error) && !Skipped(init[i].fault) &&
               forall j :: 0 <= j < i && init[j].Faulty? ==> Skipped(init[j].fault);
      assert records[i] == init[i];
      assert forall j :: 0 <= j < i ==> init[j] == records[j];
    } else {
      ProcessListOkIff(init);
      assert forall j :: 0 <= j < n ==> init[j] == records[j];
    }
  }

  // ----- get_system_uptime -----

  /** The four numbers the uptime string reports. */
  datatype Uptime = Uptime(days: int, hours: int, minutes: int, seconds: int)

  /** Python's `x // y` on floats, for y > 0. */
  function FloorDiv(x: real, y: real): real
    requires y > 0.0
  {
    (x / y).Floor as real
  }

  /** Python's `x % y` on floats, for y > 0. */
  function FloorMod(x: real, y: real): real
    requires y > 0.0
  {
    x - y * FloorDiv(x, y)
  }

  /** Python's `int(x)` on a float: truncation toward zero. */
  function Trunc(x: real): int {
    if x >= 0.0 then x.Floor else -((-x).Floor)
  }

  /** The numbers `get_system_uptime` formats, for boot time `boot` and
      current time `now` (seconds since the epoch): the whole seconds since
      boot, split into whole days and the hours, minutes and seconds left
      over. */
  function UptimeParts(boot: real, now: real): (u: Uptime)
    ensures var total := (now - boot).Floor;
            u == Uptime(total / 86400, (total / 3600) % 24, (total / 60) % 60, total % 60)
  {
    var uptimeSeconds := now - boot;
    var uptimeMinutes := FloorDiv(uptimeSeconds, 60.0);
    var uptimeHours := FloorDiv(uptimeMinutes, 60.0);
    var uptimeDays := FloorDiv(uptimeHours, 24.0);
    WholeUptime(uptimeSeconds);
    Uptime(Trunc(uptimeDays), Trunc(FloorMod(uptimeHours, 24.0)),
           Trunc(FloorMod(uptimeMinutes, 60.0)), Trunc(FloorMod(uptimeSeconds, 60.0)))
  }

  /** The float `//` and `%` chain of `get_system_uptime`, read as integer
      division of the whole seconds. */
  lemma WholeUptime(s: real)
    ensures var total, minutes := s.Floor, FloorDiv(s, 60.0);
            var hours := FloorDiv(minutes, 60.0);
            && Trunc(FloorDiv(hours, 24.0)) == total / 86400
            && Trunc(FloorMod(hours, 24.0)) == (total / 3600) % 24
            && Trunc(FloorMod(minutes, 60.0)) == (total / 60) % 60
            && Trunc(FloorMod(s, 60.0)) == total % 60
  {
    var total := s.Floor;
    var m := total / 60;
    var h := m / 60;
    FloorDivWhole(s, 60);
    FloorDivWhole(m as real, 60);
    FloorDivWhole(h as real, 24);
    TruncFloorMod(s, 60);
    TruncFloorMod(m as real, 60);
    TruncFloorMod(h as real, 24);
    TruncOfWhole(h / 24);
    HoursOfMinutes(total);
    DaysOfHours(total);
  }

  /** The labels that follow the four numbers of the uptime text. */
  const UptimeWords: seq<string> := [" days, ", " hours, ", " minutes, ", " seconds"]

  /** The text of the uptime entry: the four numbers, each followed by its
      label. */
  function UptimeText(u: Uptime): string {
    Fields([u.days, u.hours, u.minutes, u.seconds], UptimeWords)
  }

  /** Each number written with `str()` and followed by its word. */
  function Fields(ns: seq<int>, words: seq<string>): string
    requires |ns| == |words|
  {
    if ns == [] then "" else IntToString(ns[0]) + words[0] + Fields(ns[1..], words[1..])
  }

  /** The dict `get_system_uptime` returns: the single key `uptime`, whose
      text reads back as the four numbers. */
  function SystemUptime(boot: real, now: real): (r: Dict<string>)
    ensures Keys(r) == ["uptime"]
    ensures ReadUptime(r[0].1) == Some(UptimeParts(boot, now))
  {
    var u := UptimeParts(boot, now);
    UptimeTextReads(u);
    [("uptime", UptimeText(u))]
  }

  /** Reads a number followed by `word` at the start of `s`. */
  function ReadField(s: string, word: string): Option<(int, string)> {
    match ReadInt(s)
    case None => None
    case Some((n, rest)) =>
      if |word| <= |rest| && rest[..|word|] == word then Some((n, rest[|word|..])) else None
  }

  /** Reads one number per word, each followed by its word, up to the end
      of `s`. */
  function ReadFields(s: string, words: seq<string>): Option<seq<int>> {
    if words == [] then (if s == [] then Some([]) else None)
    else
      match ReadField(s, words[0])
      case None => None
      case Some((n, rest)) =>
        match ReadFields(rest, words[1..])
        case None => None
        case Some(ns) => Some([n] + ns)
  }

  /** Reads an uptime text back into its four numbers. */
  function ReadUptime(s: string): Option<Uptime> {
    match ReadFields(s, UptimeWords)
    case Some(ns) => if |ns| == 4 then Some(Uptime(ns[0], ns[1], ns[2], ns[3])) else None
    case None => None
  }

  predicate Separating(words: seq<string>) {
    forall i :: 0 <= i < |words| ==> words[i] != [] && !IsDigit(words[i][0])
  }

  lemma ReadFieldOf(n: int, word: string, rest: string)
    requires word != [] && !IsDigit(word[0])
    ensures ReadField(IntToString(n) + word + rest, word) == Some((n, rest))
  {
    assert IntToString(n) + word + rest == IntToString(n) + (word + rest);
    ReadIntOf(n, word + rest);
    assert (word + rest)[..|word|] == word && (word + rest)[|word|..] == rest;
  }

  /** Numbers written each followed by a word that does not start with a
      digit read back as the same numbers. */
  lemma {:induction false} ReadFieldsOf(ns: seq<int>, words: seq<string>)
    requires |ns| == |words| && Separating(words)
    ensures ReadFields(Fields(ns, words), words) == Some(ns)
    decreases |ns|
  {
    if ns != [] {
      var rest := Fields(ns[1..], words[1..]);
      ReadFieldOf(ns[0], words[0], rest);
      assert Separating(words[1..]) by {
        forall i | 0 <= i < |words[1..]| ensures words[1..][i] != [] && !IsDigit(words[1..][i][0]) {
          assert words[1..][i] == words[i + 1];
        }
      }
      ReadFieldsOf(ns[1..], words[1..]);
      assert [ns[0]] + ns[1..] == ns;
    }
  }

  /** The uptime text reads back as the numbers it was made from. */
  lemma UptimeTextReads(u: Uptime)
    ensures ReadUptime(UptimeText(u)) == Some(u)
  {
    var ns := [u.days, u.hours, u.minutes, u.seconds];
    assert Separating(UptimeWords) by {
      forall i | 0 <= i < 4 ensures UptimeWords[i][0] == ' ' {
      }
    }
    ReadFieldsOf(ns, UptimeWords);
  }

  /** Flooring a quotient by a positive whole number only depends on the
      floor of the dividend. */
  lemma FloorOfQuotient(x: real, n: int)
    requires n > 0
    ensures (x / n as real).Floor == x.Floor / n
  {
    var f := x.Floor;
    var q, r := f / n, f % n;
    assert f == q * n + r && 0 <= r < n;
    var nr := n as real;
    assert (q * n) as real == q as real * nr;
    assert q as real * nr <= x by {
      assert f as real <= x;
    }
    assert x < (q as real + 1.0) * nr by {
      assert x < f as real + 1.0;
      assert (r as real) + 1.0 <= nr;
    }
    DivideBounds(x, nr, q as real);
  }

  /** Dividing `lo * d <= x < (lo + 1) * d` by `d` places `x / d` in the
      unit interval starting at `lo`. */
  lemma DivideBounds(x: real, d: real, lo: real)
    requires d > 0.0 && lo * d <= x < (lo + 1.0) * d
    ensures lo <= x / d < lo + 1.0
  {
    var y := x / d;
    assert y * d == x;
    if y < lo {
      MulMono(y, lo, d);
    }
    if y >= lo + 1.0 {
      MulMono(lo + 1.0, y, d);
    }
  }

  /** Multiplying by a positive number keeps order. */
  lemma MulMono(a: real, b: real, d: real)
    requires d > 0.0
    ensures a < b ==> a * d < b * d
    ensures a <= b ==> a * d <= b * d
  {
    assert (b - a) * d == b * d - a * d;
  }

  lemma TruncOfWhole(k: int)
    ensures Trunc(k as real) == k
  {
  }

  /** Python's float `//` and `%` by a positive whole number, read through
      the floor of the dividend. */
  lemma FloorDivWhole(x: real, n: int)
    requires n > 0
    ensures FloorDiv(x, n as real) == (x.Floor / n) as real
  {
    FloorOfQuotient(x, n);
  }

  lemma TruncFloorMod(x: real, n: int)
    requires n > 0
    ensures Trunc(FloorMod(x, n as real)) == x.Floor % n
  {
    FloorDivWhole(x, n);
    var f := x.Floor;
    var q := f / n;
    var r := FloorMod(x, n as real);
    assert r == x - (n * q) as real;
    assert f == n * q + f % n;
    assert (f % n) as real <= r < (f % n) as real + 1.0;
  }

  /** Uptime decomposition: hours below 24, minutes and seconds below 60,
      and together they make up the whole seconds elapsed since boot. */
  lemma UptimeDecomposition(boot: real, now: real)
    ensures var u := UptimeParts(boot, now);
            && 0 <= u.hours < 24 && 0 <= u.minutes < 60 && 0 <= u.seconds < 60
            && u.days * 86400 + u.hours * 3600 + u.minutes * 60 + u.seconds == (now - boot).Floor
  {
    var total := (now - boot).Floor;
    HoursOfMinutes(total);
    DaysOfHours(total);
    ClockParts(total);
  }

  /** Whole minutes of whole minutes are whole hours. */
  lemma HoursOfMinutes(total: int)
    ensures (total / 60) / 60 == total / 3600
  {
    var m := total / 60;
    assert total == 3600 * (m / 60) + (60 * (m % 60) + total % 60);
  }

  /** Whole days of whole hours are whole days. */
  lemma DaysOfHours(total: int)
    ensures (total / 3600) / 24 == total / 86400
  {
    var h := total / 3600;
    assert total == 86400 * (h / 24) + (3600 * (h % 24) + total % 3600);
  }

  /** Whole seconds split into days, hours, minutes and seconds add back up. */
  lemma ClockParts(total: int)
    ensures var m := total / 60; var h := m / 60;
            (h / 24) * 86400 + (h % 24) * 3600 + (m % 60) * 60 + total % 60 == total
  {
    var m := total / 60;
    var h := m / 60;
    assert total == 60 * m + total % 60;
    assert m == 60 * h + m % 60;
    assert h == 24 * (h / 24) + h % 24;
  }
}
