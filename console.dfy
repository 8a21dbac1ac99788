/** The console renderers of the monitor's main loop. Each returns the text
    its Python counterpart writes to standard output; the lemmas read that
    text back as lines. */
module Console {
  import opened Strings
  import opened Dicts
  import opened Providers

  /** One reading of `psutil.sensors_temperatures()`: the sensor's label and
      `str()` of its current temperature. */
  datatype TempReading = TempReading(sensorLabel: string, current: string)

  // ----- print_generic_dict -----

  function GenericLine(name: string, key: string, value: string): string {
    name + "['" + key + "']: " + value
  }

  /** The lines `print_generic_dict(d, name, end)` prints: one per key in key
      order, then `end` when it is not empty. */
  function GenericLines(d: Dict<string>, name: string, end: string): seq<string> {
    seq(|d|, i requires 0 <= i < |d| => GenericLine(name, d[i].0, d[i].1)) + (if end != "" then [end] else [])
  }

  method PrintGenericDict(d: Dict<string>, name: string, end: string) returns (text: string)
    ensures text == Unlines(GenericLines(d, name, end))
  {
    text := "";
    var i := 0;
    while i < |d|
      invariant 0 <= i <= |d|
      invariant text == Unlines(GenericLines(d[..i], name, ""))
    {
      var key := d[i].0;
      assert GenericLines(d[..i + 1], name, "") == GenericLines(d[..i], name, "") + [GenericLine(name, key, d[i].1)];
      text := text + GenericLine(name, key, d[i].1) + "\n";
      i := i + 1;
    }
    assert d[..|d|] == d;
    if end != "" {
      assert GenericLines(d, name, end) == GenericLines(d, name, "") + [end];
      text := text + end + "\n";
    } else {
      assert GenericLines(d, name, end) == GenericLines(d, name, "");
    }
  }

  /** Read back line by line, the printed dict shows `name['key']: value`
      for each key in key order, then the `end` line only when `end` is not
      empty. */
  lemma GenericDictShape(d: Dict<string>, name: string, end: string)
    requires '\n' !in name && '\n' !in end
    requires forall i :: 0 <= i < |d| ==> '\n' !in d[i].0 && '\n' !in d[i].1
    ensures var lines := SplitLines(Unlines(GenericLines(d, name, end)));
            && |lines| == |d| + (if end != "" then 1 else 0)
            && (forall i :: 0 <= i < |d| ==> lines[i] == name + "['" + d[i].0 + "']: " + d[i].1)
            && (end != "" ==> lines[|d|] == end)
  {
    var lines := GenericLines(d, name, end);
    forall i | 0 <= i < |lines| ensures '\n' !in lines[i] {
      if i < |d| {
        assert lines[i] == name + "['" + d[i].0 + "']: " + d[i].1;
      }
    }
    SplitUnlines(lines);
  }

  // ----- print_cpu_info -----

  /** `'  %s: %s;'` for one entry of the CPU dict. */
  function CpuSegment(entry: (string, string)): string {
    "  " + entry.0 + ": " + entry.1 + ";"
  }

  function CpuSegments(d: Dict<string>): seq<string> {
    Rendered(d, CpuSegment)
  }

  /** The single line `print_cpu_info` prints. */
  function CpuLine(d: Dict<string>): string {
    "CPU  -" + Concat(CpuSegments(d))
  }

  method PrintCpuInfo(d: Dict<string>) returns (text: string)
    ensures text == Unlines([CpuLine(d)])
  {
    text := "CPU  -";
    var i := 0;
    while i < |d|
      invariant 0 <= i <= |d|
      invariant text == CpuLine(d[..i])
    {
      RenderedSnoc(d, CpuSegment, i);
      SeqAssoc("CPU  -", Concat(CpuSegments(d[..i])), CpuSegment(d[i]));
      text := text + CpuSegment(d[i]);
      i := i + 1;
    }
    assert d[..|d|] == d;
    text := text + "\n";
  }

  /** The CPU line starts `CPU  -`, holds no newline and one `;` per entry,
      and every entry's segment ends with `;`. */
  lemma CpuLineShape(d: Dict<string>)
    requires forall i :: 0 <= i < |d| ==> '\n' !in d[i].0 + d[i].1 && ';' !in d[i].0 + d[i].1
    ensures CpuLine(d)[..6] == "CPU  -"
    ensures '\n' !in CpuLine(d)
    ensures Count(CpuLine(d), ';') == |d|
    ensures forall i :: 0 <= i < |d| ==> CpuSegments(d)[i][|CpuSegments(d)[i]| - 1] == ';'
  {
    var segs := CpuSegments(d);
    forall i | 0 <= i < |segs|
      ensures '\n' !in segs[i] && Count(segs[i], ';') == 1 && segs[i][|segs[i]| - 1] == ';'
    {
      assert segs[i] == CpuSegment((d[i].0, d[i].1));
      CpuSegmentShape(d[i].0, d[i].1);
    }
    ConcatAvoids(segs, '\n');
    ConcatCountEach(segs, ';');
    HeadBody("CPU  -", Concat(segs), ';', '\n');
  }

  /** The CPU dict prints as exactly one line, starting `CPU  -`, holding
      one `;` per entry: every entry is semicolon-terminated. */
  lemma CpuInfoShape(d: Dict<string>)
    requires forall i :: 0 <= i < |d| ==> '\n' !in d[i].0 + d[i].1 && ';' !in d[i].0 + d[i].1
    ensures SplitLines(Unlines([CpuLine(d)])) == [CpuLine(d)]
    ensures CpuLine(d)[..6] == "CPU  -"
    ensures Count(CpuLine(d), ';') == |d|
    ensures forall i :: 0 <= i < |d| ==> CpuSegments(d)[i][|CpuSegments(d)[i]| - 1] == ';'
  {
    CpuLineShape(d);
    SingleLine(CpuLine(d));
  }

  lemma CpuSegmentShape(k: string, v: string)
    requires '\n' !in k + v && ';' !in k + v
    ensures '\n' !in CpuSegment((k, v)) && Count(CpuSegment((k, v)), ';') == 1
    ensures CpuSegment((k, v))[|CpuSegment((k, v))| - 1] == ';'
  {
    assert forall c :: c in k || c in v ==> c in k + v;
    assert CpuSegment((k, v)) == ("  " + k + ": " + v) + [';'] + "";
    CountOnce("  " + k + ": " + v, ';', "");
  }

  // ----- print_system_temp_info -----

  /** `'   %s.%s: %s;'` for one reading of sensor chip `chip`. */
  function TempSegment(chip: string, r: TempReading): string {
    "   " + chip + "." + r.sensorLabel + ": " + r.current + ";"
  }

  function TempRender(chip: string): TempReading -> string {
    r => TempSegment(chip, r)
  }

  function TempSegments(chip: string, readings: seq<TempReading>): seq<string> {
    Rendered(readings, TempRender(chip))
  }

  /** The line printed for one sensor chip. */
  function ChipLine(chip: string, readings: seq<TempReading>): string {
    Concat(TempSegments(chip, readings))
  }

  function ChipRender(entry: (string, seq<TempReading>)): string {
    ChipLine(entry.0, entry.1)
  }

  /** The lines `print_system_temp_info` prints: the header, then one per
      chip in key order. */
  function TempLines(t: Dict<seq<TempReading>>): seq<string> {
    ["TEMPS  -"] + Rendered(t, ChipRender)
  }

  method PrintSystemTempInfo(t: Dict<seq<TempReading>>) returns (text: string)
    ensures text == Unlines(TempLines(t))
  {
    text := "TEMPS  -\n";
    assert Unlines(TempLines([])) == text;
    var i := 0;
    while i < |t|
      invariant 0 <= i <= |t|
      invariant text == Unlines(TempLines(t[..i]))
    {
      var chip, readings := t[i].0, t[i].1;
      var line := "";
      var j := 0;
      while j < |readings|
        invariant 0 <= j <= |readings|
        invariant line == ChipLine(chip, readings[..j])
      {
        RenderedSnoc(readings, TempRender(chip), j);
        line := line + TempSegment(chip, readings[j]);
        j := j + 1;
      }
      assert readings[..|readings|] == readings;
      RenderedSnoc(t, ChipRender, i);
      SeqAssoc(["TEMPS  -"], Rendered(t[..i], ChipRender), [ChipRender(t[i])]);
      text := text + line + "\n";
      i := i + 1;
    }
    assert t[..|t|] == t;
  }

  /** The temperatures print as the header line and then exactly one line
      per chip, in key order; a chip's line holds one `;`-terminated reading
      per sensor and is empty for a chip without readings. */
  lemma TempInfoShape(t: Dict<seq<TempReading>>)
    requires forall i :: 0 <= i < |t| ==> '\n' !in t[i].0 && ';' !in t[i].0
    requires forall i, j :: 0 <= i < |t| && 0 <= j < |t[i].1| ==>
               '\n' !in t[i].1[j].sensorLabel + t[i].1[j].current && ';' !in t[i].1[j].sensorLabel + t[i].1[j].current
    ensures var lines := SplitLines(Unlines(TempLines(t)));
            && |lines| == 1 + |t| && lines[0] == "TEMPS  -"
            && (forall i :: 0 <= i < |t| ==> lines[i + 1] == ChipLine(t[i].0, t[i].1))
            && (forall i :: 0 <= i < |t| ==> Count(lines[i + 1], ';') == |t[i].1|)
            && (forall i :: 0 <= i < |t| ==> (lines[i + 1] == "" <==> t[i].1 == []))
  {
    var lines := TempLines(t);
    forall i | 0 <= i < |t|
      ensures '\n' !in lines[i + 1] && Count(lines[i + 1], ';') == |t[i].1|
      ensures lines[i + 1] == "" <==> t[i].1 == []
    {
      assert lines[i + 1] == ChipLine(t[i].0, t[i].1);
      ChipLineShape(t[i].0, t[i].1);
    }
    assert '\n' !in lines[0];
    SplitUnlines(lines);
  }

  lemma ChipLineShape(chip: string, readings: seq<TempReading>)
    requires '\n' !in chip && ';' !in chip
    requires forall j :: 0 <= j < |readings| ==>
               '\n' !in readings[j].sensorLabel + readings[j].current && ';' !in readings[j].sensorLabel + readings[j].current
    ensures '\n' !in ChipLine(chip, readings)
    ensures Count(ChipLine(chip, readings), ';') == |readings|
    ensures ChipLine(chip, readings) == "" <==> readings == []
  {
    var segs := TempSegments(chip, readings);
    forall j | 0 <= j < |segs| ensures '\n' !in segs[j] && Count(segs[j], ';') == 1 {
      var l, c := readings[j].sensorLabel, readings[j].current;
      assert '\n' !in l && '\n' !in c && ';' !in l && ';' !in c by {
        assert forall x :: x in l ==> x in l + c;
        assert forall x :: x in c ==> x in l + c;
      }
      assert segs[j] == ("   " + chip + "." + l + ": " + c) + [';'] + "";
      CountOnce("   " + chip + "." + l + ": " + c, ';', "");
    }
    ConcatAvoids(segs, '\n');
    ConcatCountEach(segs, ';');
  }

  // ----- print_gpu_info -----

  /** `'%s: (temp: %.1f°C, util: %d%%)    '` for one GPU; the temperature is
      a whole number of degrees, so `%.1f` prints it followed by `.0`. */
  function GpuSegment(entry: (string, GpuEntry)): string {
    entry.0 + ": (temp: " + IntToString(entry.1.temperature) + ".0°C, util: "
      + IntToString(entry.1.gpuUtilization) + "%)    "
  }

  function GpuSegments(info: Dict<GpuEntry>): seq<string> {
    Rendered(info, GpuSegment)
  }

  /** The single line `print_gpu_info` prints. */
  function GpuLine(info: Dict<GpuEntry>): string {
    Concat(GpuSegments(info))
  }

  method PrintGpuInfo(info: Dict<GpuEntry>) returns (text: string)
    ensures text == Unlines([GpuLine(info)])
  {
    text := "";
    var i := 0;
    while i < |info|
      invariant 0 <= i <= |info|
      invariant text == GpuLine(info[..i])
    {
      RenderedSnoc(info, GpuSegment, i);
      text := text + GpuSegment(info[i]);
      i := i + 1;
    }
    assert info[..|info|] == info;
    text := text + "\n";
  }

  /** The GPUs print as exactly one line, holding one segment per GPU in key
      order, each ending in four spaces; with no GPU the line is empty and
      only the newline is printed. */
  lemma GpuInfoShape(info: Dict<GpuEntry>)
    requires forall i :: 0 <= i < |info| ==> '\n' !in info[i].0
    ensures SplitLines(Unlines([GpuLine(info)])) == [GpuLine(info)]
    ensures Count(Unlines([GpuLine(info)]), '\n') == 1
    ensures info == [] ==> Unlines([GpuLine(info)]) == "\n"
    ensures forall i :: 0 <= i < |info| ==>
              var s := GpuSegments(info)[i]; |s| >= 4 && s[|s| - 4..] == "    " && s[..|info[i].0|] == info[i].0
  {
    var segs := GpuSegments(info);
    forall i | 0 <= i < |segs|
      ensures '\n' !in segs[i] && |segs[i]| >= 4 && segs[i][|segs[i]| - 4..] == "    " && segs[i][..|info[i].0|] == info[i].0
    {
      GpuSegmentShape(info[i].0, info[i].1);
    }
    ConcatAvoids(segs, '\n');
    SingleLine(GpuLine(info));
  }

  lemma GpuSegmentShape(key: string, e: GpuEntry)
    requires '\n' !in key
    ensures var s := GpuSegment((key, e));
            '\n' !in s && |s| >= 4 && s[|s| - 4..] == "    " && s[..|key|] == key
  {
    IntToStringNoNewline(e.temperature);
    IntToStringNoNewline(e.gpuUtilization);
    var s := GpuSegment((key, e));
    var mid := ": (temp: " + IntToString(e.temperature) + ".0°C, util: " + IntToString(e.gpuUtilization) + "%)";
    assert s == key + mid + "    ";
  }

  lemma IntToStringNoNewline(i: int)
    ensures '\n' !in IntToString(i)
  {
    var s := if i < 0 then NatToString(-i) else NatToString(i);
    assert forall p :: 0 <= p < |s| ==> s[p] != '\n';
  }
}
