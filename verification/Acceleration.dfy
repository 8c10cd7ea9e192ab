/** Reading the accelerator a llama.cpp server loaded onto from its log. */
module Acceleration {
  import opened Common

  /** A log line as the block scanner sees it: the header pattern is tried first,
      then the entry pattern with its two captures. */
  datatype Line = Header | Entry(id: string, description: string) | Text

  /** deviceFromID: drops an ":<index>" suffix. */
  function DeviceFromId(id: string): (r: string)
    ensures r <= id
  {
    if id == "" || id[0] == ':' then "" else
      assert id == [id[0]] + id[1..];
      [id[0]] + DeviceFromId(id[1..])
  }

  predicate IsAccelerator(id: string) {
    !HasPrefix(id, "CPU") && !HasPrefix(id, "BLAS")
  }

  function Shown(id: string, description: string): (r: string) {
    if description == "" then id else id + " (" + description + ")"
  }

  /** What one entry adds to the device list. */
  function Devices(l: Line): (r: seq<string>) {
    if !l.Entry? then []
    else
      var dev := DeviceFromId(l.id);
      if IsAccelerator(dev) then [Shown(dev, TrimSpace(l.description))] else []
  }

  function AllDevices(ls: seq<Line>): (r: seq<string>) {
    if ls == [] then [] else AllDevices(ls[..|ls| - 1]) + Devices(ls[|ls| - 1])
  }

  /** The lines after the last header, None when there is no header. */
  function Tail(ls: seq<Line>): (r: Option<seq<Line>>) {
    if ls == [] then None
    else
      var before, last := Tail(ls[..|ls| - 1]), ls[|ls| - 1];
      if last.Header? then Some([]) else if before.None? then None else Some(before.value + [last])
  }

  lemma {:induction false} TailFollowsLastHeader(ls: seq<Line>, h: nat)
    requires h < |ls| && ls[h].Header? && forall i | h < i < |ls| :: !ls[i].Header?
    ensures Tail(ls) == Some(ls[h + 1..])
  {
    if h < |ls| - 1 {
      TailFollowsLastHeader(ls[..|ls| - 1], h);
      assert ls[h + 1..] == ls[..|ls| - 1][h + 1..] + [ls[|ls| - 1]];
    }
  }

  lemma {:induction false} NoHeaderNoTail(ls: seq<Line>)
    requires forall i | 0 <= i < |ls| :: !ls[i].Header?
    ensures Tail(ls) == None
  {
    if ls != [] { NoHeaderNoTail(ls[..|ls| - 1]); }
  }

  /** The contiguous entries a list starts with. */
  function EntryRun(ls: seq<Line>): (r: seq<Line>) {
    if ls == [] || !ls[0].Entry? then [] else [ls[0]] + EntryRun(ls[1..])
  }

  /** It ends at the first line that is no entry, whatever follows. */
  lemma {:induction false} EntryRunStops(es: seq<Line>, x: Line, rest: seq<Line>)
    requires !x.Entry? && forall i | 0 <= i < |es| :: es[i].Entry?
    ensures EntryRun(es + [x] + rest) == es
  {
    var ls := es + [x] + rest;
    if es != [] {
      assert ls[1..] == es[1..] + [x] + rest;
      EntryRunStops(es[1..], x, rest);
      assert [es[0]] + es[1..] == es;
    }
  }

  /** The accelerators of the block: the entries right after the last header. */
  function Block(ls: seq<Line>): (r: seq<string>) {
    if Tail(ls).None? then [] else AllDevices(EntryRun(Tail(ls).value))
  }

  predicate AllEntries(ls: seq<Line>) {
    forall i | 0 <= i < |ls| :: ls[i].Entry?
  }

  /** A header has been seen and only entries since. */
  predicate Open(ls: seq<Line>) {
    Tail(ls).Some? && AllEntries(Tail(ls).value)
  }

  lemma {:induction false} RunAppend(ls: seq<Line>, x: Line)
    ensures AllEntries(ls) ==> EntryRun(ls + [x]) == if x.Entry? then ls + [x] else ls
    ensures !AllEntries(ls) ==> EntryRun(ls + [x]) == EntryRun(ls)
  {
    if ls == [] {
      assert ls + [x] == [x] && [x][1..] == [];
    } else {
      var rest := ls[1..];
      assert (ls + [x])[1..] == rest + [x];
      RunAppend(rest, x);
      AllEntriesSplit(ls);
      assert ls == [ls[0]] + rest;
    }
  }

  lemma AllEntriesSplit(ls: seq<Line>)
    requires ls != []
    ensures AllEntries(ls) <==> ls[0].Entry? && AllEntries(ls[1..])
  {
    if ls[0].Entry? && AllEntries(ls[1..]) {
      forall i | 0 <= i < |ls| ensures ls[i].Entry? {
        if i > 0 { assert ls[i] == ls[1..][i - 1]; }
      }
    }
  }

  /** How one more line changes the block. */
  lemma BlockAppend(ls: seq<Line>, x: Line)
    ensures Block(ls + [x]) ==
            if x.Header? then [] else if Open(ls) then Block(ls) + Devices(x) else Block(ls)
    ensures Open(ls + [x]) <==> x.Header? || (Open(ls) && x.Entry?)
  {
    assert (ls + [x])[..|ls|] == ls;
    if !x.Header? && Tail(ls).Some? {
      var tail := Tail(ls).value;
      assert Tail(ls + [x]) == Some(tail + [x]);
      RunAppend(tail, x);
      assert (tail + [x])[..|tail|] == tail;
      assert AllEntries(tail + [x]) <==> AllEntries(tail) && x.Entry? by {
        assert (tail + [x])[|tail|] == x;
      }
      if AllEntries(tail) { RunOfEntries(tail); }
    }
  }

  lemma {:induction false} RunOfEntries(ls: seq<Line>)
    requires forall i | 0 <= i < |ls| :: ls[i].Entry?
    ensures EntryRun(ls) == ls
  {
    if ls != [] { RunOfEntries(ls[1..]); }
  }

  /** acceleratorDevicesFromDeviceInfo: returns exactly the accelerator entries, in
      order, of the entry run right after the last header line. */
  method ScanDeviceInfo(ls: seq<Line>) returns (devices: seq<string>)
    ensures devices == Block(ls)
  {
    devices := [];
    var inBlock := false;
    for i := 0 to |ls|
      invariant devices == Block(ls[..i])
      invariant inBlock <==> Open(ls[..i])
    {
      BlockAppend(ls[..i], ls[i]);
      assert ls[..i + 1] == ls[..i] + [ls[i]];
      if ls[i].Header? {
        inBlock := true;
        devices := [];
        continue;
      }
      if !inBlock {
        continue;
      }
      if !ls[i].Entry? {
        inBlock := false;
        continue;
      }
      devices := devices + Devices(ls[i]);
    }
    assert ls[..|ls|] == ls;
  }

  // ---- one log --------------------------------------------------------------

  /** The "using device" lines carry an id and a description. */
  datatype Using = Using(id: string, description: string)
  datatype Offload = Offload(layers: int, total: int)

  /** What the patterns find in one log text. */
  datatype Log = Log(lines: seq<Line>, using: seq<Using>, summaries: seq<Offload>, engineOutput: bool)

  datatype Status = Status(device: string, offloaded: Option<int>, total: Option<int>)

  function ClampInt32(v: int): (r: int)
    ensures MIN_INT32 <= r <= MAX_INT32 && (MIN_INT32 <= v <= MAX_INT32 ==> r == v)
  {
    if v > MAX_INT32 then MAX_INT32 else if v < MIN_INT32 then MIN_INT32 else v
  }

  /** deviceFromLog: the last "using device" line decides, else a lone block entry. */
  function DeviceFromLog(log: Log): (r: string) {
    if log.using != [] then
      var last := log.using[|log.using| - 1];
      var dev, desc := DeviceFromId(last.id), TrimSpace(last.description);
      if !IsAccelerator(dev) then "" else if desc == "unknown id" then dev else Shown(dev, desc)
    else if |Block(log.lines)| == 1 then Block(log.lines)[0]
    else ""
  }

  /** What one read of a ready pod's log stamps, None when it says nothing. */
  function Observe(log: Log): (r: Option<Status>) {
    if log.summaries != [] then
      var last := log.summaries[|log.summaries| - 1];
      var named := log.using != [] || Block(log.lines) != [];
      var device := if last.layers == 0 && !named then "CPU" else DeviceFromLog(log);
      Some(Status(device, Some(ClampInt32(last.layers)), Some(ClampInt32(last.total))))
    else if !log.engineOutput then None
    else Some(Status(if |Block(log.lines)| == 1 then Block(log.lines)[0] else "CPU", None, None))
  }

  lemma ShownIsNotCpu(dev: string, description: string)
    requires IsAccelerator(dev)
    ensures Shown(dev, description) != "CPU"
  {
    var s := Shown(dev, description);
    assert description != "" ==> s[|s| - 1] == ')';
  }

  lemma {:induction false} BlockNamesAccelerators(ls: seq<Line>, d: string)
    requires d in AllDevices(ls)
    ensures d != "CPU"
  {
    var last := ls[|ls| - 1];
    if d in Devices(last) {
      ShownIsNotCpu(DeviceFromId(last.id), TrimSpace(last.description));
    } else {
      BlockNamesAccelerators(ls[..|ls| - 1], d);
    }
  }

  lemma LoneDeviceIsNotCpu(ls: seq<Line>)
    requires Block(ls) != []
    ensures Block(ls)[0] != "CPU"
  {
    assert Block(ls)[0] in Block(ls);
    BlockNamesAccelerators(EntryRun(Tail(ls).value), Block(ls)[0]);
  }

  /** The CPU fallback is reported exactly when the last summary offloads nothing and
      the log names no accelerator, or when the engine wrote no summary and its
      block does not name exactly one; so two visible GPUs without a summary also
      read as CPU. */
  lemma CpuReportedIff(log: Log)
    ensures Observe(log).Some? && Observe(log).value.device == "CPU" <==>
            if log.summaries != [] then
              log.summaries[|log.summaries| - 1].layers == 0 && log.using == [] && Block(log.lines) == []
            else log.engineOutput && |Block(log.lines)| != 1
  {
    if Block(log.lines) != [] { LoneDeviceIsNotCpu(log.lines); }
    if log.using != [] {
      var last := log.using[|log.using| - 1];
      if IsAccelerator(DeviceFromId(last.id)) {
        ShownIsNotCpu(DeviceFromId(last.id), TrimSpace(last.description));
      }
    }
  }

  /** The last summary of a log is reported, its first number as the offloaded layers
      and its second as the total, each held to the int32 range. */
  lemma SummaryIsReported(log: Log, earlier: seq<Offload>, layers: int, total: int)
    requires log.summaries == earlier + [Offload(layers, total)]
    ensures Observe(log).Some?
    ensures MIN_INT32 <= layers <= MAX_INT32 ==> Observe(log).value.offloaded == Some(layers)
    ensures MIN_INT32 <= total <= MAX_INT32 ==> Observe(log).value.total == Some(total)
    ensures layers > MAX_INT32 ==> Observe(log).value.offloaded == Some(MAX_INT32)
    ensures total > MAX_INT32 ==> Observe(log).value.total == Some(MAX_INT32)
  {
  }

  /** The device of a summary is the one named last, up to its index, with what is known
      of it. */
  lemma LastNamedDeviceIsReported(log: Log, earlier: seq<Using>, id: string, index: string, description: string)
    requires log.summaries != [] && ':' !in id && IsAccelerator(id)
    requires log.using == earlier + [Using(id + ":" + index, description)]
    ensures var known := TrimSpace(description);
            Observe(log).value.device == if known == "" || known == "unknown id" then id else id + " (" + known + ")"
  {
    IndexIsDropped(id, index);
  }

  lemma {:induction false} IndexIsDropped(id: string, index: string)
    requires ':' !in id
    ensures DeviceFromId(id + ":" + index) == id
  {
    var s := id + ":" + index;
    if id != "" {
      assert s[1..] == id[1..] + ":" + index;
      IndexIsDropped(id[1..], index);
      assert id == [id[0]] + id[1..];
    }
  }

  /** What begins with CPU or BLAS is no accelerator, and everything else is. */
  lemma AcceleratorIff(id: string)
    ensures IsAccelerator(id) <==> !(exists x :: id == "CPU" + x) && !(exists x :: id == "BLAS" + x)
  {
    if HasPrefix(id, "CPU") { assert id == "CPU" + id[3..]; }
    if HasPrefix(id, "BLAS") { assert id == "BLAS" + id[4..]; }
  }

  /** Two visible accelerators, whatever their ids, and no summary read as CPU. */
  lemma {:induction false} TwoGpusReadAsCpu(log: Log, a: string, b: string)
    requires log.summaries == [] && log.engineOutput && log.lines == [Header, Entry(a, ""), Entry(b, "")]
    requires ':' !in a && ':' !in b && IsAccelerator(a) && IsAccelerator(b)
    ensures |Block(log.lines)| == 2 && Observe(log) == Some(Status("CPU", None, None))
  {
    PlainEntryIsOneDevice(a);
    PlainEntryIsOneDevice(b);
    BlockOfTwo(Entry(a, ""), Entry(b, ""));
  }

  lemma {:induction false} BlockOfTwo(first: Line, second: Line)
    requires first.Entry? && second.Entry?
    ensures Block([Header, first, second]) == Devices(first) + Devices(second)
  {
    var ls, run := [Header, first, second], [first, second];
    TailFollowsLastHeader(ls, 0);
    assert ls[1..] == run;
    RunOfEntries(run);
    assert run[..1] == [first] && [first][..0] == [];
    assert AllDevices([first]) == [] + Devices(first);
  }

  lemma {:induction false} PlainEntryIsOneDevice(id: string)
    requires ':' !in id && IsAccelerator(id)
    ensures |Devices(Entry(id, ""))| == 1
  {
    PlainIdIsDevice(id);
  }

  lemma {:induction false} PlainIdIsDevice(id: string)
    requires ':' !in id
    ensures DeviceFromId(id) == id
  {
    if id != "" {
      assert id == [id[0]] + id[1..];
      PlainIdIsDevice(id[1..]);
    }
  }

  /** A load that names the CPU itself and offloads nothing is reported with no device
      at all, though the fallback is documented to read CPU. */
  lemma NamedCpuReadsAsBlank(log: Log, total: int)
    requires log.using == [Using("CPU", "")] && log.summaries == [Offload(0, total)]
    ensures Observe(log).Some? && Observe(log).value.device == ""
  {
    PlainIdIsDevice("CPU");
  }

  // ---- runs -----------------------------------------------------------------

  /** One reconcile: another runtime, a read that failed or found no pod, or a log. */
  datatype Event = OtherRuntime | NoRead | Read(log: Log)

  /** The events that decide the field: it is cleared or overwritten. */
  predicate Decides(e: Event) {
    e.OtherRuntime? || (e.Read? && Observe(e.log).Some?)
  }

  class InferenceService {
    var acceleration: Option<Status>

    constructor ()
      ensures acceleration == None
    {
      acceleration := None;
    }

    /** reconcileAccelerationStatus. */
    method ReconcileAcceleration(e: Event)
      modifies this
      ensures acceleration == Next(old(acceleration), e)
    {
      match e {
        case OtherRuntime => acceleration := None;
        case NoRead =>
        case Read(log) =>
          var devices := ScanDeviceInfo(log.lines);
          if |log.summaries| == 0 {
            if !log.engineOutput {
              return;
            }
            var device := "CPU";
            if |devices| == 1 {
              device := devices[0];
            }
            acceleration := Some(Status(device, None, None));
            return;
          }
          var last := log.summaries[|log.summaries| - 1];
          var device := DeviceFromLog(log);
          if last.layers == 0 && |log.using| == 0 && |devices| == 0 {
            device := "CPU";
          }
          acceleration := Some(Status(device, Some(ClampInt32(last.layers)), Some(ClampInt32(last.total))));
      }
    }
  }

  function Next(prior: Option<Status>, e: Event): (r: Option<Status>) {
    match e
    case OtherRuntime => None
    case NoRead => prior
    case Read(log) => if Observe(log).Some? then Observe(log) else prior
  }

  /** One reconcile of a run: its event, and whether the status it leaves is persisted. */
  datatype Round = Round(event: Event, saved: bool)

  /** The stored value after a run over an object that began without one. */
  function After(rounds: seq<Round>): (r: Option<Status>) {
    if rounds == [] then None
    else
      var prior, last := After(rounds[..|rounds| - 1]), rounds[|rounds| - 1];
      if last.saved then Next(prior, last.event) else prior
  }

  predicate DecidesStored(r: Round) {
    r.saved && Decides(r.event)
  }

  /** Over any run the stored value is that of the last round that decides it and is
      persisted, however many failed reads, empty reads or lost writes came after. */
  lemma {:induction false} StoredIsLastInformative(rounds: seq<Round>, k: nat)
    requires k < |rounds| && DecidesStored(rounds[k])
    requires forall j | k < j < |rounds| :: !DecidesStored(rounds[j])
    ensures After(rounds) == if rounds[k].event.OtherRuntime? then None else Observe(rounds[k].event.log)
  {
    if k < |rounds| - 1 {
      StoredIsLastInformative(rounds[..|rounds| - 1], k);
      assert !DecidesStored(rounds[|rounds| - 1]);
    }
  }

  /** Without such a round nothing is ever stored. */
  lemma {:induction false} UndecidedStaysUnset(rounds: seq<Round>)
    requires forall j | 0 <= j < |rounds| :: !DecidesStored(rounds[j])
    ensures After(rounds) == None
  {
    if rounds != [] {
      UndecidedStaysUnset(rounds[..|rounds| - 1]);
      assert !DecidesStored(rounds[|rounds| - 1]);
    }
  }
}
