/** What an edge site reports about itself: service and GPU counts, in
    Go's int32 arithmetic. */
module EdgeSummary {
  import opened Common

  const GPU_RESOURCES: seq<string> :=
    ["nvidia.com/gpu", "amd.com/gpu", "gpu.intel.com/i915", "gpu.intel.com/xe", "devic.es/dri-render"]

  datatype ServicePhase = Ready | Failed | OtherPhase

  /** A node's resource lists, each quantity an int64. */
  datatype Node = Node(capacity: map<string, int>, allocatable: map<string, int>)

  datatype Summary = Summary(
    version: string,
    nodes: int, gpusTotal: int, gpusAllocatable: int,
    models: int, servicesTotal: int, servicesReady: int, servicesFailed: int)

  function GpusNamed(resources: map<string, int>, names: seq<string>): (r: int) {
    if names == [] then 0
    else
      var name := names[|names| - 1];
      GpusNamed(resources, names[..|names| - 1]) + if name in resources then resources[name] else 0
  }

  /** The exact number of GPU devices a resource list names. */
  function Gpus(resources: map<string, int>): (r: int) {
    GpusNamed(resources, GPU_RESOURCES)
  }

  function FleetGpus(nodes: seq<Node>, allocatable: bool): (r: int) {
    if nodes == [] then 0
    else
      var last := nodes[|nodes| - 1];
      FleetGpus(nodes[..|nodes| - 1], allocatable) + Gpus(if allocatable then last.allocatable else last.capacity)
  }

  function InPhase(services: seq<ServicePhase>, phase: ServicePhase): (r: nat) {
    if services == [] then 0
    else InPhase(services[..|services| - 1], phase) + if services[|services| - 1] == phase then 1 else 0
  }

  /** Wrapping at each addition is wrapping once at the end. */
  lemma WrapAdd32(a: int, b: int)
    ensures Wrap32(Wrap32(a) + Wrap32(b)) == Wrap32(a + b)
  {
    WrapLeft32(a, Wrap32(b));
    WrapLeft32(b, a);
  }

  lemma WrapLeft32(a: int, b: int)
    ensures Wrap32(Wrap32(a) + b) == Wrap32(a + b)
  {
    var k := (a - Wrap32(a)) / 0x1_0000_0000;
    WrapShift32(Wrap32(a) + b, k);
  }

  lemma NarrowAfterWrap64(x: int)
    ensures Wrap32(Wrap64(x)) == Wrap32(x)
  {
    var k := (x - Wrap64(x)) / 0x1_0000_0000_0000_0000;
    WrapShift32(Wrap64(x), 0x1_0000_0000 * k);
  }

  lemma WrapAdd64(a: int, b: int)
    ensures Wrap64(Wrap64(a) + b) == Wrap64(a + b)
  {
  }

  /** sumGPUQuantity: an int64 running total cut to int32. */
  method SumGpuQuantity(resources: map<string, int>) returns (total: int)
    ensures total == Wrap32(Gpus(resources))
  {
    var sum := 0;
    for i := 0 to |GPU_RESOURCES|
      invariant sum == Wrap64(GpusNamed(resources, GPU_RESOURCES[..i]))
    {
      ghost var names := GPU_RESOURCES[..i + 1];
      assert names[..i] == GPU_RESOURCES[..i];
      var name := GPU_RESOURCES[i];
      if name in resources {
        WrapAdd64(GpusNamed(resources, GPU_RESOURCES[..i]), resources[name]);
        sum := Wrap64(sum + resources[name]);
      }
    }
    assert GPU_RESOURCES[..|GPU_RESOURCES|] == GPU_RESOURCES;
    NarrowAfterWrap64(Gpus(resources));
    total := Wrap32(sum);
  }

  /** The report a site deserves: each number is the true fleet count as an int32,
      so the count itself whenever it fits. */
  function SiteSummary(models: nat, services: seq<ServicePhase>, nodes: seq<Node>, version: string): (r: Summary) {
    Summary(version,
            Wrap32(|nodes|), Wrap32(FleetGpus(nodes, false)), Wrap32(FleetGpus(nodes, true)),
            Wrap32(models), Wrap32(|services|),
            Wrap32(InPhase(services, Ready)), Wrap32(InPhase(services, Failed)))
  }

  /** buildStatusSummary: running int32 counters that wrap at every addition. */
  method BuildStatusSummary(models: nat, services: seq<ServicePhase>, nodes: seq<Node>, version: string)
    returns (s: Summary)
    ensures s == SiteSummary(models, services, nodes, version)
  {
    var ready, failed := CountServices(services);
    var total, allocatable := CountGpus(nodes);
    s := Summary(version, Wrap32(|nodes|), total, allocatable,
                 Wrap32(models), Wrap32(|services|), ready, failed);
  }

  lemma FleetStep(nodes: seq<Node>, i: nat, allocatable: bool)
    requires i < |nodes|
    ensures Wrap32(FleetGpus(nodes[..i + 1], allocatable)) ==
            Wrap32(Wrap32(FleetGpus(nodes[..i], allocatable)) +
                   Wrap32(Gpus(if allocatable then nodes[i].allocatable else nodes[i].capacity)))
  {
    assert nodes[..i + 1][..i] == nodes[..i];
    WrapAdd32(FleetGpus(nodes[..i], allocatable),
              Gpus(if allocatable then nodes[i].allocatable else nodes[i].capacity));
  }

  method CountGpus(nodes: seq<Node>) returns (total: int, allocatable: int)
    ensures total == Wrap32(FleetGpus(nodes, false)) && allocatable == Wrap32(FleetGpus(nodes, true))
  {
    total, allocatable := 0, 0;
    for i := 0 to |nodes|
      invariant total == Wrap32(FleetGpus(nodes[..i], false))
      invariant allocatable == Wrap32(FleetGpus(nodes[..i], true))
    {
      var c := SumGpuQuantity(nodes[i].capacity);
      var a := SumGpuQuantity(nodes[i].allocatable);
      FleetStep(nodes, i, false);
      FleetStep(nodes, i, true);
      total, allocatable := Wrap32(total + c), Wrap32(allocatable + a);
    }
    assert nodes[..|nodes|] == nodes;
  }

  lemma PhaseStep(services: seq<ServicePhase>, i: nat, phase: ServicePhase)
    requires i < |services|
    ensures Wrap32(InPhase(services[..i + 1], phase)) ==
            if services[i] == phase then Wrap32(Wrap32(InPhase(services[..i], phase)) + 1)
            else Wrap32(InPhase(services[..i], phase))
  {
    assert services[..i + 1][..i] == services[..i];
    WrapLeft32(InPhase(services[..i], phase), 1);
  }

  method CountServices(services: seq<ServicePhase>) returns (ready: int, failed: int)
    ensures ready == Wrap32(InPhase(services, Ready)) && failed == Wrap32(InPhase(services, Failed))
  {
    ready, failed := 0, 0;
    for i := 0 to |services|
      invariant ready == Wrap32(InPhase(services[..i], Ready))
      invariant failed == Wrap32(InPhase(services[..i], Failed))
    {
      PhaseStep(services, i, Ready);
      PhaseStep(services, i, Failed);
      match services[i] {
        case Ready => ready := Wrap32(ready + 1);
        case Failed => failed := Wrap32(failed + 1);
        case OtherPhase =>
      }
    }
    assert services[..|services|] == services;
  }

  // ---- what the counts are --------------------------------------------------

  lemma {:induction false} InPhaseCounts(services: seq<ServicePhase>, phase: ServicePhase)
    ensures InPhase(services, phase) == multiset(services)[phase]
  {
    if services != [] {
      InPhaseCounts(services[..|services| - 1], phase);
      assert services == services[..|services| - 1] + [services[|services| - 1]];
    }
  }

  /** The quantity of one resource, zero when it is not listed. */
  function Quantity(resources: map<string, int>, name: string): (q: int) {
    if name in resources then resources[name] else 0
  }

  /** A list names five kinds of GPU device and nothing else counts. */
  lemma GpusAreTheFiveKinds(resources: map<string, int>)
    ensures Gpus(resources) ==
            Quantity(resources, "nvidia.com/gpu") + Quantity(resources, "amd.com/gpu")
            + Quantity(resources, "gpu.intel.com/i915") + Quantity(resources, "gpu.intel.com/xe")
            + Quantity(resources, "devic.es/dri-render")
  {
    OneMoreName(resources, 0);
    OneMoreName(resources, 1);
    OneMoreName(resources, 2);
    OneMoreName(resources, 3);
    OneMoreName(resources, 4);
    assert GPU_RESOURCES[..5] == GPU_RESOURCES;
  }

  lemma OneMoreName(resources: map<string, int>, k: nat)
    requires k < |GPU_RESOURCES|
    ensures GpusNamed(resources, GPU_RESOURCES[..k + 1]) ==
            GpusNamed(resources, GPU_RESOURCES[..k]) + Quantity(resources, GPU_RESOURCES[k])
  {
    assert GPU_RESOURCES[..k + 1][..k] == GPU_RESOURCES[..k];
  }

  function Total(counts: seq<int>): (t: int) {
    if counts == [] then 0 else counts[0] + Total(counts[1..])
  }

  lemma {:induction false} TotalAppend(counts: seq<int>, c: int)
    ensures Total(counts + [c]) == Total(counts) + c
  {
    if counts == [] {
      assert [] + [c] == [c] && [c][1..] == [];
    } else {
      assert (counts + [c])[1..] == counts[1..] + [c];
      TotalAppend(counts[1..], c);
    }
  }

  function Capacities(nodes: seq<Node>): (r: seq<int>)
    ensures |r| == |nodes| && forall i | 0 <= i < |r| :: r[i] == Gpus(nodes[i].capacity)
  {
    seq(|nodes|, i requires 0 <= i < |nodes| => Gpus(nodes[i].capacity))
  }

  function Allocatables(nodes: seq<Node>): (r: seq<int>)
    ensures |r| == |nodes| && forall i | 0 <= i < |r| :: r[i] == Gpus(nodes[i].allocatable)
  {
    seq(|nodes|, i requires 0 <= i < |nodes| => Gpus(nodes[i].allocatable))
  }

  /** The report in terms of what the site has. */
  lemma SummaryOfSite(models: nat, services: seq<ServicePhase>, nodes: seq<Node>, version: string)
    ensures SiteSummary(models, services, nodes, version) ==
            Summary(version, Wrap32(|nodes|), Wrap32(Total(Capacities(nodes))), Wrap32(Total(Allocatables(nodes))),
                    Wrap32(models), Wrap32(|services|),
                    Wrap32(multiset(services)[Ready]), Wrap32(multiset(services)[Failed]))
  {
    InPhaseCounts(services, Ready);
    InPhaseCounts(services, Failed);
    FleetIsTheSum(nodes);
  }

  /** The fleet's totals are the sums of its nodes' capacities and allocatables. */
  lemma {:induction false} FleetIsTheSum(nodes: seq<Node>)
    ensures FleetGpus(nodes, false) == Total(Capacities(nodes))
    ensures FleetGpus(nodes, true) == Total(Allocatables(nodes))
  {
    if nodes != [] {
      var init, last := nodes[..|nodes| - 1], nodes[|nodes| - 1];
      FleetIsTheSum(init);
      assert Capacities(nodes) == Capacities(init) + [Gpus(last.capacity)];
      assert Allocatables(nodes) == Allocatables(init) + [Gpus(last.allocatable)];
      TotalAppend(Capacities(init), Gpus(last.capacity));
      TotalAppend(Allocatables(init), Gpus(last.allocatable));
    }
  }
}
