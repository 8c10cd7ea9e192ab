/** Whether a service still holds work: the endpoint probes and the pod count
    that back them up. */
module IdleCheck {
  import opened Common

  /** What one idle probe reports. */
  datatype Probe = Idle | Busy | Unsupported | Unreachable

  datatype Endpoint = Endpoint(ready: Option<bool>, addresses: seq<string>)
  datatype EndpointSlice = EndpointSlice(endpoints: seq<Endpoint>)

  datatype Pod = Pod(conditions: seq<PodCondition>)
  datatype PodCondition = PodCondition(kind: string, isTrue: bool)
  datatype PodCount = PodCount(total: nat, ready: nat)

  const POD_READY: string := "Ready"

  /** The result of checkServiceIdle: a verdict or one of its three errors. */
  datatype Check = Verdict(idle: bool) | CheckUnsupported | CheckFailed | NoEndpoints

  datatype Reason = PodsBusy | IdleCheckUnsupported | IdleCheckFailed | PodsCrashLooping

  /** What the rollout gate concludes from a check and a pod count. */
  datatype Drain = Drained | Held(reason: Reason)

  /** Everything one pass observes before deciding. `pods` is None when listing
      pods failed; a failed slice listing leaves `slices` empty. */
  datatype Observation = Observation(
    detector: bool, slices: seq<EndpointSlice>, serviceUrl: string, port: int,
    pods: Option<seq<Pod>>)

  function Url(address: string, port: int): (r: string) {
    "http://" + address + ":" + Itoa(port)
  }

  /** An endpoint without a ready condition counts as ready. */
  predicate IsReady(e: Endpoint) {
    e.ready.None? || e.ready.value
  }

  function AddressUrls(addresses: seq<string>, port: int): (r: seq<string>)
    ensures |r| == |addresses|
    ensures forall i | 0 <= i < |r| :: r[i] == Url(addresses[i], port)
  {
    seq(|addresses|, i requires 0 <= i < |addresses| => Url(addresses[i], port))
  }

  function EndpointUrls(es: seq<Endpoint>, port: int, ready: bool): (r: seq<string>) {
    if es == [] then []
    else
      var last := es[|es| - 1];
      EndpointUrls(es[..|es| - 1], port, ready)
      + if IsReady(last) == ready then AddressUrls(last.addresses, port) else []
  }

  /** URLs of the ready (or not-ready) addresses, in slice order. */
  function SliceUrls(ss: seq<EndpointSlice>, port: int, ready: bool): (r: seq<string>) {
    if ss == [] then []
    else SliceUrls(ss[..|ss| - 1], port, ready) + EndpointUrls(ss[|ss| - 1].endpoints, port, ready)
  }

  ghost predicate InEndpoint(e: Endpoint, port: int, url: string) {
    exists k | 0 <= k < |e.addresses| :: url == Url(e.addresses[k], port)
  }

  ghost predicate InSlice(es: seq<Endpoint>, port: int, url: string) {
    exists j | 0 <= j < |es| :: InEndpoint(es[j], port, url)
  }

  /** Some endpoint of some slice has this address, whatever its readiness. */
  ghost predicate Listed(ss: seq<EndpointSlice>, port: int, url: string) {
    exists i | 0 <= i < |ss| :: InSlice(ss[i].endpoints, port, url)
  }

  /** Walks slices, endpoints and addresses, keeping those of one readiness. */
  method CollectReplicaUrls(ss: seq<EndpointSlice>, port: int, ready: bool) returns (urls: seq<string>)
    ensures urls == SliceUrls(ss, port, ready)
  {
    urls := [];
    for i := 0 to |ss|
      invariant urls == SliceUrls(ss[..i], port, ready)
    {
      assert ss[..i + 1][..i] == ss[..i];
      var more := CollectEndpointUrls(ss[i].endpoints, port, ready);
      urls := urls + more;
    }
    assert ss[..|ss|] == ss;
  }

  method CollectEndpointUrls(es: seq<Endpoint>, port: int, ready: bool) returns (urls: seq<string>)
    ensures urls == EndpointUrls(es, port, ready)
  {
    urls := [];
    for j := 0 to |es|
      invariant urls == EndpointUrls(es[..j], port, ready)
    {
      assert es[..j + 1][..j] == es[..j];
      if IsReady(es[j]) != ready {
        continue;
      }
      var more := CollectAddressUrls(es[j].addresses, port);
      urls := urls + more;
    }
    assert es[..|es|] == es;
  }

  method CollectAddressUrls(addresses: seq<string>, port: int) returns (urls: seq<string>)
    ensures urls == AddressUrls(addresses, port)
    ensures forall i | 0 <= i < |addresses| :: urls[i] == "http://" + addresses[i] + ":" + Itoa(port)
  {
    urls := [];
    for k := 0 to |addresses|
      invariant |urls| == k && forall i | 0 <= i < k :: urls[i] == Url(addresses[i], port)
    {
      urls := urls + [Url(addresses[k], port)];
    }
  }

  lemma {:induction false} InEndpointUrls(e: Endpoint, port: int, url: string)
    ensures url in AddressUrls(e.addresses, port) <==> InEndpoint(e, port, url)
  {
    var urls := AddressUrls(e.addresses, port);
    if url in urls {
      var k :| 0 <= k < |urls| && urls[k] == url;
      assert url == Url(e.addresses[k], port);
    }
    if InEndpoint(e, port, url) {
      var k :| 0 <= k < |e.addresses| && url == Url(e.addresses[k], port);
      assert urls[k] == url;
    }
  }

  /** The endpoint has that readiness, where no ready condition means ready, and the
      address. */
  ghost predicate EndpointAs(e: Endpoint, port: int, ready: bool, url: string) {
    (ready <==> e.ready != Some(false)) && InEndpoint(e, port, url)
  }

  ghost predicate InSliceAs(es: seq<Endpoint>, port: int, ready: bool, url: string) {
    exists j | 0 <= j < |es| :: EndpointAs(es[j], port, ready, url)
  }

  ghost predicate ListedAs(ss: seq<EndpointSlice>, port: int, ready: bool, url: string) {
    exists i | 0 <= i < |ss| :: InSliceAs(ss[i].endpoints, port, ready, url)
  }

  lemma {:induction false} InSliceAsSplit(es: seq<Endpoint>, port: int, ready: bool, url: string)
    requires es != []
    ensures InSliceAs(es, port, ready, url) <==>
            InSliceAs(es[..|es| - 1], port, ready, url) || EndpointAs(es[|es| - 1], port, ready, url)
  {
    var init := es[..|es| - 1];
    if j :| 0 <= j < |es| && EndpointAs(es[j], port, ready, url) {
      if j < |es| - 1 { assert EndpointAs(init[j], port, ready, url); }
    }
    if j :| 0 <= j < |init| && EndpointAs(init[j], port, ready, url) {
      assert EndpointAs(es[j], port, ready, url);
    }
  }

  lemma {:induction false} EndpointUrlsByReadiness(es: seq<Endpoint>, port: int, ready: bool, url: string)
    ensures url in EndpointUrls(es, port, ready) <==> InSliceAs(es, port, ready, url)
  {
    if es != [] {
      EndpointUrlsByReadiness(es[..|es| - 1], port, ready, url);
      InEndpointUrls(es[|es| - 1], port, url);
      InSliceAsSplit(es, port, ready, url);
    }
  }

  lemma {:induction false} ListedAsSplit(ss: seq<EndpointSlice>, port: int, ready: bool, url: string)
    requires ss != []
    ensures ListedAs(ss, port, ready, url) <==>
            ListedAs(ss[..|ss| - 1], port, ready, url) || InSliceAs(ss[|ss| - 1].endpoints, port, ready, url)
  {
    var init := ss[..|ss| - 1];
    if i :| 0 <= i < |ss| && InSliceAs(ss[i].endpoints, port, ready, url) {
      if i < |ss| - 1 { assert InSliceAs(init[i].endpoints, port, ready, url); }
    }
    if i :| 0 <= i < |init| && InSliceAs(init[i].endpoints, port, ready, url) {
      assert InSliceAs(ss[i].endpoints, port, ready, url);
    }
  }

  /** Each collection holds exactly the addresses of endpoints of its readiness. */
  lemma {:induction false} CollectionIsByReadiness(ss: seq<EndpointSlice>, port: int, ready: bool, url: string)
    ensures url in SliceUrls(ss, port, ready) <==> ListedAs(ss, port, ready, url)
  {
    if ss != [] {
      CollectionIsByReadiness(ss[..|ss| - 1], port, ready, url);
      EndpointUrlsByReadiness(ss[|ss| - 1].endpoints, port, ready, url);
      ListedAsSplit(ss, port, ready, url);
    }
  }

  lemma {:induction false} InSliceEitherWay(es: seq<Endpoint>, port: int, url: string)
    ensures InSlice(es, port, url) <==> InSliceAs(es, port, true, url) || InSliceAs(es, port, false, url)
  {
    if j :| 0 <= j < |es| && InEndpoint(es[j], port, url) {
      assert EndpointAs(es[j], port, es[j].ready != Some(false), url);
    }
  }

  lemma {:induction false} ListedEitherWay(ss: seq<EndpointSlice>, port: int, url: string)
    ensures Listed(ss, port, url) <==> ListedAs(ss, port, true, url) || ListedAs(ss, port, false, url)
  {
    forall i | 0 <= i < |ss|
      ensures InSlice(ss[i].endpoints, port, url) <==>
              InSliceAs(ss[i].endpoints, port, true, url) || InSliceAs(ss[i].endpoints, port, false, url)
    {
      InSliceEitherWay(ss[i].endpoints, port, url);
    }
  }

  /** The ready and the not-ready collections together miss no listed address. */
  lemma BothCollectionsCoverEveryAddress(ss: seq<EndpointSlice>, port: int, url: string)
    ensures url in SliceUrls(ss, port, true) + SliceUrls(ss, port, false) <==> Listed(ss, port, url)
  {
    CollectionIsByReadiness(ss, port, true, url);
    CollectionIsByReadiness(ss, port, false, url);
    ListedEitherWay(ss, port, url);
  }

  /** checkServiceIdle: probes replicas one by one and stops at the first that
      is busy or fails. */
  method CheckServiceIdle(o: Observation, probe: string -> Probe) returns (check: Check)
    ensures check == CheckOf(o, probe)
  {
    if !o.detector {
      return CheckUnsupported;
    }
    if |o.slices| == 0 {
      match probe(o.serviceUrl) {
        case Unsupported => return CheckUnsupported;
        case Unreachable => return NoEndpoints;
        case Idle => return Verdict(true);
        case Busy => return Verdict(false);
      }
    }
    var urls := CollectReplicaUrls(o.slices, o.port, true);
    var unready := CollectReplicaUrls(o.slices, o.port, false);
    urls := urls + unready;
    if |urls| == 0 {
      return NoEndpoints;
    }
    for i := 0 to |urls|
      invariant ProbeAll(urls, probe) == ProbeAll(urls[i..], probe)
    {
      match probe(urls[i]) {
        case Unsupported => return CheckUnsupported;
        case Unreachable => return CheckFailed;
        case Busy => return Verdict(false);
        case Idle =>
      }
    }
    return Verdict(true);
  }

  /** The first probe that is not idle decides. */
  function ProbeAll(urls: seq<string>, probe: string -> Probe): (r: Check) {
    if urls == [] then Verdict(true)
    else match probe(urls[0])
      case Idle => ProbeAll(urls[1..], probe)
      case Busy => Verdict(false)
      case Unsupported => CheckUnsupported
      case Unreachable => CheckFailed
  }

  function CheckOf(o: Observation, probe: string -> Probe): (r: Check) {
    if !o.detector then CheckUnsupported
    else if o.slices == [] then
      match probe(o.serviceUrl)
      case Idle => Verdict(true)
      case Busy => Verdict(false)
      case Unsupported => CheckUnsupported
      case Unreachable => NoEndpoints
    else
      var urls := ReplicaUrls(o);
      if urls == [] then NoEndpoints else ProbeAll(urls, probe)
  }

  /** A pod is Ready when some Ready condition of it is true. */
  predicate PodIsReady(p: Pod) {
    exists i | 0 <= i < |p.conditions| :: p.conditions[i].kind == POD_READY && p.conditions[i].isTrue
  }

  function ReadyPods(pods: seq<Pod>): (r: nat)
    ensures r <= |pods|
  {
    if pods == [] then 0
    else ReadyPods(pods[..|pods| - 1]) + if PodIsReady(pods[|pods| - 1]) then 1 else 0
  }

  /** countOldPods: a pod counts once however many Ready conditions it carries. */
  method CountOldPods(listed: Option<seq<Pod>>) returns (count: Option<PodCount>)
    ensures count.None? <==> listed.None?
    ensures listed.Some? ==> count.value == PodCount(|listed.value|, ReadyPods(listed.value))
  {
    if listed.None? {
      return None;
    }
    var pods := listed.value;
    var total: nat, ready: nat := 0, 0;
    for i := 0 to |pods|
      invariant total == i && ready == ReadyPods(pods[..i])
    {
      assert pods[..i + 1][..i] == pods[..i];
      total := total + 1;
      var cs := pods[i].conditions;
      var counted := false;
      for j := 0 to |cs|
        invariant !counted
        invariant forall k | 0 <= k < j :: !(cs[k].kind == POD_READY && cs[k].isTrue)
        invariant ready == ReadyPods(pods[..i])
      {
        if cs[j].kind == POD_READY && cs[j].isTrue {
          ready := ready + 1;
          counted := true;
          break;
        }
      }
      assert counted <==> PodIsReady(pods[i]);
    }
    assert pods[..|pods|] == pods;
    return Some(PodCount(total, ready));
  }

  /** Turns a check and a pod count into the gate's decision. With nothing
      addressable the pod count decides, and a failed pod list counts as held. */
  function Resolve(check: Check, pods: Option<seq<Pod>>): (r: Drain) {
    var total := if pods.Some? then |pods.value| else 0;
    var ready := if pods.Some? then ReadyPods(pods.value) else 0;
    match check
    case CheckUnsupported => Held(IdleCheckUnsupported)
    case CheckFailed => Held(IdleCheckFailed)
    case Verdict(idle) =>
      if idle then Drained else if total > ready then Held(PodsCrashLooping) else Held(PodsBusy)
    case NoEndpoints =>
      if pods.Some? && total == 0 then Drained
      else if total > ready then Held(PodsCrashLooping) else Held(PodsBusy)
  }

  function DrainOf(o: Observation, probe: string -> Probe): (r: Drain) {
    Resolve(CheckOf(o, probe), o.pods)
  }

  lemma {:induction false} ProbeAllIdle(urls: seq<string>, probe: string -> Probe)
    ensures ProbeAll(urls, probe) == Verdict(true) <==> forall u | u in urls :: probe(u) == Idle
    ensures ProbeAll(urls, probe) != NoEndpoints
  {
    if urls != [] {
      ProbeAllIdle(urls[1..], probe);
      assert urls == [urls[0]] + urls[1..];
    }
  }

  /** The addresses in probing order: the ready ones first. */
  function ReplicaUrls(o: Observation): (r: seq<string>) {
    SliceUrls(o.slices, o.port, true) + SliceUrls(o.slices, o.port, false)
  }

  /** The first `k` are addresses of ready endpoints, the others of endpoints that are
      not. */
  lemma ReadyOnesComeFirst(o: Observation) returns (k: nat)
    ensures k <= |ReplicaUrls(o)|
    ensures forall i | 0 <= i < k :: ListedAs(o.slices, o.port, true, ReplicaUrls(o)[i])
    ensures forall i | k <= i < |ReplicaUrls(o)| :: ListedAs(o.slices, o.port, false, ReplicaUrls(o)[i])
    ensures forall u | ListedAs(o.slices, o.port, true, u) :: u in ReplicaUrls(o)[..k]
    ensures forall u | ListedAs(o.slices, o.port, false, u) :: u in ReplicaUrls(o)[k..]
  {
    var ready, unready := SliceUrls(o.slices, o.port, true), SliceUrls(o.slices, o.port, false);
    k := |ready|;
    assert ReplicaUrls(o)[..k] == ready && ReplicaUrls(o)[k..] == unready;
    forall u ensures u in ready <==> ListedAs(o.slices, o.port, true, u)
             ensures u in unready <==> ListedAs(o.slices, o.port, false, u)
    {
      CollectionIsByReadiness(o.slices, o.port, true, u);
      CollectionIsByReadiness(o.slices, o.port, false, u);
    }
    forall i | 0 <= i < k ensures ListedAs(o.slices, o.port, true, ReplicaUrls(o)[i]) {
      assert ReplicaUrls(o)[i] == ready[i] && ready[i] in ready;
    }
    forall i | k <= i < |ReplicaUrls(o)| ensures ListedAs(o.slices, o.port, false, ReplicaUrls(o)[i]) {
      assert ReplicaUrls(o)[i] == unready[i - k] && unready[i - k] in unready;
    }
  }

  /** The probe at `i` is the first that is not idle. */
  predicate FirstNotIdle(urls: seq<string>, probe: string -> Probe, i: nat) {
    i < |urls| && probe(urls[i]) != Idle && forall j | 0 <= j < i :: probe(urls[j]) == Idle
  }

  /** That probe gives this answer. */
  ghost predicate Decided(urls: seq<string>, probe: string -> Probe, answer: Probe) {
    exists i: nat :: FirstNotIdle(urls, probe, i) && probe(urls[i]) == answer
  }

  /** The error a deciding probe leads to. */
  predicate LeadsTo(check: Check, answer: Probe) {
    match answer
    case Unsupported => check.CheckUnsupported?
    case Unreachable => check.CheckFailed?
    case Busy => check == Verdict(false)
    case Idle => false
  }

  lemma {:induction false} ProbeAllDecided(urls: seq<string>, probe: string -> Probe, answer: Probe)
    requires answer != Idle
    ensures LeadsTo(ProbeAll(urls, probe), answer) <==> Decided(urls, probe, answer)
  {
    if urls != [] {
      ProbeAllDecided(urls[1..], probe, answer);
      if probe(urls[0]) != Idle {
        assert FirstNotIdle(urls, probe, 0);
      } else {
        forall i: nat | i + 1 < |urls| ensures FirstNotIdle(urls[1..], probe, i) <==> FirstNotIdle(urls, probe, i + 1) {
          FirstNotIdleTail(urls, probe, i);
        }
        if i: nat :| FirstNotIdle(urls[1..], probe, i) && probe(urls[1..][i]) == answer {
          assert FirstNotIdle(urls, probe, i + 1);
        }
        if i: nat :| FirstNotIdle(urls, probe, i) && probe(urls[i]) == answer {
          assert FirstNotIdle(urls[1..], probe, i - 1);
        }
      }
    }
  }

  lemma FirstNotIdleTail(urls: seq<string>, probe: string -> Probe, i: nat)
    requires i + 1 < |urls| && probe(urls[0]) == Idle
    ensures FirstNotIdle(urls[1..], probe, i) <==> FirstNotIdle(urls, probe, i + 1)
  {
    assert forall j | 0 < j < |urls| :: urls[1..][j - 1] == urls[j];
    if FirstNotIdle(urls, probe, i + 1) {
      forall j | 0 <= j < i ensures probe(urls[1..][j]) == Idle { assert urls[1..][j] == urls[j + 1]; }
    }
  }

  /** A check counts as unsupported exactly without a detector, or when the probe that
      decides it says so. */
  lemma UnsupportedIff(o: Observation, probe: string -> Probe)
    ensures CheckOf(o, probe).CheckUnsupported? <==>
            || !o.detector
            || (o.slices == [] && probe(o.serviceUrl) == Unsupported)
            || (o.slices != [] &&
                Decided(ReplicaUrls(o), probe, Unsupported))
  {
    ProbeAllDecided(ReplicaUrls(o), probe, Unsupported);
  }

  /** Every listed address, ready or not, answered idle; there were no slices and the
      Service URL answered idle; or nothing was addressable and the pod list is known
      empty. */
  ghost predicate NothingToDrain(o: Observation, probe: string -> Probe) {
    && o.detector
    && (|| (&& o.slices != []
            && (exists u :: Listed(o.slices, o.port, u))
            && forall u | Listed(o.slices, o.port, u) :: probe(u) == Idle)
        || (o.slices == [] && probe(o.serviceUrl) == Idle)
        || (&& (if o.slices == [] then probe(o.serviceUrl) == Unreachable
                else forall u :: !Listed(o.slices, o.port, u))
            && o.pods == Some([])))
  }

  /** A service is let go as drained in exactly three ways. */
  lemma DrainedInExactlyThreeWays(o: Observation, probe: string -> Probe)
    ensures DrainOf(o, probe).Drained? <==> NothingToDrain(o, probe)
  {
    if o.detector && o.slices != [] {
      SlicesDecide(o, probe);
    }
  }

  /** No detector, or the deciding probe says there is no idle detection. */
  ghost predicate Undetectable(o: Observation, probe: string -> Probe) {
    || !o.detector
    || (if o.slices == [] then probe(o.serviceUrl) == Unsupported else Decided(ReplicaUrls(o), probe, Unsupported))
  }

  /** The deciding replica could not be reached. */
  ghost predicate Unreached(o: Observation, probe: string -> Probe) {
    o.detector && o.slices != [] && Decided(ReplicaUrls(o), probe, Unreachable)
  }

  /** No Ready condition of the pod is true. */
  predicate Unready(p: Pod) {
    forall c | c in p.conditions :: c.kind != "Ready" || !c.isTrue
  }

  predicate SomePodUnready(o: Observation) {
    o.pods.Some? && exists p | p in o.pods.value :: Unready(p)
  }

  /** When each conclusion is right. */
  ghost predicate Warranted(o: Observation, probe: string -> Probe, drain: Drain) {
    match drain
    case Drained => NothingToDrain(o, probe)
    case Held(reason) =>
      match reason
      case IdleCheckUnsupported => Undetectable(o, probe)
      case IdleCheckFailed => Unreached(o, probe)
      case PodsCrashLooping =>
        !NothingToDrain(o, probe) && !Undetectable(o, probe) && !Unreached(o, probe) && SomePodUnready(o)
      case PodsBusy =>
        !NothingToDrain(o, probe) && !Undetectable(o, probe) && !Unreached(o, probe) && !SomePodUnready(o)
  }

  lemma {:induction false} ReadyPodsIff(pods: seq<Pod>)
    ensures ReadyPods(pods) < |pods| <==>
            exists p | p in pods :: Unready(p)
  {
    if pods != [] {
      var init, last := pods[..|pods| - 1], pods[|pods| - 1];
      ReadyPodsIff(init);
      assert pods == init + [last];
      PodIsReadyIff(last);
    }
  }

  lemma PodIsReadyIff(p: Pod)
    ensures PodIsReady(p) <==> !Unready(p)
  {
  }

  /** For all observations and probes the conclusion is the one that is right. */
  lemma WarrantedDrain(o: Observation, probe: string -> Probe)
    ensures Warranted(o, probe, DrainOf(o, probe))
  {
    DrainedInExactlyThreeWays(o, probe);
    UnsupportedIff(o, probe);
    FailedIff(o, probe);
    if o.pods.Some? { ReadyPodsIff(o.pods.value); }
  }

  lemma FailedIff(o: Observation, probe: string -> Probe)
    ensures CheckOf(o, probe).CheckFailed? <==> Unreached(o, probe)
  {
    ProbeAllDecided(ReplicaUrls(o), probe, Unreachable);
  }

  /** And no other is. */
  lemma OneConclusionWarranted(o: Observation, probe: string -> Probe, a: Drain, b: Drain)
    requires Warranted(o, probe, a) && Warranted(o, probe, b)
    ensures a == b
  {
    DrainedInExactlyThreeWays(o, probe);
    UnsupportedIff(o, probe);
    FailedIff(o, probe);
  }

  lemma SlicesDecide(o: Observation, probe: string -> Probe)
    requires o.detector && o.slices != []
    ensures CheckOf(o, probe).NoEndpoints? <==> forall u :: !Listed(o.slices, o.port, u)
    ensures CheckOf(o, probe) == Verdict(true) <==>
            && (exists u :: Listed(o.slices, o.port, u))
            && forall u | Listed(o.slices, o.port, u) :: probe(u) == Idle
  {
    var urls := ReplicaUrls(o);
    forall u ensures u in urls <==> Listed(o.slices, o.port, u) {
      BothCollectionsCoverEveryAddress(o.slices, o.port, u);
    }
    assert urls != [] ==> urls[0] in urls;
    ProbeAllIdle(urls, probe);
  }

  /** The gate's observation: counts the pods, probes the service, and lets the
      pod count decide when there was nothing to probe. */
  method ObserveDrain(o: Observation, probe: string -> Probe) returns (drain: Drain)
    ensures drain == DrainOf(o, probe)
    ensures Warranted(o, probe, drain)
  {
    WarrantedDrain(o, probe);
    var count := CountOldPods(o.pods);
    var check := CheckServiceIdle(o, probe);
    if check.NoEndpoints? {
      check := Verdict(count.Some? && count.value.total == 0);
    }
    if check == Verdict(true) {
      return Drained;
    }
    if check.CheckUnsupported? {
      return Held(IdleCheckUnsupported);
    } else if check.CheckFailed? {
      return Held(IdleCheckFailed);
    } else if count.Some? && count.value.total > count.value.ready {
      return Held(PodsCrashLooping);
    }
    return Held(PodsBusy);
  }
}
