/** Whether a service's declared parallelism fits the GPUs it asks for, and the
    two admission points that check it. */
module Parallelism {
  import opened Common

  datatype Vllm = Vllm(tensor: Option<int>, pipeline: Option<int>)
  datatype Sglang = Sglang(tensor: Option<int>, expert: Option<int>, data: Option<int>)

  datatype Mode = Exclusive | Partitioned | Shared

  /** What sharing resolution reads of the Model and the operator's settings. */
  datatype Hardware = Hardware(
    claims: bool, nvidia: bool, amd: bool, resourceOverride: bool, profileValid: bool, sharedPool: bool)

  /** `count` is the resolved GPU count, an int32; `members` the multiNode list. */
  datatype Service = Service(
    mode: Mode, count: int, members: Option<nat>,
    vllm: Option<Vllm>, sglang: Option<Sglang>, hardware: Hardware)

  // ---- multi-node groups ----------------------------------------------------

  datatype Topology = Topology(tensor: int, pipeline: int, expected: int, explicit: bool)

  /** multiNodeParallelism: unset sizes are filled in from the group's GPUs. */
  function ResolveTopology(cfg: Option<Vllm>, members: nat, gpusPerMember: int): (t: Topology) {
    var expected := Wrap32(Wrap32(members) * gpusPerMember);
    var pipeline := if cfg.Some? && cfg.value.pipeline.Some? then cfg.value.pipeline.value else 1;
    var derived := if pipeline > 0 && TruncMod(expected, pipeline) == 0 then TruncDiv(expected, pipeline) else expected;
    var tensor := if cfg.Some? && cfg.value.tensor.Some? then cfg.value.tensor.value else derived;
    Topology(tensor, pipeline, expected, cfg.Some? && (cfg.value.tensor.Some? || cfg.value.pipeline.Some?))
  }

  // ---- parallelismExceedsGPUCount -------------------------------------------

  predicate VllmAccepted(cfg: Vllm, count: int) {
    if cfg.tensor.None? && cfg.pipeline.None? then true
    else
      var tensor := if cfg.tensor.Some? then cfg.tensor.value else count;
      var pipeline := if cfg.pipeline.Some? then cfg.pipeline.value else 1;
      !(cfg.pipeline.None? && tensor > count) && !(Wrap32(tensor * pipeline) > count)
  }

  predicate SglangAccepted(cfg: Sglang, count: int) {
    var tensor := if cfg.tensor.Some? then cfg.tensor.value else 1;
    var data := if cfg.data.Some? then cfg.data.value else 1;
    && !((cfg.tensor.Some? || cfg.data.Some?) && Wrap32(tensor * data) > count)
    && !(cfg.expert.Some? && cfg.expert.value > count)
  }

  /** True when parallelismExceedsGPUCount returns no error. */
  predicate ParallelismAccepted(s: Service) {
    if s.count == 0 then true
    else if s.members.Some? then
      var t := ResolveTopology(s.vllm, s.members.value, s.count);
      !(t.explicit && Wrap32(t.tensor * t.pipeline) != t.expected)
    else
      && (s.vllm.Some? ==> VllmAccepted(s.vllm.value, s.count))
      && (s.sglang.Some? ==> SglangAccepted(s.sglang.value, s.count))
  }

  // ---- sharing --------------------------------------------------------------

  /** True when resolveGPUSharing returns no error. */
  predicate SharingResolved(s: Service) {
    s.mode.Exclusive? ||
    (&& s.count == 1 && !s.hardware.claims
     && match s.mode
        case Partitioned => s.hardware.nvidia && !s.hardware.resourceOverride && s.hardware.profileValid
        case _ => s.hardware.amd || s.hardware.sharedPool)
  }

  predicate Over(v: Option<int>) {
    v.Some? && v.value > 1
  }

  /** True when gpuSharingParallelismConflict returns no error. */
  predicate NoConflict(s: Service) {
    s.mode.Exclusive? ||
    (&& !(s.vllm.Some? && Over(s.vllm.value.tensor))
     && !(s.sglang.Some? && (Over(s.sglang.value.tensor) || Over(s.sglang.value.expert) || Over(s.sglang.value.data))))
  }

  /** validateGPUSharing, at admission. */
  predicate WebhookAccepts(s: Service) {
    SharingResolved(s) && NoConflict(s) && ParallelismAccepted(s)
  }

  /** The reconcile backstop, which does not repeat the conflict check. */
  predicate BackstopAccepts(s: Service) {
    SharingResolved(s) && ParallelismAccepted(s)
  }

  // ---- what acceptance means ------------------------------------------------

  predicate Int32(x: int) {
    MIN_INT32 <= x <= MAX_INT32
  }

  /** The GPUs a multi-node group has. */
  function GroupGpus(s: Service): (n: int)
    requires s.members.Some?
  {
    s.members.value * s.count
  }

  /** For a group whose products fit an int32, acceptance means exactly that every
      GPU is a rank: the resolved sizes, given or derived, multiply to the whole
      group. Unset sizes are always resolved so that they do. */
  lemma GroupAcceptedIffEveryGpuIsARank(s: Service)
    requires s.members.Some? && s.count > 0 && Int32(s.members.value) && Int32(GroupGpus(s))
    requires var t := ResolveTopology(s.vllm, s.members.value, s.count); Int32(t.tensor * t.pipeline)
    ensures var t := ResolveTopology(s.vllm, s.members.value, s.count);
            && (ParallelismAccepted(s) <==> t.tensor * t.pipeline == GroupGpus(s))
            && (!t.explicit ==> t.tensor * t.pipeline == GroupGpus(s))
  {
  }

  predicate Congruent(x: int, y: int) {
    (x - y) % 0x1_0000_0000 == 0
  }

  /** The declared sizes fill a group of that many GPUs, as int32 arithmetic sees it:
      no size at all, sizes whose product is congruent to the group, or a lone
      pipeline size that divides the group or is a wrapped identity on it. */
  predicate FillsGroup(cfg: Option<Vllm>, gpus: int)
    requires cfg.Some? ==> PipelineValid(cfg.value)
  {
    cfg.None? || (cfg.value.tensor.None? && cfg.value.pipeline.None?) ||
    (var pipeline := PipelineOf(cfg.value);
     if cfg.value.tensor.Some? then Congruent(cfg.value.tensor.value * pipeline, gpus)
     else gpus % pipeline == 0 || Congruent(gpus * pipeline, gpus))
  }

  /** The CRD's minimum for the pipeline size. */
  predicate PipelineValid(cfg: Vllm) {
    Positive(cfg.pipeline)
  }

  function PipelineOf(cfg: Vllm): (p: int)
    ensures PipelineValid(cfg) ==> p >= 1
  {
    if cfg.pipeline.Some? then cfg.pipeline.value else 1
  }

  /** A group is accepted exactly when its declared sizes fill it. */
  lemma GroupAcceptedIffFilled(s: Service)
    requires s.members.Some? && s.members.value > 0 && s.count > 0 && Int32(s.members.value) && Int32(GroupGpus(s))
    requires s.vllm.Some? ==> PipelineValid(s.vllm.value)
    ensures ParallelismAccepted(s) <==> FillsGroup(s.vllm, GroupGpus(s))
  {
    GroupAcceptedIffCongruent(s);
    GroupIsPositive(s.members.value, s.count);
    if s.vllm.Some? { DerivedSizeFills(GroupGpus(s), PipelineOf(s.vllm.value)); }
  }

  /** A group that sets only its pipeline size is accepted exactly when that size
      divides the group or multiplies it back to itself modulo 2^32; without the
      wrap-around, exactly when it divides. */
  lemma PipelineAloneMustDivide(s: Service)
    requires s.members.Some? && s.members.value > 0 && s.count > 0 && Int32(s.members.value) && Int32(GroupGpus(s))
    requires s.vllm.Some? && PipelineValid(s.vllm.value) && s.vllm.value.tensor.None? && s.vllm.value.pipeline.Some?
    ensures var gpus, pipeline := GroupGpus(s), s.vllm.value.pipeline.value;
            && (ParallelismAccepted(s) <==> gpus % pipeline == 0 || Congruent(gpus * pipeline, gpus))
            && (Int32(gpus * pipeline) ==> (ParallelismAccepted(s) <==> gpus % pipeline == 0))
  {
    GroupAcceptedIffFilled(s);
    GroupIsPositive(s.members.value, s.count);
    WrapsToItself(GroupGpus(s), s.vllm.value.pipeline.value);
  }

  /** A group of 64 accepts a pipeline size of 2^26 + 1, which does not divide it. */
  lemma WrappedPipelineIsAccepted(s: Service)
    requires s.members == Some(64) && s.count == 1 && s.vllm == Some(Vllm(None, Some(67108865)))
    ensures ParallelismAccepted(s) && GroupGpus(s) % 67108865 != 0
  {
    GroupAcceptedIffFilled(s);
  }

  lemma WrapsToItself(n: int, p: int)
    requires n > 0 && p > 0
    ensures Int32(n * p) && Congruent(n * p, n) ==> n % p == 0
  {
    var d := n * p - n;
    assert d == n * (p - 1);
    if p > 1 {
      GroupIsPositive(n, p - 1);
      assert Int32(n * p) ==> d % 0x1_0000_0000 == d;
    }
  }

  /** The derived tensor size times the pipeline size is the group exactly when the
      pipeline size divides it, and otherwise the group times the pipeline size. */
  lemma DerivedSizeFills(n: int, p: int)
    requires n > 0 && p > 0
    ensures (if TruncMod(n, p) == 0 then TruncDiv(n, p) else n) * p == if n % p == 0 then n else n * p
  {
    TruncOfNaturals(n, p);
    assert n == p * (n / p) + n % p;
  }

  lemma GroupIsPositive(m: int, c: int)
    requires m > 0 && c > 0
    ensures m * c > 0
  {
  }

  /** The ranks a single vLLM pod starts: unset sizes default as the arg builder's do. */
  function VllmWorld(cfg: Vllm, count: int): (n: int) {
    (if cfg.tensor.Some? then cfg.tensor.value else count) * (if cfg.pipeline.Some? then cfg.pipeline.value else 1)
  }

  function SglangWorld(cfg: Sglang): (n: int) {
    (if cfg.tensor.Some? then cfg.tensor.value else 1) * (if cfg.data.Some? then cfg.data.value else 1)
  }

  /** Every explicit size fits the pod. */
  predicate WorldFits(s: Service) {
    && (s.vllm.Some? ==> VllmWorld(s.vllm.value, s.count) <= s.count)
    && (s.sglang.Some? ==> (&& SglangWorld(s.sglang.value) <= s.count
                            && (s.sglang.value.expert.Some? ==> s.sglang.value.expert.value <= s.count)))
  }

  predicate ProductsFit(s: Service) {
    && (s.vllm.Some? ==> Int32(VllmWorld(s.vllm.value, s.count)))
    && (s.sglang.Some? ==> Int32(SglangWorld(s.sglang.value)))
  }

  /** For a single pod with GPUs and products within int32, acceptance means exactly
      that the engines' world sizes fit the pod. */
  lemma PodAcceptedIffWorldFits(s: Service)
    requires s.members.None? && s.count > 0 && ProductsFit(s)
    ensures ParallelismAccepted(s) <==> WorldFits(s)
  {
  }

  /** For any int32 tensor size, which the CRD does not bound below: a vLLM
      configuration is accepted exactly when its world size fits the pod, or leaves
      the int32 range at either end and fits after wrapping. */
  lemma VllmAcceptedIff(cfg: Vllm, count: int)
    requires 1 <= count <= MAX_INT32 && (cfg.tensor.Some? ==> Int32(cfg.tensor.value)) && PipelineValid(cfg)
    ensures VllmAccepted(cfg, count) <==>
            var world := VllmWorld(cfg, count);
            || MIN_INT32 <= world <= count
            || (world > MAX_INT32 && Wrap32(world) <= count)
            || (world < MIN_INT32 && Wrap32(world) <= count)
  {
  }

  /** A tensor size of zero is accepted with any pipeline size on any pod. */
  lemma ZeroTensorIsAccepted(pipeline: int, count: int)
    requires count >= 1
    ensures VllmAccepted(Vllm(Some(0), Some(pipeline)), count)
  {
  }

  /** A world that wraps from below is rejected although it is negative. */
  lemma UnderflowIsRejected(count: int)
    requires 1 <= count < 131071
    ensures var cfg := Vllm(Some(-65535), Some(65535));
            !VllmAccepted(cfg, count) && VllmWorld(cfg, count) < 0
  {
  }

  /** The same for SGLang, whose expert size must fit on its own. */
  lemma SglangAcceptedIff(cfg: Sglang, count: int)
    requires 1 <= count <= MAX_INT32 && Positive(cfg.tensor) && Positive(cfg.data)
    ensures SglangAccepted(cfg, count) <==>
            var world := SglangWorld(cfg);
            && (world <= count || (world > MAX_INT32 && Wrap32(world) <= count))
            && (cfg.expert.Some? ==> cfg.expert.value <= count)
  {
    FactorFitsOne(if cfg.tensor.Some? then cfg.tensor.value else 1, if cfg.data.Some? then cfg.data.value else 1);
  }

  /** A group is accepted exactly when its explicit sizes multiply to the group's
      GPUs modulo 2^32. */
  lemma GroupAcceptedIffCongruent(s: Service)
    requires s.members.Some? && s.count > 0
    ensures var t := ResolveTopology(s.vllm, s.members.value, s.count);
            ParallelismAccepted(s) <==>
            !t.explicit || Congruent(t.tensor * t.pipeline, GroupGpus(s))
  {
    var t := ResolveTopology(s.vllm, s.members.value, s.count);
    WrapFactor32(s.members.value, s.count);
    WrapEqualIff(t.tensor * t.pipeline, GroupGpus(s));
  }

  lemma WrapFactor32(m: int, c: int)
    ensures Wrap32(Wrap32(m) * c) == Wrap32(m * c)
  {
    var k := (m - Wrap32(m)) / 0x1_0000_0000;
    assert m * c == Wrap32(m) * c + 0x1_0000_0000 * (k * c);
    WrapShift32(Wrap32(m) * c, k * c);
  }

  lemma WrapEqualIff(x: int, y: int)
    ensures Wrap32(x) == Wrap32(y) <==> Congruent(x, y)
  {
  }

  /** Without the int32 bound it does not: sizes of 65536 by 65536 wrap to zero. */
  lemma WrappedWorldIsAccepted(s: Service)
    requires s.members.None? && s.count > 0 && s.sglang.None?
    requires s.vllm == Some(Vllm(Some(65536), Some(65536)))
    ensures ParallelismAccepted(s) && VllmWorld(s.vllm.value, s.count) == 0x1_0000_0000
  {
  }

  predicate Positive(v: Option<int>) {
    v.Some? ==> 1 <= v.value <= MAX_INT32
  }

  /** What the CRD admits: every size an int32 and at least one, except vLLM's
      tensor size, which has no minimum; two to 64 members. */
  predicate CrdValid(s: Service) {
    && (s.members.Some? ==> 2 <= s.members.value <= 64)
    && (s.vllm.Some? ==>
          PipelineValid(s.vllm.value) && (s.vllm.value.tensor.Some? ==> Int32(s.vllm.value.tensor.value)))
    && (s.sglang.Some? ==>
          Positive(s.sglang.value.tensor) && Positive(s.sglang.value.expert) && Positive(s.sglang.value.data))
  }

  lemma FactorFitsOne(a: int, b: int)
    requires a >= 1 && b >= 1
    ensures a * b <= 1 ==> a == 1 && b == 1
    ensures a * b >= a && a * b >= b
  {
    assert a * b == a + a * (b - 1) && a * b == b + b * (a - 1);
  }

  /** Without a known GPU count nothing is checked, whatever sizes are declared. */
  lemma UnknownCountIsAccepted(s: Service)
    requires s.count == 0
    ensures ParallelismAccepted(s)
  {
  }

  /** What each sharing mode needs beyond a single GPU without resource claims: a
      partition an NVIDIA device, its own resource name and a valid profile; a shared
      seat an AMD device or a configured pool. */
  lemma SharingNeeds(s: Service)
    ensures s.mode == Exclusive ==> SharingResolved(s)
    ensures s.mode != Exclusive && SharingResolved(s) ==> s.count == 1 && !s.hardware.claims
    ensures s.count == 1 && !s.hardware.claims ==>
              && (s.mode == Partitioned ==>
                    (SharingResolved(s) <==>
                     s.hardware.profileValid && s.hardware.nvidia && !s.hardware.resourceOverride))
              && (s.mode == Shared ==> (SharingResolved(s) <==> !(!s.hardware.amd && !s.hardware.sharedPool)))
  {
  }

  // ---- sharing forces a single device, except through the pipeline size -----

  predicate PipelineOver(s: Service) {
    s.vllm.Some? && Over(s.vllm.value.pipeline)
  }

  predicate SglangOver(s: Service) {
    s.sglang.Some? && (Over(s.sglang.value.tensor) || Over(s.sglang.value.expert) || Over(s.sglang.value.data))
  }

  /** One GPU and no explicit size above one. */
  predicate SingleDevice(s: Service) {
    s.count == 1 && !(s.vllm.Some? && Over(s.vllm.value.tensor)) && !PipelineOver(s) && !SglangOver(s)
  }

  /** The pipeline sizes above one that neither sharing rule stops: on a pod, beside
      a tensor size of zero or less whose product does not wrap above one; in a
      group, any that fills it. */
  predicate PipelineSlips(s: Service)
    requires s.vllm.Some? && PipelineValid(s.vllm.value)
  {
    if s.members.Some? then FillsGroup(s.vllm, s.members.value)
    else
      var cfg := s.vllm.value;
      cfg.tensor.Some? && cfg.tensor.value <= 0 && Wrap32(cfg.tensor.value * PipelineOf(cfg)) <= 1
  }

  /** For every service the CRD admits, in a partitioned or shared mode whose other
      sharing rules pass: a pipeline size above one is admitted exactly when it slips. */
  lemma SharedPipelineAdmittedIff(s: Service)
    requires CrdValid(s) && !s.mode.Exclusive? && SharingResolved(s) && NoConflict(s) && PipelineOver(s)
    ensures WebhookAccepts(s) <==> PipelineSlips(s)
  {
    if s.members.Some? {
      GroupAcceptedIffFilled(s);
    } else {
      SharedPodAcceptedIff(s);
    }
  }

  /** Parallelism of a one-GPU pod, by declared sizes. */
  lemma SharedPodAcceptedIff(s: Service)
    requires CrdValid(s) && s.members.None? && s.count == 1
    ensures ParallelismAccepted(s) <==>
            && (s.vllm.Some? ==> Wrap32(VllmWorld(s.vllm.value, 1)) <= 1)
            && (s.sglang.Some? ==> Wrap32(SglangWorld(s.sglang.value)) <= 1 && !Over(s.sglang.value.expert))
  {
    if s.vllm.Some? { VllmAcceptedIff(s.vllm.value, 1); }
    if s.sglang.Some? { SglangAcceptedIff(s.sglang.value, 1); }
  }

  /** Admission of a partitioned or shared service forces one GPU and no explicit
      tensor, expert or data size above one, and a service it admits is single-device
      unless its pipeline size slips. */
  lemma SharedServiceIsSingleDevice(s: Service)
    requires !s.mode.Exclusive? && WebhookAccepts(s)
    ensures s.count == 1
    ensures s.vllm.Some? ==> !Over(s.vllm.value.tensor)
    ensures !SglangOver(s)
    ensures CrdValid(s) ==> SingleDevice(s) || (PipelineOver(s) && PipelineSlips(s))
  {
    if CrdValid(s) && PipelineOver(s) { SharedPipelineAdmittedIff(s); }
  }

  /** So admission forces a single device exactly for the services whose pipeline
      size does not slip. */
  lemma SharingForcesSingleDeviceIff(s: Service)
    requires CrdValid(s) && !s.mode.Exclusive?
    ensures (WebhookAccepts(s) ==> SingleDevice(s)) <==>
            !(SharingResolved(s) && NoConflict(s) && PipelineOver(s) && PipelineSlips(s))
  {
    if SharingResolved(s) && NoConflict(s) && PipelineOver(s) { SharedPipelineAdmittedIff(s); }
  }

  /** Two services the webhook admits with a pipeline size above one on one shared
      GPU: a two-member group with size two, and a pod with size eight. */
  lemma SharedPipelineSlipsThrough(h: Hardware)
    requires h.sharedPool && !h.claims
    ensures var group := Service(Shared, 1, Some(2), Some(Vllm(None, Some(2))), None, h);
            CrdValid(group) && WebhookAccepts(group) && !SingleDevice(group)
    ensures var pod := Service(Shared, 1, None, Some(Vllm(Some(0), Some(8))), None, h);
            CrdValid(pod) && WebhookAccepts(pod) && !SingleDevice(pod)
  {
  }

  // ---- the two admission points ---------------------------------------------

  /** On a pod they differ when every product that is checked fits after wrapping
      and at least one of them did overflow. */
  predicate PodDiffers(s: Service) {
    && (s.vllm.Some? ==> Wrap32(VllmWorld(s.vllm.value, 1)) <= 1)
    && (s.sglang.Some? ==> Wrap32(SglangWorld(s.sglang.value)) <= 1 && !Over(s.sglang.value.expert))
    && (|| (s.vllm.Some? && VllmWorld(s.vllm.value, 1) > MAX_INT32)
        || (s.sglang.Some? && SglangWorld(s.sglang.value) > MAX_INT32))
  }

  /** In a group they differ when the vLLM sizes fill it and its tensor size, or any
      SGLang size, is above one: SGLang sizes are not looked at there. */
  predicate GroupDiffers(s: Service)
    requires s.members.Some? && (s.vllm.Some? ==> PipelineValid(s.vllm.value))
  {
    FillsGroup(s.vllm, s.members.value) && ((s.vllm.Some? && Over(s.vllm.value.tensor)) || SglangOver(s))
  }

  /** For every service the CRD admits: the reconcile backstop accepts whatever the
      webhook accepts, and accepts more exactly for the shared or partitioned pods
      with a wrapping product and groups with an unchecked size above one. */
  lemma BackstopAgreesIff(s: Service)
    requires CrdValid(s)
    ensures WebhookAccepts(s) ==> BackstopAccepts(s)
    ensures (BackstopAccepts(s) <==> WebhookAccepts(s)) <==>
            !(&& !s.mode.Exclusive? && SharingResolved(s)
              && if s.members.None? then PodDiffers(s) else GroupDiffers(s))
  {
    if !s.mode.Exclusive? && SharingResolved(s) {
      if s.members.Some? {
        GroupAcceptedIffFilled(s);
      } else {
        SharedPodAcceptedIff(s);
        if ParallelismAccepted(s) { ConflictOnPodIff(s); }
      }
    }
  }

  /** On an accepted one-GPU pod, a size the conflict check objects to is the same as
      an overflowed product. */
  lemma ConflictOnPodIff(s: Service)
    requires CrdValid(s) && s.members.None? && s.count == 1 && !s.mode.Exclusive? && ParallelismAccepted(s)
    ensures !NoConflict(s) <==> PodDiffers(s)
  {
    SharedPodAcceptedIff(s);
    if s.vllm.Some? { TensorOverIff(s.vllm.value); }
    if s.sglang.Some? {
      FactorFitsOne(if s.sglang.value.tensor.Some? then s.sglang.value.tensor.value else 1,
                    if s.sglang.value.data.Some? then s.sglang.value.data.value else 1);
    }
  }

  lemma TensorOverIff(cfg: Vllm)
    requires PipelineValid(cfg) && (cfg.tensor.Some? ==> Int32(cfg.tensor.value))
    requires Wrap32(VllmWorld(cfg, 1)) <= 1
    ensures Over(cfg.tensor) <==> VllmWorld(cfg, 1) > MAX_INT32
  {
    var tensor, pipeline := if cfg.tensor.Some? then cfg.tensor.value else 1, PipelineOf(cfg);
    if tensor >= 1 {
      FactorFitsOne(tensor, pipeline);
    } else {
      ProductNotPositive(tensor, pipeline);
    }
  }

  lemma ProductNotPositive(a: int, b: int)
    requires a <= 0 && b >= 1
    ensures a * b <= 0
  {
  }

  /** Three services the backstop accepts and the webhook rejects: a group with tensor
      size two, a group with SGLang tensor size eight, and a pod with sizes of 65536. */
  lemma BackstopMissesSharedService(h: Hardware)
    requires h.sharedPool && !h.claims
    ensures var s := Service(Shared, 1, Some(2), Some(Vllm(Some(2), None)), None, h);
            CrdValid(s) && BackstopAccepts(s) && !WebhookAccepts(s)
    ensures var s := Service(Shared, 1, Some(2), None, Some(Sglang(Some(8), None, None)), h);
            CrdValid(s) && BackstopAccepts(s) && !WebhookAccepts(s)
    ensures var s := Service(Shared, 1, None, Some(Vllm(Some(65536), Some(65536))), None, h);
            CrdValid(s) && BackstopAccepts(s) && !WebhookAccepts(s)
  {
  }
}
