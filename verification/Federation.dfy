/** Two writers, one status: an edge that reads and merge-patches its own
    fields, and hub passes that read and write back the whole status with an
    optimistic version check, interleaved in any order. */
module Federation {
  import opened Common
  import opened Conditions
  import opened EdgeSummary
  import opened Heartbeat

  /** The leaves of the status JSON. Only the phase belongs to the hub. */
  datatype Field =
    | PhaseField | HeartbeatField | VersionField
    | NodesField | GpusTotalField | GpusAllocatableField
    | ModelsField | ServicesTotalField | ServicesReadyField | ServicesFailedField

  datatype Value = Text(text: string) | Number(n: int) | At(time: Time) | PhaseIs(phase: Phase)

  type Status = map<Field, Value>

  predicate EdgeOwned(f: Field) {
    f != PhaseField
  }

  function Lookup(s: Status, f: Field): (r: Option<Value>) {
    if f in s then Some(s[f]) else None
  }

  function HeartbeatOf(s: Status): (r: Option<Time>) {
    if HeartbeatField in s && s[HeartbeatField].At? then Some(s[HeartbeatField].time) else None
  }

  /** The edge-owned leaves of one push; an empty version is omitted from JSON. */
  function EdgeFields(s: Summary, heartbeat: Time): (r: Status)
    ensures PhaseField !in r && HeartbeatOf(r) == Some(heartbeat)
  {
    map[HeartbeatField := At(heartbeat),
        NodesField := Number(s.nodes), GpusTotalField := Number(s.gpusTotal),
        GpusAllocatableField := Number(s.gpusAllocatable),
        ModelsField := Number(s.models), ServicesTotalField := Number(s.servicesTotal),
        ServicesReadyField := Number(s.servicesReady), ServicesFailedField := Number(s.servicesFailed)]
    + (if s.version == "" then map[] else map[VersionField := Text(s.version)])
  }

  /** A status that reports this summary, leaf by leaf. */
  ghost predicate Reports(status: Status, s: Summary, heartbeat: Time) {
    && Lookup(status, HeartbeatField) == Some(At(heartbeat))
    && Lookup(status, VersionField) == (if s.version == "" then None else Some(Text(s.version)))
    && Lookup(status, NodesField) == Some(Number(s.nodes))
    && Lookup(status, GpusTotalField) == Some(Number(s.gpusTotal))
    && Lookup(status, GpusAllocatableField) == Some(Number(s.gpusAllocatable))
    && Lookup(status, ModelsField) == Some(Number(s.models))
    && Lookup(status, ServicesTotalField) == Some(Number(s.servicesTotal))
    && Lookup(status, ServicesReadyField) == Some(Number(s.servicesReady))
    && Lookup(status, ServicesFailedField) == Some(Number(s.servicesFailed))
  }

  lemma PushReports(status: Status, s: Summary, heartbeat: Time)
    requires SameEdgeFields(status, EdgeFields(s, heartbeat))
    ensures Reports(status, s, heartbeat)
  {
  }

  /** The edge's in-memory object after it assigned every field it owns. */
  function Assigned(base: Status, s: Summary, heartbeat: Time): (r: Status) {
    (if PhaseField in base then map[PhaseField := base[PhaseField]] else map[]) + EdgeFields(s, heartbeat)
  }

  /** client.MergeFrom: the leaves that differ; None deletes a leaf. */
  function Diff(base: Status, modified: Status): (r: map<Field, Option<Value>>) {
    map f | f in base.Keys + modified.Keys && Lookup(base, f) != Lookup(modified, f) :: Lookup(modified, f)
  }

  /** The API server's JSON merge. */
  function Merged(current: Status, patch: map<Field, Option<Value>>): (r: Status) {
    map f | f in current.Keys + patch.Keys && (f in patch ==> patch[f].Some?) ::
      if f in patch then patch[f].value else current[f]
  }

  /** A diff patch sets what the writer changed and keeps everything else as it
      is now, not as the writer read it. */
  lemma PatchKeepsForeignWrites(base: Status, modified: Status, current: Status, f: Field)
    ensures Lookup(Merged(current, Diff(base, modified)), f) ==
            if Lookup(base, f) == Lookup(modified, f) then Lookup(current, f) else Lookup(modified, f)
  {
    var patch := Diff(base, modified);
    assert f in patch <==> Lookup(base, f) != Lookup(modified, f);
  }

  datatype Push = Push(summary: Summary, heartbeat: Time)
  datatype Judgement = Judgement(heartbeat: Option<Time>, at: Time)

  datatype EdgeState = Resting | Ticking(base: Status, summary: Summary)

  /** A hub pass between its read and its write. */
  datatype HubCopy = HubCopy(status: Status, version: nat, want: Phase, at: Time)

  /** The stored object, the one edge leader, any number of hub passes in flight,
      and two history variables: the last push that landed and the observation
      behind the last accepted phase write. */
  datatype System = System(
    stored: Status, version: nat,
    edge: EdgeState, edgeClock: Time, hubs: map<nat, HubCopy>,
    pushed: Option<Push>, judged: Option<Judgement>)

  datatype Config = Config(intervalSeconds: int, precision: Duration)

  datatype Event =
    | EdgeGet(summary: Summary)
    | EdgePatch(now: Time, lands: bool)
    | HubGet(id: nat, now: Time)
    | HubUpdate(id: nat)

  const INITIAL: System := System(map[], 0, Resting, ZERO_TIME, map[], None, None)

  function Bump(sys: System, status: Status): (r: System)
    ensures r == sys.(stored := status, version := r.version)
    ensures r.version == if status == sys.stored then sys.version else sys.version + 1
  {
    sys.(stored := status, version := if status == sys.stored then sys.version else sys.version + 1)
  }

  /** One atomic step. An event that does not apply, such as an edge clock that
      runs backwards, changes nothing. */
  function Step(cfg: Config, sys: System, e: Event): (r: System)
    requires cfg.precision > 0
  {
    match e
    case EdgeGet(summary) => sys.(edge := Ticking(sys.stored, summary))
    case EdgePatch(now, lands) =>
      if sys.edge.Resting? || now < sys.edgeClock then sys
      else
        var next := sys.(edge := Resting, edgeClock := now);
        if !lands then next
        else
          var heartbeat := Truncate(now, cfg.precision);
          var patch := Diff(sys.edge.base, Assigned(sys.edge.base, sys.edge.summary, heartbeat));
          Bump(next.(pushed := Some(Push(sys.edge.summary, heartbeat))), Merged(sys.stored, patch))
    case HubGet(id, now) =>
      var want := PhaseFor(HeartbeatOf(sys.stored), cfg.intervalSeconds, now);
      sys.(hubs := sys.hubs[id := HubCopy(sys.stored, sys.version, want, now)])
    case HubUpdate(id) =>
      if id !in sys.hubs then sys
      else
        var copy := sys.hubs[id];
        var next := sys.(hubs := sys.hubs - {id});
        if Lookup(copy.status, PhaseField) == Some(PhaseIs(copy.want)) || copy.version != sys.version then next
        else
          Bump(next.(judged := Some(Judgement(HeartbeatOf(copy.status), copy.at))),
               copy.status[PhaseField := PhaseIs(copy.want)])
  }

  function Run(cfg: Config, events: seq<Event>): (r: System)
    requires cfg.precision > 0
  {
    if events == [] then INITIAL
    else Step(cfg, Run(cfg, events[..|events| - 1]), events[|events| - 1])
  }

  function PushedFields(p: Option<Push>): (r: Status) {
    if p.None? then map[] else EdgeFields(p.value.summary, p.value.heartbeat)
  }

  ghost predicate SameEdgeFields(s: Status, t: Status) {
    forall f | EdgeOwned(f) :: Lookup(s, f) == Lookup(t, f)
  }

  /** The phase leaf is the hub's reading of the heartbeat it judged, or absent. */
  ghost predicate PhaseIsJudged(cfg: Config, sys: System) {
    Lookup(sys.stored, PhaseField) ==
    if sys.judged.None? then None
    else Some(PhaseIs(PhaseFor(sys.judged.value.heartbeat, cfg.intervalSeconds, sys.judged.value.at)))
  }

  ghost predicate Inv(cfg: Config, sys: System)
    requires cfg.precision > 0
  {
    && SameEdgeFields(sys.stored, PushedFields(sys.pushed))
    && PhaseIsJudged(cfg, sys)
    && (sys.pushed.Some? ==> sys.pushed.value.heartbeat <= Truncate(sys.edgeClock, cfg.precision))
    && (sys.edge.Ticking? ==> SameEdgeFields(sys.edge.base, sys.stored))
    && (forall id | id in sys.hubs ::
          && sys.hubs[id].version <= sys.version
          && (sys.hubs[id].version == sys.version ==> sys.hubs[id].status == sys.stored)
          && sys.hubs[id].want == PhaseFor(HeartbeatOf(sys.hubs[id].status), cfg.intervalSeconds, sys.hubs[id].at))
  }

  predicate NotEarlier(a: Option<Time>, b: Option<Time>) {
    a.None? || (b.Some? && a.value <= b.value)
  }

  lemma StoredHeartbeat(cfg: Config, sys: System)
    requires cfg.precision > 0 && Inv(cfg, sys)
    ensures HeartbeatOf(sys.stored) == if sys.pushed.None? then None else Some(sys.pushed.value.heartbeat)
  {
    assert Lookup(sys.stored, HeartbeatField) == Lookup(PushedFields(sys.pushed), HeartbeatField);
  }

  /** A push that lands leaves exactly its own fields, all from the one tick, and
      the phase as it stands at that moment. */
  lemma PushLands(base: Status, current: Status, s: Summary, heartbeat: Time)
    requires SameEdgeFields(base, current)
    ensures var r := Merged(current, Diff(base, Assigned(base, s, heartbeat)));
            && SameEdgeFields(r, EdgeFields(s, heartbeat))
            && Lookup(r, PhaseField) == Lookup(current, PhaseField)
  {
    var modified := Assigned(base, s, heartbeat);
    forall f ensures Lookup(Merged(current, Diff(base, modified)), f) ==
                     if Lookup(base, f) == Lookup(modified, f) then Lookup(current, f) else Lookup(modified, f)
    {
      PatchKeepsForeignWrites(base, modified, current, f);
    }
    assert forall f | EdgeOwned(f) :: Lookup(modified, f) == Lookup(EdgeFields(s, heartbeat), f);
  }

  lemma PatchKeepsInv(cfg: Config, sys: System, now: Time, lands: bool)
    requires cfg.precision > 0 && Inv(cfg, sys)
    ensures var next := Step(cfg, sys, EdgePatch(now, lands));
            Inv(cfg, next) && NotEarlier(HeartbeatOf(sys.stored), HeartbeatOf(next.stored))
  {
    if sys.edge.Ticking? && now >= sys.edgeClock {
      TruncateMonotone(sys.edgeClock, now, cfg.precision);
      PushLands(sys.edge.base, sys.stored, sys.edge.summary, Truncate(now, cfg.precision));
    }
    var next := Step(cfg, sys, EdgePatch(now, lands));
    StoredHeartbeat(cfg, sys);
    StoredHeartbeat(cfg, next);
  }

  lemma UpdateKeepsInv(cfg: Config, sys: System, id: nat)
    requires cfg.precision > 0 && Inv(cfg, sys)
    ensures var next := Step(cfg, sys, HubUpdate(id));
            Inv(cfg, next) && SameEdgeFields(next.stored, sys.stored)
  {
    if id in sys.hubs {
      assert sys.hubs[id].version == sys.version ==> sys.hubs[id].status == sys.stored;
    }
  }

  lemma StepKeepsInv(cfg: Config, sys: System, e: Event)
    requires cfg.precision > 0 && Inv(cfg, sys)
    ensures Inv(cfg, Step(cfg, sys, e))
    ensures NotEarlier(HeartbeatOf(sys.stored), HeartbeatOf(Step(cfg, sys, e).stored))
  {
    match e
    case EdgeGet(_) =>
    case EdgePatch(now, lands) => PatchKeepsInv(cfg, sys, now, lands);
    case HubGet(_, _) =>
    case HubUpdate(id) =>
      UpdateKeepsInv(cfg, sys, id);
      StoredHeartbeat(cfg, sys);
      StoredHeartbeat(cfg, Step(cfg, sys, e));
  }

  lemma {:induction false} RunKeepsInv(cfg: Config, events: seq<Event>)
    requires cfg.precision > 0
    ensures Inv(cfg, Run(cfg, events))
  {
    if events != [] {
      RunKeepsInv(cfg, events[..|events| - 1]);
      StepKeepsInv(cfg, Run(cfg, events[..|events| - 1]), events[|events| - 1]);
    }
  }

  /** In every interleaving the edge-owned fields are, all together, those of the
      last push that landed, and the phase is what the hub computed from a
      heartbeat it had read at that write. */
  lemma EachWriterOwnsItsFields(cfg: Config, events: seq<Event>)
    requires cfg.precision > 0
    ensures var sys := Run(cfg, events);
            && SameEdgeFields(sys.stored, PushedFields(sys.pushed)) && PhaseIsJudged(cfg, sys)
            && (sys.pushed.Some? ==> Reports(sys.stored, sys.pushed.value.summary, sys.pushed.value.heartbeat))
  {
    RunKeepsInv(cfg, events);
    var sys := Run(cfg, events);
    if sys.pushed.Some? { PushReports(sys.stored, sys.pushed.value.summary, sys.pushed.value.heartbeat); }
  }

  /** In every interleaving the stored heartbeat never goes backwards. */
  lemma {:induction false} HeartbeatNeverGoesBack(cfg: Config, events: seq<Event>, i: nat)
    requires cfg.precision > 0 && i <= |events|
    ensures NotEarlier(HeartbeatOf(Run(cfg, events[..i]).stored), HeartbeatOf(Run(cfg, events).stored))
    decreases |events| - i
  {
    if i == |events| {
      assert events[..i] == events;
    } else {
      HeartbeatNeverGoesBack(cfg, events, i + 1);
      assert events[..i + 1][..i] == events[..i];
      RunKeepsInv(cfg, events[..i]);
      StepKeepsInv(cfg, Run(cfg, events[..i]), events[i]);
    }
  }

  lemma HeartbeatOrder(a: Option<Time>, b: Option<Time>, c: Option<Time>)
    requires NotEarlier(a, b) && NotEarlier(b, c)
    ensures NotEarlier(a, c)
  {
  }

  /** A copy in flight after a step was there before, or was read in that step. */
  lemma CopiesComeFromReads(cfg: Config, sys: System, e: Event, id: nat)
    requires cfg.precision > 0 && id in Step(cfg, sys, e).hubs
    ensures || (id in sys.hubs && Step(cfg, sys, e).hubs[id] == sys.hubs[id])
            || (Step(cfg, sys, e).hubs[id].status == sys.stored && Step(cfg, sys, e).stored == sys.stored)
  {
  }

  /** In every interleaving a hub pass in flight holds a heartbeat no later than the
      stored one. */
  lemma {:induction false} CopyIsNotAhead(cfg: Config, events: seq<Event>, id: nat)
    requires cfg.precision > 0 && id in Run(cfg, events).hubs
    ensures NotEarlier(HeartbeatOf(Run(cfg, events).hubs[id].status), HeartbeatOf(Run(cfg, events).stored))
  {
    var init, last := events[..|events| - 1], events[|events| - 1];
    var before := Run(cfg, init);
    RunKeepsInv(cfg, init);
    StepKeepsInv(cfg, before, last);
    CopiesComeFromReads(cfg, before, last, id);
    var after := Step(cfg, before, last);
    if id in before.hubs && after.hubs[id] == before.hubs[id] {
      CopyIsNotAhead(cfg, init, id);
      HeartbeatOrder(HeartbeatOf(before.hubs[id].status), HeartbeatOf(before.stored), HeartbeatOf(after.stored));
    }
  }

  /** Every accepted phase write judged the heartbeat stored at that very moment. A
      copy that is out of date is turned away; and if its heartbeat is another than
      the stored one it is an earlier one, which the write would have put back. */
  lemma StaleCopyIsTurnedAway(cfg: Config, events: seq<Event>, id: nat)
    requires cfg.precision > 0 && id in Run(cfg, events).hubs
    ensures var sys := Run(cfg, events);
            var next := Step(cfg, sys, HubUpdate(id));
            var copy := sys.hubs[id];
            var written := HeartbeatOf(copy.status[PhaseField := PhaseIs(copy.want)]);
            && (next.judged != sys.judged ==> next.judged.value.heartbeat == HeartbeatOf(sys.stored))
            && (copy.status != sys.stored ==> next.stored == sys.stored)
            && (written != HeartbeatOf(sys.stored) ==>
                  && next.stored == sys.stored && HeartbeatOf(sys.stored).Some?
                  && (written.None? || written.value < HeartbeatOf(sys.stored).value))
  {
    RunKeepsInv(cfg, events);
    CopyIsNotAhead(cfg, events, id);
  }

  /** After any run, a hub pass that no push interrupts leaves the phase that the
      last landed push deserves at that instant, and no edge field changed. */
  lemma UndisturbedPassIsAccurate(cfg: Config, events: seq<Event>, id: nat, now: Time)
    requires cfg.precision > 0
    ensures var sys := Run(cfg, events);
            var after := Run(cfg, events + [HubGet(id, now)] + [HubUpdate(id)]);
            var heartbeat := if sys.pushed.None? then None else Some(sys.pushed.value.heartbeat);
            && Lookup(after.stored, PhaseField) == Some(PhaseIs(PhaseFor(heartbeat, cfg.intervalSeconds, now)))
            && SameEdgeFields(after.stored, sys.stored)
  {
    RunKeepsInv(cfg, events);
    StoredHeartbeat(cfg, Run(cfg, events));
    var read := events + [HubGet(id, now)];
    assert read[..|events|] == events;
    assert (read + [HubUpdate(id)])[..|read|] == read;
    RunKeepsInv(cfg, read);
    UpdateKeepsInv(cfg, Run(cfg, read), id);
  }

  /** The FederatedCluster object as the API server holds it. */
  class Datacenter {
    var status: Status
    const precision: Duration

    constructor (precision: Duration)
      requires precision > 0
      ensures this.precision == precision && status == map[]
    {
      this.precision := precision;
      status := map[];
    }

    /** One edge tick with nothing in between: it observes the site, stamps a
        heartbeat and patches. A failed read or patch changes nothing. */
    method Tick(models: nat, services: seq<ServicePhase>, nodes: seq<Node>, version: string,
                now: Time, reachable: bool)
      requires precision > 0
      modifies this`status
      ensures !reachable ==> status == old(status)
      ensures Lookup(status, PhaseField) == old(Lookup(status, PhaseField))
      ensures reachable ==>
                && SameEdgeFields(status, EdgeFields(SiteSummary(models, services, nodes, version), Truncate(now, precision)))
                && Reports(status,
                           Summary(version, Wrap32(|nodes|), Wrap32(Total(Capacities(nodes))),
                                   Wrap32(Total(Allocatables(nodes))), Wrap32(models), Wrap32(|services|),
                                   Wrap32(multiset(services)[Ready]), Wrap32(multiset(services)[Failed])),
                           Truncate(now, precision))
    {
      var summary := BuildStatusSummary(models, services, nodes, version);
      if !reachable {
        return;
      }
      var base := status;
      var modified := Assigned(base, summary, Truncate(now, precision));
      PushLands(base, status, summary, Truncate(now, precision));
      status := Merged(status, Diff(base, modified));
      SummaryOfSite(models, services, nodes, version);
      PushReports(status, summary, Truncate(now, precision));
    }

    /** One hub pass with nothing in between: it leaves the phase that the stored
        heartbeat deserves, touches nothing else and asks to come back within one
        effective interval. */
    method ReconcilePhase(intervalSeconds: int, now: Time) returns (requeueAfter: Duration)
      modifies this`status
      ensures Lookup(status, PhaseField) == Some(PhaseIs(PhaseFor(old(HeartbeatOf(status)), intervalSeconds, now)))
      ensures SameEdgeFields(status, old(status))
      ensures requeueAfter == Interval(intervalSeconds)
    {
      var want := PhaseFor(HeartbeatOf(status), intervalSeconds, now);
      if Lookup(status, PhaseField) != Some(PhaseIs(want)) {
        status := status[PhaseField := PhaseIs(want)];
      }
      requeueAfter := EffectiveSeconds(intervalSeconds) * SECOND;
    }
  }
}
