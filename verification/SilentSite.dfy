/** What the stored phase does once a site stops pushing. */
module SilentSite {
  import opened Common
  import opened Conditions
  import opened EdgeSummary
  import opened Federation
  import opened Heartbeat

  function RunFrom(cfg: Config, sys: System, events: seq<Event>): (r: System)
    requires cfg.precision > 0
  {
    if events == [] then sys
    else Step(cfg, RunFrom(cfg, sys, events[..|events| - 1]), events[|events| - 1])
  }

  lemma {:induction false} RunSplits(cfg: Config, events: seq<Event>, more: seq<Event>)
    requires cfg.precision > 0
    ensures Run(cfg, events + more) == RunFrom(cfg, Run(cfg, events), more)
  {
    if more == [] {
      assert events + more == events;
    } else {
      assert (events + more)[..|events + more| - 1] == events + more[..|more| - 1];
      RunSplits(cfg, events, more[..|more| - 1]);
    }
  }

  predicate HasPhase(sys: System) {
    PhaseField in sys.stored && sys.stored[PhaseField].PhaseIs?
  }

  function StoredRank(sys: System): (r: nat)
    requires HasPhase(sys)
  {
    Rank(sys.stored[PhaseField].phase)
  }

  /** Everything but a push that lands. */
  predicate Silent(e: Event) {
    e.EdgePatch? ==> !e.lands
  }

  /** The stored phase was read off the stored heartbeat at time `a`, no hub pass that
      could still write read before that, and none read after `t`. */
  ghost predicate Settled(cfg: Config, sys: System, a: Time, t: Time)
    requires cfg.precision > 0
  {
    && Inv(cfg, sys) && a <= t
    && Lookup(sys.stored, PhaseField) == Some(PhaseIs(PhaseFor(HeartbeatOf(sys.stored), cfg.intervalSeconds, a)))
    && (forall id | id in sys.hubs && sys.hubs[id].version == sys.version :: a <= sys.hubs[id].at <= t)
  }

  function Later(e: Event, t: Time): (r: Time) {
    if e.HubGet? then e.now else t
  }

  /** One step without a landed push moves a settled phase only forward. */
  lemma SilentStep(cfg: Config, sys: System, e: Event, a: Time, t: Time) returns (b: Time)
    requires cfg.precision > 0 && MIN_INT32 <= cfg.intervalSeconds <= MAX_INT32
    requires Settled(cfg, sys, a, t) && Silent(e) && t <= Later(e, t)
    ensures Settled(cfg, Step(cfg, sys, e), b, Later(e, t))
    ensures StoredRank(sys) <= StoredRank(Step(cfg, sys, e))
    ensures HeartbeatOf(Step(cfg, sys, e).stored) == HeartbeatOf(sys.stored)
  {
    StepKeepsInv(cfg, sys, e);
    b := a;
    if e.HubUpdate? && e.id in sys.hubs && sys.hubs[e.id].version == sys.version {
      UpdateSettles(cfg, sys, e.id, a, t);
      b := sys.hubs[e.id].at;
      PhaseOnlyDecays(HeartbeatOf(sys.stored), cfg.intervalSeconds, a, b);
      if Step(cfg, sys, e).stored == sys.stored { b := a; }
    }
  }

  lemma UpdateSettles(cfg: Config, sys: System, id: nat, a: Time, t: Time)
    requires cfg.precision > 0 && Settled(cfg, sys, a, t)
    requires id in sys.hubs && sys.hubs[id].version == sys.version
    ensures var next := Step(cfg, sys, HubUpdate(id));
            && HeartbeatOf(next.stored) == HeartbeatOf(sys.stored)
            && Lookup(next.stored, PhaseField)
               == Some(PhaseIs(PhaseFor(HeartbeatOf(sys.stored), cfg.intervalSeconds, sys.hubs[id].at)))
            && (next.stored != sys.stored ==> next.version == sys.version + 1)
  {
    assert sys.hubs[id].status == sys.stored;
  }

  /** A stretch without a landed push whose hub reads follow a monotone clock from `t` on. */
  predicate Watch(events: seq<Event>, t: Time) {
    events == [] ||
    (var init, last := events[..|events| - 1], events[|events| - 1];
     Watch(init, t) && Silent(last) && Clocked(init, t) <= Later(last, Clocked(init, t)))
  }

  /** The time of the last hub read, `t` when there is none. */
  function Clocked(events: seq<Event>, t: Time): (r: Time) {
    if events == [] then t else Later(events[|events| - 1], Clocked(events[..|events| - 1], t))
  }

  lemma {:induction false} WatchKeepsSettled(cfg: Config, sys: System, events: seq<Event>, a: Time, t: Time) returns (b: Time)
    requires cfg.precision > 0 && MIN_INT32 <= cfg.intervalSeconds <= MAX_INT32
    requires Settled(cfg, sys, a, t) && Watch(events, t)
    ensures Settled(cfg, RunFrom(cfg, sys, events), b, Clocked(events, t))
  {
    if events == [] {
      b := a;
    } else {
      var init := events[..|events| - 1];
      var c := WatchKeepsSettled(cfg, sys, init, a, t);
      b := SilentStep(cfg, RunFrom(cfg, sys, init), events[|events| - 1], c, Clocked(init, t));
    }
  }

  lemma {:induction false} WatchPrefix(events: seq<Event>, t: Time, i: nat)
    requires Watch(events, t) && i <= |events|
    ensures Watch(events[..i], t)
  {
    if i == |events| {
      assert events[..i] == events;
    } else {
      assert events[..|events| - 1][..i] == events[..i];
      WatchPrefix(events[..|events| - 1], t, i);
    }
  }

  /** Once pushes stop and the phase is settled, the stored phase moves only forward
      from Connected over Stale to Unreachable, whatever hub passes are in flight. */
  lemma {:induction false} StoredPhaseOnlyDecays(cfg: Config, sys: System, events: seq<Event>, a: Time, t: Time, i: nat)
    requires cfg.precision > 0 && MIN_INT32 <= cfg.intervalSeconds <= MAX_INT32
    requires Settled(cfg, sys, a, t) && Watch(events, t) && i <= |events|
    ensures HasPhase(RunFrom(cfg, sys, events[..i])) && HasPhase(RunFrom(cfg, sys, events))
    ensures StoredRank(RunFrom(cfg, sys, events[..i])) <= StoredRank(RunFrom(cfg, sys, events))
  {
    WatchPrefix(events, t, i);
    var p := WatchKeepsSettled(cfg, sys, events[..i], a, t);
    if i == |events| {
      assert events[..i] == events;
    } else {
      var init := events[..|events| - 1];
      assert init[..i] == events[..i];
      StoredPhaseOnlyDecays(cfg, sys, init, a, t, i);
      var c := WatchKeepsSettled(cfg, sys, init, a, t);
      var b := SilentStep(cfg, RunFrom(cfg, sys, init), events[|events| - 1], c, Clocked(init, t));
    }
  }

  /** After any run, one hub pass with no other in flight settles the phase. */
  lemma PassSettles(cfg: Config, events: seq<Event>, id: nat, now: Time)
    requires cfg.precision > 0 && Run(cfg, events).hubs == map[]
    ensures Settled(cfg, Run(cfg, events + [HubGet(id, now)] + [HubUpdate(id)]), now, now)
  {
    var read := events + [HubGet(id, now)];
    UndisturbedPassIsAccurate(cfg, events, id, now);
    RunKeepsInv(cfg, events);
    RunKeepsInv(cfg, read + [HubUpdate(id)]);
    StoredHeartbeat(cfg, Run(cfg, events));
    assert read[..|events|] == events && (read + [HubUpdate(id)])[..|read|] == read;
    SameHeartbeat(Run(cfg, events).stored, Run(cfg, read + [HubUpdate(id)]).stored);
  }

  lemma SameHeartbeat(s: Federation.Status, t: Federation.Status)
    requires SameEdgeFields(s, t) || SameEdgeFields(t, s)
    ensures HeartbeatOf(s) == HeartbeatOf(t)
  {
    assert Lookup(s, HeartbeatField) == Lookup(t, HeartbeatField);
  }

  /** Any pass more than ten effective intervals after the last landed push, with no
      push in between, stores Unreachable. */
  lemma SilentSiteIsStoredUnreachable(cfg: Config, events: seq<Event>, id: nat, now: Time)
    requires cfg.precision > 0 && MIN_INT32 <= cfg.intervalSeconds <= MAX_INT32
    requires Run(cfg, events).pushed.Some?
    requires now - Run(cfg, events).pushed.value.heartbeat > 10 * Interval(cfg.intervalSeconds)
    ensures Lookup(Run(cfg, events + [HubGet(id, now)] + [HubUpdate(id)]).stored, PhaseField) == Some(PhaseIs(Unreachable))
  {
    UndisturbedPassIsAccurate(cfg, events, id, now);
    TenIntervalsIsUnreachable(Run(cfg, events).pushed.value.heartbeat, cfg.intervalSeconds, now);
  }

  /** Why no other pass may be in flight: when the stored phase already says what the
      later of two reads wants, that pass writes nothing, and the write of the earlier
      read is still accepted. */
  lemma EarlierReadMovesPhaseBack(cfg: Config, sys: System, early: nat, late: nat)
    requires cfg.precision > 0 && Inv(cfg, sys) && early != late && early in sys.hubs && late in sys.hubs
    requires sys.hubs[early].version == sys.version && sys.hubs[late].version == sys.version
    requires sys.hubs[early].want == Connected && sys.hubs[late].want == Stale
    requires Lookup(sys.stored, PhaseField) == Some(PhaseIs(Stale))
    ensures var after := Step(cfg, sys, HubUpdate(late));
            && Lookup(after.stored, PhaseField) == Some(PhaseIs(Stale))
            && Lookup(Step(cfg, after, HubUpdate(early)).stored, PhaseField) == Some(PhaseIs(Connected))
  {
    assert sys.hubs[late].status == sys.stored && sys.hubs[early].status == sys.stored;
  }

  function AfterPush(cfg: Config, sys: System, s: Summary, t: Time): (r: System)
    requires cfg.precision > 0
  {
    Step(cfg, Step(cfg, sys, EdgeGet(s)), EdgePatch(t, true))
  }

  function AfterReads(cfg: Config, sys: System, first: Time, second: Time): (r: System)
    requires cfg.precision > 0
  {
    Step(cfg, Step(cfg, sys, HubGet(0, first)), HubGet(1, second))
  }

  /** What `EarlierReadMovesPhaseBack` asks of a state, for the passes 0 and 1. */
  ghost predicate Divided(cfg: Config, sys: System)
    requires cfg.precision > 0
  {
    && Inv(cfg, sys) && 0 in sys.hubs && 1 in sys.hubs
    && sys.hubs[0].version == sys.version && sys.hubs[1].version == sys.version
    && sys.hubs[0].want == Connected && sys.hubs[1].want == Stale
    && Lookup(sys.stored, PhaseField) == Some(PhaseIs(Stale))
  }

  /** Such a state follows every run that has stored Stale: the site comes back, one
      pass reads it while its heartbeat is fresh and another once it is old.
      `ReadsAfterPush` gives such times for every push. */
  lemma EarlierReadIsReachable(cfg: Config, events: seq<Event>, s: Summary, t: Time, first: Time, second: Time)
    requires cfg.precision > 0 && Run(cfg, events).edgeClock <= t
    requires Lookup(Run(cfg, events).stored, PhaseField) == Some(PhaseIs(Stale))
    requires PhaseFor(Some(Truncate(t, cfg.precision)), cfg.intervalSeconds, first) == Connected
    requires PhaseFor(Some(Truncate(t, cfg.precision)), cfg.intervalSeconds, second) == Stale
    ensures Divided(cfg, AfterReads(cfg, AfterPush(cfg, Run(cfg, events), s, t), first, second))
  {
    RunKeepsInv(cfg, events);
    PushReturns(cfg, Run(cfg, events), s, t);
    DividedByReads(cfg, AfterPush(cfg, Run(cfg, events), s, t), first, second);
  }

  lemma PushReturns(cfg: Config, sys: System, s: Summary, t: Time)
    requires cfg.precision > 0 && Inv(cfg, sys) && sys.edgeClock <= t
    ensures var next := AfterPush(cfg, sys, s, t);
            && Inv(cfg, next) && HeartbeatOf(next.stored) == Some(Truncate(t, cfg.precision))
            && Lookup(next.stored, PhaseField) == Lookup(sys.stored, PhaseField)
  {
    var read := Step(cfg, sys, EdgeGet(s));
    StepKeepsInv(cfg, sys, EdgeGet(s));
    PushKeepsPhase(cfg, read, t);
    StepKeepsInv(cfg, read, EdgePatch(t, true));
    StoredHeartbeat(cfg, Step(cfg, read, EdgePatch(t, true)));
  }

  lemma DividedByReads(cfg: Config, sys: System, first: Time, second: Time)
    requires cfg.precision > 0 && Inv(cfg, sys) && Lookup(sys.stored, PhaseField) == Some(PhaseIs(Stale))
    requires PhaseFor(HeartbeatOf(sys.stored), cfg.intervalSeconds, first) == Connected
    requires PhaseFor(HeartbeatOf(sys.stored), cfg.intervalSeconds, second) == Stale
    ensures Divided(cfg, AfterReads(cfg, sys, first, second))
  {
    ReadTwice(cfg, sys, first, second);
  }

  lemma ReadTwice(cfg: Config, sys: System, first: Time, second: Time)
    requires cfg.precision > 0 && Inv(cfg, sys)
    ensures var r := AfterReads(cfg, sys, first, second);
            && Inv(cfg, r) && r.stored == sys.stored && 0 in r.hubs && 1 in r.hubs
            && r.hubs[0].version == r.version && r.hubs[1].version == r.version
            && r.hubs[0].want == PhaseFor(HeartbeatOf(sys.stored), cfg.intervalSeconds, first)
            && r.hubs[1].want == PhaseFor(HeartbeatOf(sys.stored), cfg.intervalSeconds, second)
  {
    StepKeepsInv(cfg, sys, HubGet(0, first));
    StepKeepsInv(cfg, Step(cfg, sys, HubGet(0, first)), HubGet(1, second));
  }

  lemma PushKeepsPhase(cfg: Config, sys: System, t: Time)
    requires cfg.precision > 0 && Inv(cfg, sys) && sys.edge.Ticking? && sys.edgeClock <= t
    ensures var next := Step(cfg, sys, EdgePatch(t, true));
            && Lookup(next.stored, PhaseField) == Lookup(sys.stored, PhaseField)
            && next.pushed == Some(Push(sys.edge.summary, Truncate(t, cfg.precision)))
  {
    PushLands(sys.edge.base, sys.stored, sys.edge.summary, Truncate(t, cfg.precision));
  }

  lemma ReadsAfterPush(spec: int, t: Time, precision: Duration)
    requires 0 < precision <= SECOND && 0 <= spec <= LARGEST_EXACT_SECONDS
    ensures PhaseFor(Some(Truncate(t, precision)), spec, t) == Connected
    ensures PhaseFor(Some(Truncate(t, precision)), spec, Truncate(t, precision) + 4 * Interval(spec)) == Stale
  {
    Thresholds(spec);
  }
}
