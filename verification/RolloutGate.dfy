/** The drain-before-rollout gate: one reconcile pass over the RolloutDeferred
    condition of an InferenceService. */
module RolloutGate {
  import opened Common
  import opened Conditions
  import opened IdleCheck

  const ROLLOUT_DEFERRED: string := "RolloutDeferred"
  const IDLE_TIMEOUT_EXCEEDED: string := "IdleTimeoutExceeded"
  const IDLE_CHECK_INTERVAL: Duration := 5 * SECOND
  const DEFAULT_TIMEOUT: Duration := 300 * SECOND

  datatype Policy = Policy(waitForIdle: bool, force: bool, idleTimeoutSeconds: int)

  /** RolloutPolicyEnabled. */
  predicate Enabled(policy: Option<Policy>) {
    policy.Some? && policy.value.waitForIdle
  }

  /** ShouldDeferRollout. */
  predicate Gated(policy: Option<Policy>) {
    Enabled(policy) && !policy.value.force
  }

  /** The wait budget: zero means the default, and the product is an int64. */
  function Timeout(p: Policy): (r: Duration) {
    var t := Wrap64(p.idleTimeoutSeconds * SECOND);
    if t == 0 then DEFAULT_TIMEOUT else t
  }

  /** The budget the API documents: the declared seconds, or the default for zero. */
  function DeclaredTimeout(p: Policy): (r: Duration) {
    if p.idleTimeoutSeconds == 0 then 300 * SECOND else p.idleTimeoutSeconds * SECOND
  }

  /** The largest declared budget that still fits a Go duration, in seconds. */
  const LARGEST_EXACT_TIMEOUT: int := 9_223_372_036

  /** For every value the CRD admits, the budget is the declared one exactly up to
      that many seconds. */
  lemma TimeoutAsDeclaredIff(p: Policy)
    requires 0 <= p.idleTimeoutSeconds <= MAX_INT64
    ensures Timeout(p) == DeclaredTimeout(p) <==> p.idleTimeoutSeconds <= LARGEST_EXACT_TIMEOUT
  {
  }

  /** One second more is a negative budget; 2^55 seconds are the five minute default. */
  lemma OverflowedTimeouts(waitForIdle: bool, force: bool)
    ensures Timeout(Policy(waitForIdle, force, LARGEST_EXACT_TIMEOUT + 1)) < 0
    ensures Timeout(Policy(waitForIdle, force, 0x80_0000_0000_0000)) == 300 * SECOND
  {
  }

  /** RequeueAfter of a deferred pass that has waited `waited` so far. */
  function Requeue(timeout: Duration, waited: Duration): (r: Duration)
    ensures r >= 0
  {
    var base := if Wrap64(timeout - IDLE_CHECK_INTERVAL) < IDLE_CHECK_INTERVAL
                then timeout - waited else IDLE_CHECK_INTERVAL;
    if base < 0 then 0 else base
  }

  datatype Cause = PolicyOff | Forced | AllIdle | TimedOut

  datatype Outcome =
    | Proceed(cause: Cause)
    | Deferred(requeueAfter: Duration)
    | SaveFailed
    | TemplateUnchanged

  /** The pair reconcileRolloutPolicy returns. */
  datatype Result = Result(requeueAfter: Duration, failed: bool)

  function Encode(o: Outcome): (r: Result) {
    match o
    case Deferred(after) => Result(after, false)
    case SaveFailed => Result(0, true)
    case _ => Result(0, false)
  }

  /** The caller holds the pod template only on an error or a positive RequeueAfter. */
  predicate Rolls(o: Outcome) {
    !o.TemplateUnchanged? && !Encode(o).failed && Encode(o).requeueAfter <= 0
  }

  /** One reconcile pass: what it saw, its three clock readings (start, after the
      idle check, after the status write) and whether a status write succeeds. */
  datatype Pass = Pass(
    templateChanged: bool, policy: Option<Policy>, drain: Drain,
    now: Time, checked: Time, returned: Time, saved: bool)

  function ReasonText(r: Reason): (s: string) {
    match r
    case PodsBusy => "PodsBusy"
    case IdleCheckUnsupported => "IdleCheckUnsupported"
    case IdleCheckFailed => "IdleCheckFailed"
    case PodsCrashLooping => "PodsCrashLooping"
  }

  /** When the wait began: the stored transition time of any status, else now. */
  function Anchor(prior: Option<Condition>, now: Time): (r: Time) {
    if prior.Some? && prior.value.since != ZERO_TIME then prior.value.since else now
  }

  datatype Decision = Decision(condition: Option<Condition>, writes: bool, outcome: Outcome)

  /** What a pass wants: the new condition, whether it must be saved, the outcome. */
  function Decide(prior: Option<Condition>, p: Pass): (d: Decision) {
    if !p.templateChanged then Decision(None, prior.Some?, TemplateUnchanged)
    else if !Enabled(p.policy) then Decision(None, prior.Some?, Proceed(PolicyOff))
    else if !Gated(p.policy) then Decision(None, prior.Some?, Proceed(Forced))
    else if p.drain.Drained? then Decision(None, prior.Some?, Proceed(AllIdle))
    else
      var timeout := Timeout(p.policy.value);
      var anchor := Anchor(prior, p.now);
      if p.checked - anchor > timeout then
        Decision(
          Some(Merge(prior, Condition(ROLLOUT_DEFERRED, IsFalse, p.now, IDLE_TIMEOUT_EXCEEDED))),
          true, Proceed(TimedOut))
      else
        Decision(
          Some(Merge(prior, Condition(ROLLOUT_DEFERRED, IsTrue, p.now, ReasonText(p.drain.reason)))),
          true, Deferred(Requeue(timeout, p.returned - anchor)))
  }

  function OutcomeOf(prior: Option<Condition>, p: Pass): (o: Outcome) {
    var d := Decide(prior, p);
    if d.writes && !p.saved then SaveFailed else d.outcome
  }

  /** The stored condition after the pass; a failed write leaves it as it was. */
  function Next(prior: Option<Condition>, p: Pass, precision: Duration): (r: Option<Condition>)
    requires precision > 0
  {
    var d := Decide(prior, p);
    if !d.writes || !p.saved then prior else PersistFound(d.condition, precision)
  }

  /** The reason a deferral reports, as text. */
  predicate Reports(r: Reason, text: string) {
    || (r == PodsBusy && text == "PodsBusy")
    || (r == PodsCrashLooping && text == "PodsCrashLooping")
    || (r == IdleCheckFailed && text == "IdleCheckFailed")
    || (r == IdleCheckUnsupported && text == "IdleCheckUnsupported")
  }

  /** What a pass that holds a busy service leaves, whatever it found: False with the
      timeout's reason or True with the current one, since the time it already had
      that status, else since this pass. */
  lemma HeldPassLeaves(prior: Option<Condition>, p: Pass)
    requires p.templateChanged && p.drain.Held?
    requires p.policy.Some? && p.policy.value.waitForIdle && !p.policy.value.force
    ensures var d := Decide(prior, p);
            var since := if prior.Some? && prior.value.since != ZERO_TIME then prior.value.since else p.now;
            && d.writes && d.condition.Some? && d.condition.value.kind == "RolloutDeferred"
            && (if p.checked - since > Timeout(p.policy.value)
                then d.condition.value.status == IsFalse && d.condition.value.reason == "IdleTimeoutExceeded"
                else d.condition.value.status == IsTrue && Reports(p.drain.reason, d.condition.value.reason))
            && d.condition.value.since ==
               if prior.Some? && prior.value.status == d.condition.value.status then prior.value.since else p.now
  {
  }

  /** A pass that finds the template as it was rolls nothing and clears a leftover
      condition, unless that write fails. */
  lemma UnchangedTemplateClears(prior: Option<Condition>, p: Pass, precision: Duration)
    requires !p.templateChanged && precision > 0
    ensures !Rolls(OutcomeOf(prior, p))
    ensures Next(prior, p, precision) == if p.saved then None else prior
    ensures Encode(OutcomeOf(prior, p)) == Result(0, prior.Some? && !p.saved)
  {
  }

  /** What the API server holds. */
  class ApiServer {
    var conditions: seq<Condition>
    const precision: Duration

    constructor (precision: Duration)
      requires precision > 0
      ensures this.precision == precision && conditions == []
    {
      this.precision := precision;
      conditions := [];
    }

    /** Status().Update: stores the caller's list, or fails and changes nothing. */
    method UpdateStatus(isvc: InferenceService, accepted: bool) returns (failed: bool)
      requires precision > 0
      modifies this`conditions
      ensures failed == !accepted
      ensures conditions == if accepted then Persist(isvc.conditions, precision) else old(conditions)
    {
      if accepted {
        conditions := Persist(isvc.conditions, precision);
      }
      failed := !accepted;
    }
  }

  /** The in-memory object one pass works on. */
  class InferenceService {
    var conditions: seq<Condition>
    const policy: Option<Policy>

    constructor (policy: Option<Policy>, stored: seq<Condition>)
      ensures this.policy == policy && conditions == stored
    {
      this.policy := policy;
      conditions := stored;
    }

    method ClearDeferred(api: ApiServer, saved: bool) returns (failed: bool)
      requires api.precision > 0
      modifies this`conditions, api`conditions
      ensures conditions == Remove(old(conditions), ROLLOUT_DEFERRED) || conditions == old(conditions)
      ensures Find(conditions, ROLLOUT_DEFERRED) == None
      ensures forall kind | kind != ROLLOUT_DEFERRED :: Find(conditions, kind) == Find(old(conditions), kind)
      ensures failed == (old(Find(conditions, ROLLOUT_DEFERRED)).Some? && !saved)
      ensures api.conditions ==
              if old(Find(conditions, ROLLOUT_DEFERRED)).Some? && saved
              then Persist(conditions, api.precision) else old(api.conditions)
    {
      failed := false;
      ghost var before := conditions;
      if Find(conditions, ROLLOUT_DEFERRED).Some? {
        conditions := Remove(conditions, ROLLOUT_DEFERRED);
        forall kind ensures kind == ROLLOUT_DEFERRED ==> Find(conditions, kind) == None
                    ensures kind != ROLLOUT_DEFERRED ==> Find(conditions, kind) == Find(before, kind)
        {
          FindAfterRemove(before, ROLLOUT_DEFERRED, kind);
        }
        failed := api.UpdateStatus(this, saved);
      }
    }

    method SetDeferred(api: ApiServer, c: Condition, saved: bool) returns (failed: bool)
      requires api.precision > 0 && c.kind == ROLLOUT_DEFERRED
      modifies this`conditions, api`conditions
      ensures Find(conditions, ROLLOUT_DEFERRED) == Some(Merge(old(Find(conditions, ROLLOUT_DEFERRED)), c))
      ensures forall kind | kind != ROLLOUT_DEFERRED :: Find(conditions, kind) == Find(old(conditions), kind)
      ensures failed == !saved
      ensures api.conditions == if saved then Persist(conditions, api.precision) else old(api.conditions)
    {
      ghost var before := conditions;
      conditions := Set(conditions, c);
      forall kind ensures kind == ROLLOUT_DEFERRED ==> Find(conditions, kind) == Some(Merge(Find(before, kind), c))
                  ensures kind != ROLLOUT_DEFERRED ==> Find(conditions, kind) == Find(before, kind)
      {
        FindAfterSet(before, c, kind);
      }
      failed := api.UpdateStatus(this, saved);
    }

    /** reconcileRolloutPolicy, together with the observations it makes. The
        template has changed, which is when the caller consults the gate. */
    method ReconcileRolloutPolicy(
      api: ApiServer, o: Observation, probe: string -> Probe,
      now: Time, checked: Time, returned: Time, saved: bool)
      returns (result: Result)
      requires api.precision > 0
      requires Find(conditions, ROLLOUT_DEFERRED) == Find(api.conditions, ROLLOUT_DEFERRED)
      modifies this`conditions, api`conditions
      ensures var p := Pass(true, policy, DrainOf(o, probe), now, checked, returned, saved);
              var prior := old(Find(api.conditions, ROLLOUT_DEFERRED));
              && result == Encode(OutcomeOf(prior, p))
              && Find(api.conditions, ROLLOUT_DEFERRED) == Next(prior, p, api.precision)
              && Find(conditions, ROLLOUT_DEFERRED) == Decide(prior, p).condition
      ensures forall kind | kind != ROLLOUT_DEFERRED :: Find(conditions, kind) == Find(old(conditions), kind)
      ensures api.conditions == old(api.conditions) || api.conditions == Persist(conditions, api.precision)
      // Without a policy, without waitForIdle, with force or for a drained service the
      // pass lets the rollout go and clears the condition.
      ensures (policy.None? || !policy.value.waitForIdle || policy.value.force || DrainOf(o, probe).Drained?) ==>
                && result == Result(0, old(Find(conditions, ROLLOUT_DEFERRED)).Some? && !saved)
                && Find(conditions, ROLLOUT_DEFERRED) == None
                && (saved ==> Find(api.conditions, ROLLOUT_DEFERRED) == None)
    {
      if !Enabled(policy) || !Gated(policy) {
        var failed := ClearDeferred(api, saved);
        FindAfterPersist(conditions, api.precision, ROLLOUT_DEFERRED);
        return Result(0, failed);
      }
      var existing := Find(conditions, ROLLOUT_DEFERRED);
      var drain := ObserveDrain(o, probe);
      if drain.Drained? {
        var failed := ClearDeferred(api, saved);
        FindAfterPersist(conditions, api.precision, ROLLOUT_DEFERRED);
        return Result(0, failed);
      }
      var reason := drain.reason;
      var timeout := Timeout(policy.value);
      var deferSince := now;
      if existing.Some? && existing.value.since != ZERO_TIME {
        deferSince := existing.value.since;
      }
      if checked - deferSince > timeout {
        var failed := SetDeferred(api, Condition(ROLLOUT_DEFERRED, IsFalse, now, IDLE_TIMEOUT_EXCEEDED), saved);
        FindAfterPersist(conditions, api.precision, ROLLOUT_DEFERRED);
        return Result(0, failed);
      }
      var failed := SetDeferred(api, Condition(ROLLOUT_DEFERRED, IsTrue, now, ReasonText(reason)), saved);
      FindAfterPersist(conditions, api.precision, ROLLOUT_DEFERRED);
      if failed {
        return Result(0, true);
      }
      return Result(Requeue(timeout, returned - deferSince), false);
    }
  }
}
