/** Whole runs of the rollout gate: when a service that still holds work may be
    rolled, and when a deferred rollout must end. */
module RolloutRuns {
  import opened Common
  import opened Conditions
  import opened IdleCheck
  import opened RolloutGate

  /** The stored condition after a run over an object that began with none. */
  function After(passes: seq<Pass>, precision: Duration): (r: Option<Condition>)
    requires precision > 0
  {
    if passes == [] then None
    else Next(After(passes[..|passes| - 1], precision), passes[|passes| - 1], precision)
  }

  function OutcomeAt(passes: seq<Pass>, precision: Duration, n: nat): (o: Outcome)
    requires precision > 0 && n < |passes|
  {
    OutcomeOf(After(passes[..n], precision), passes[n])
  }

  /** A monotone wall clock, far from Go's zero time. */
  predicate Clock(passes: seq<Pass>, precision: Duration) {
    && (forall i | 0 <= i < |passes| ::
          ZERO_TIME + precision < passes[i].now <= passes[i].checked <= passes[i].returned)
    && (forall i, j | 0 <= i < j < |passes| :: passes[i].returned <= passes[j].now)
  }

  /** The gate applies and the service is not drained. */
  predicate Holding(p: Pass) {
    p.templateChanged && Gated(p.policy) && p.drain.Held?
  }

  /** The wait budget is spent. Below ten seconds a deferral that finds the whole
      budget gone returns a zero RequeueAfter, which the caller reads as "go". */
  predicate Overdue(p: Pass, anchor: Time)
    requires Gated(p.policy)
  {
    var timeout := Timeout(p.policy.value);
    p.checked - anchor > timeout || (timeout < 10 * SECOND && p.returned - anchor >= timeout)
  }

  /** A held service is rolled exactly when its budget is spent and the write lands. */
  lemma HeldRollsIffOverdue(prior: Option<Condition>, p: Pass)
    requires Holding(p) && Anchor(prior, p.now) <= p.checked <= p.returned
    ensures Rolls(OutcomeOf(prior, p)) <==> p.saved && Overdue(p, Anchor(prior, p.now))
  {
    RequeueSign(Timeout(p.policy.value), p.returned - Anchor(prior, p.now));
  }

  /** From ten seconds up a deferral always asks for a five second requeue; below
      that it asks for the rest of the budget, zero once the budget is gone. */
  lemma RequeueSign(timeout: Duration, waited: Duration)
    requires MIN_INT64 <= timeout <= MAX_INT64
    ensures timeout >= 10 * SECOND ==> Requeue(timeout, waited) == IDLE_CHECK_INTERVAL
    ensures 0 <= timeout < 10 * SECOND ==> Requeue(timeout, waited) == if waited < timeout then timeout - waited else 0
  {
    assert timeout >= 0 ==> Wrap64(timeout - IDLE_CHECK_INTERVAL) == timeout - IDLE_CHECK_INTERVAL;
  }

  predicate Shows(c: Option<Condition>, status: Status, since: Time) {
    c.Some? && c.value.status == status && c.value.since == since
  }

  /** Pass `f` set the condition that pass `n` finds, and no pass between changed
      its status or its time. */
  ghost predicate AnchoredAt(passes: seq<Pass>, precision: Duration, n: nat, f: nat)
    requires precision > 0
  {
    && f < n <= |passes|
    && Holding(passes[f]) && passes[f].saved
    && After(passes[..n], precision).Some?
    && var status := After(passes[..n], precision).value.status;
    && (status == if OutcomeAt(passes, precision, f) == Proceed(TimedOut) then IsFalse else IsTrue)
    && (status == IsTrue ==> OutcomeAt(passes, precision, f).Deferred?)
    && (After(passes[..f], precision).Some? ==> After(passes[..f], precision).value.status != status)
    && (forall k | f < k <= n :: Shows(After(passes[..k], precision), status, Truncate(passes[f].now, precision)))
  }

  lemma AnchorStep(passes: seq<Pass>, precision: Duration, n: nat, f: nat)
    requires precision > 0 && n < |passes| && AnchoredAt(passes, precision, n, f)
    requires After(passes[..n + 1], precision).Some?
    requires After(passes[..n + 1], precision).value.status == After(passes[..n], precision).value.status
    ensures AnchoredAt(passes, precision, n + 1, f)
  {
    assert passes[..n + 1][..n] == passes[..n];
    TruncateTwice(passes[f].now, precision);
    var status := After(passes[..n], precision).value.status;
    assert Shows(After(passes[..n], precision), status, Truncate(passes[f].now, precision));
    assert Shows(After(passes[..n + 1], precision), status, Truncate(passes[f].now, precision));
  }

  /** Every stored RolloutDeferred condition was set by one earlier pass. */
  lemma {:induction false} AnchorExists(passes: seq<Pass>, precision: Duration, n: nat) returns (f: nat)
    requires precision > 0 && n <= |passes| && After(passes[..n], precision).Some?
    ensures AnchoredAt(passes, precision, n, f)
  {
    assert passes[..n][..n - 1] == passes[..n - 1];
    var before, now := After(passes[..n - 1], precision), After(passes[..n], precision);
    if before.Some? && before.value.status == now.value.status {
      f := AnchorExists(passes, precision, n - 1);
      AnchorStep(passes, precision, n - 1, f);
    } else {
      f := n - 1;
    }
  }

  lemma AnchorIsStored(passes: seq<Pass>, precision: Duration, n: nat, f: nat)
    requires precision > 0 && n < |passes| && Clock(passes, precision) && AnchoredAt(passes, precision, n, f)
    ensures Anchor(After(passes[..n], precision), passes[n].now) == Truncate(passes[f].now, precision)
  {
    assert Shows(After(passes[..n], precision), After(passes[..n], precision).value.status,
                 Truncate(passes[f].now, precision));
  }

  /** In every run, with policies, forces, reasons and templates changing freely,
      a service that still holds work is rolled only when the budget has run out
      since the pass that set the condition it found, or, if it found none, since
      this very pass began. */
  lemma HeldRollWaited(passes: seq<Pass>, precision: Duration, n: nat)
    requires precision > 0 && Clock(passes, precision) && n < |passes|
    requires Holding(passes[n]) && Rolls(OutcomeAt(passes, precision, n))
    ensures After(passes[..n], precision).None? ==> Overdue(passes[n], passes[n].now)
    ensures After(passes[..n], precision).Some? ==>
              exists f: nat :: AnchoredAt(passes, precision, n, f)
                               && Overdue(passes[n], Truncate(passes[f].now, precision))
  {
    var prior := After(passes[..n], precision);
    if prior.Some? {
      var f := AnchorExists(passes, precision, n);
      AnchorIsStored(passes, precision, n, f);
    }
    HeldRollsIffOverdue(prior, passes[n]);
  }

  /** One rollout episode: the object has no condition at first and every pass
      finds the gate on and the service still holding work. */
  ghost predicate Episode(passes: seq<Pass>, precision: Duration) {
    precision > 0 && Clock(passes, precision) && forall k | 0 <= k < |passes| :: Holding(passes[k])
  }

  lemma {:induction false} ConditionStays(passes: seq<Pass>, precision: Duration, k: nat, m: nat)
    requires Episode(passes, precision) && k < m <= |passes| && passes[k].saved
    ensures After(passes[..m], precision).Some?
  {
    assert passes[..m][..m - 1] == passes[..m - 1];
    if m > k + 1 {
      ConditionStays(passes, precision, k, m - 1);
    }
  }

  /** The first roll of an episode comes only after the budget has run out since
      the episode's first saved deferral `f`, however often the reason changed;
      with no saved deferral at all, only after this pass alone outlasted it. */
  lemma EpisodeRollsOnlyWhenOverdue(passes: seq<Pass>, precision: Duration, n: nat) returns (f: nat)
    requires Episode(passes, precision) && n < |passes|
    requires Rolls(OutcomeAt(passes, precision, n))
    requires forall k | 0 <= k < n :: !Rolls(OutcomeAt(passes, precision, k))
    ensures f <= n && forall k | 0 <= k < f :: !passes[k].saved
    ensures f < n ==> passes[f].saved && OutcomeAt(passes, precision, f).Deferred?
    ensures Overdue(passes[n], if f < n then Truncate(passes[f].now, precision) else passes[n].now)
  {
    HeldRollWaited(passes, precision, n);
    if After(passes[..n], precision).None? {
      f := n;
    } else {
      f :| AnchoredAt(passes, precision, n, f) && Overdue(passes[n], Truncate(passes[f].now, precision));
      assert !Rolls(OutcomeAt(passes, precision, f));
      if After(passes[..f], precision).Some? {
        var g := AnchorExists(passes, precision, f);
        assert !Rolls(OutcomeAt(passes, precision, g));
        assert false;
      }
    }
    forall k | 0 <= k < f ensures !passes[k].saved {
      if passes[k].saved { ConditionStays(passes, precision, k, f); }
    }
  }

  /** Pass `n` is the first of the episode to roll, with a budget of ten seconds or
      more that its own idle check does not outlast. */
  ghost predicate FirstRollAt(passes: seq<Pass>, precision: Duration, n: nat) {
    && Episode(passes, precision) && n < |passes| && Rolls(OutcomeAt(passes, precision, n))
    && (forall k | 0 <= k < n :: !Rolls(OutcomeAt(passes, precision, k)))
    && Timeout(passes[n].policy.value) >= 10 * SECOND
    && passes[n].checked - passes[n].now <= Timeout(passes[n].policy.value)
  }

  /** The wait of a roll at `n` after a deferral at `f`. */
  function Wait(passes: seq<Pass>, f: nat, n: nat): (r: Duration)
    requires f < |passes| && n < |passes|
  {
    passes[n].checked - passes[f].now
  }

  /** The law in its plain form, for every store: the roll comes after an earlier
      deferral, the episode's first saved one, and more than the budget after the
      time stored for it. So it is early by less than the store's precision, and
      early at all exactly when the budget runs out inside what truncation cut off. */
  lemma EpisodeWaitsTheWholeTimeout(passes: seq<Pass>, precision: Duration, n: nat) returns (f: nat)
    requires FirstRollAt(passes, precision, n)
    ensures f < n && passes[f].saved && OutcomeAt(passes, precision, f).Deferred?
    ensures forall k | 0 <= k < f :: !passes[k].saved
    ensures Wait(passes, f, n) > Timeout(passes[n].policy.value) - precision
    ensures var timeout, stored := Timeout(passes[n].policy.value), Truncate(passes[f].now, precision);
            Wait(passes, f, n) <= timeout <==> stored + timeout < passes[n].checked <= passes[f].now + timeout
  {
    f := EpisodeRollsOnlyWhenOverdue(passes, precision, n);
  }

  /** Some deferral precedes the roll by more than the budget. */
  ghost predicate WaitedWhole(passes: seq<Pass>, precision: Duration, n: nat)
    requires precision > 0 && n < |passes| && passes[n].policy.Some?
  {
    exists f: nat | f < n :: OutcomeAt(passes, precision, f).Deferred? && Wait(passes, f, n) > Timeout(passes[n].policy.value)
  }

  /** Every first roll waits the whole budget exactly when the store is exact; a store
      of whole seconds lets one through almost a second early. */
  lemma WholeWaitIffExactStore(precision: Duration)
    requires 0 < precision <= 10 * SECOND
    ensures (forall passes, n: nat | FirstRollAt(passes, precision, n) :: WaitedWhole(passes, precision, n))
            <==> precision == 1
  {
    if precision == 1 {
      forall passes, n: nat | FirstRollAt(passes, precision, n) ensures WaitedWhole(passes, precision, n) {
        var f := EpisodeWaitsTheWholeTimeout(passes, precision, n);
      }
    } else {
      EarlyRoll(precision);
    }
  }

  /** A held pass of a ten second budget that takes no time. */
  function InstantPass(t: Time): (p: Pass) {
    Pass(true, Some(Policy(true, false, 10)), Held(PodsBusy), t, t, t, true)
  }

  /** Deferred just before the stored time ticks over, rolled ten seconds after it. */
  function EarlyRun(precision: Duration): (passes: seq<Pass>) {
    [InstantPass(precision - 1), InstantPass(10 * SECOND + 1)]
  }

  lemma FirstInstant(precision: Duration)
    requires 1 < precision <= 10 * SECOND
    ensures OutcomeOf(None, InstantPass(precision - 1)) == Deferred(IDLE_CHECK_INTERVAL)
    ensures Shows(Next(None, InstantPass(precision - 1), precision), IsTrue, 0)
  {
    RequeueSign(10 * SECOND, 0);
    TruncateBelow(precision - 1, precision);
  }

  lemma TruncateBelow(t: Time, precision: Duration)
    requires 0 <= t < precision
    ensures Truncate(t, precision) == 0
  {
  }

  lemma SecondInstant(prior: Option<Condition>)
    requires Shows(prior, IsTrue, 0)
    ensures OutcomeOf(prior, InstantPass(10 * SECOND + 1)) == Proceed(TimedOut)
  {
  }

  /** For every store that is not exact, a run whose first roll comes within the
      budget of its only deferral. */
  lemma EarlyRoll(precision: Duration)
    requires 1 < precision <= 10 * SECOND
    ensures FirstRollAt(EarlyRun(precision), precision, 1) && !WaitedWhole(EarlyRun(precision), precision, 1)
    ensures Wait(EarlyRun(precision), 0, 1) == 10 * SECOND + 2 - precision
  {
    var run := EarlyRun(precision);
    assert run[..0] == [] && run[..1] == [run[0]] && run[..1][..0] == [];
    assert After(run[..1], precision) == Next(None, run[0], precision);
    FirstInstant(precision);
    SecondInstant(After(run[..1], precision));
    assert OutcomeAt(run, precision, 0) == Deferred(IDLE_CHECK_INTERVAL);
    assert OutcomeAt(run, precision, 1) == Proceed(TimedOut);
  }

  /** With a negative budget, as an overflowing one can be, the first pass that finds
      a service busy rolls it at once. */
  lemma NegativeBudgetRollsAtOnce(p: Pass)
    requires Holding(p) && p.saved && p.now <= p.checked && Timeout(p.policy.value) < 0
    ensures OutcomeOf(None, p) == Proceed(TimedOut) && Rolls(OutcomeOf(None, p))
  {
  }

  /** A False condition left by an earlier timeout is read as the start of the
      wait: the held service rolls at once exactly when the budget since then is
      spent, and a pass that does not roll starts a whole new wait. */
  lemma LeftoverTimeoutIsReused(prior: Condition, p: Pass, precision: Duration)
    requires precision > 0 && Holding(p) && p.saved
    requires prior.status == IsFalse && ZERO_TIME < prior.since <= p.now <= p.checked <= p.returned
    ensures Rolls(OutcomeOf(Some(prior), p)) <==> Overdue(p, prior.since)
    ensures OutcomeOf(Some(prior), p) == Proceed(TimedOut) <==> p.checked - prior.since > Timeout(p.policy.value)
    ensures !Rolls(OutcomeOf(Some(prior), p)) ==>
              && OutcomeOf(Some(prior), p).Deferred?
              && Shows(Next(Some(prior), p, precision), IsTrue, Truncate(p.now, precision))
  {
    HeldRollsIffOverdue(Some(prior), p);
  }

  /** A runtime without idle detection, or whose probe says it has none, is held like
      a busy one: it rolls only once its budget is spent, and the condition names the
      reason until then. */
  lemma UnsupportedRuntimeWaits(o: Observation, probe: string -> Probe, prior: Option<Condition>, p: Pass, precision: Duration)
    requires CheckOf(o, probe).CheckUnsupported? && p.drain == DrainOf(o, probe) && precision > 0
    requires p.templateChanged && Gated(p.policy) && p.saved && Anchor(prior, p.now) <= p.checked <= p.returned
    ensures Rolls(OutcomeOf(prior, p)) <==> Overdue(p, Anchor(prior, p.now))
    ensures !Rolls(OutcomeOf(prior, p)) ==>
              && Next(prior, p, precision).Some?
              && Next(prior, p, precision).value.status == IsTrue
              && Next(prior, p, precision).value.reason == "IdleCheckUnsupported"
  {
    HeldRollsIffOverdue(prior, p);
  }

  function HeldPass(seconds: int, checkedAt: int, timeoutSeconds: int): (p: Pass) {
    Pass(true, Some(Policy(true, false, timeoutSeconds)), Held(PodsBusy),
         seconds * SECOND, checkedAt * SECOND, checkedAt * SECOND, true)
  }

  /** A run that rolls a busy service no pass ever deferred: the first idle check
      outlasts a short budget. */
  lemma SlowCheckRollsUndeferred()
    ensures var run := [HeldPass(0, 6, 5)];
            Clock(run, SECOND) && OutcomeAt(run, SECOND, 0) == Proceed(TimedOut)
  {
    assert [HeldPass(0, 6, 5)][..0] == [];
  }

  /** In any run, a template change that is met right after a timeout roll, but
      later than its own budget, is rolled without a single deferral. */
  lemma ChangeAfterTimeoutRollsUndeferred(passes: seq<Pass>, precision: Duration, n: nat)
    requires precision > 0 && Clock(passes, precision) && n + 1 < |passes|
    requires OutcomeAt(passes, precision, n) == Proceed(TimedOut)
    requires Holding(passes[n + 1]) && passes[n + 1].saved
    requires passes[n + 1].checked - passes[n].now > Timeout(passes[n + 1].policy.value)
    ensures OutcomeAt(passes, precision, n + 1) == Proceed(TimedOut)
  {
    assert passes[..n + 1][..n] == passes[..n];
    var f := AnchorExists(passes, precision, n + 1);
    AnchorIsStored(passes, precision, n + 1, f);
  }

  /** Every pass of the episode is saved under one policy, and idle checks follow
      each other by at most `gap`: the requeue plus the latency of a pass. */
  ghost predicate Rechecked(passes: seq<Pass>, precision: Duration, policy: Policy, gap: Duration) {
    && Episode(passes, precision) && passes != []
    && (forall k | 0 <= k < |passes| :: passes[k].saved && passes[k].policy == Some(policy))
    && (forall k | 0 < k < |passes| :: passes[k].checked <= passes[k - 1].checked + gap)
  }

  /** While an episode only defers, its condition stays True since the first pass. */
  lemma {:induction false} DeferringKeepsFirstAnchor(passes: seq<Pass>, precision: Duration, n: nat)
    requires Episode(passes, precision) && 0 < n <= |passes|
    requires forall k | 0 <= k < n :: passes[k].saved && OutcomeAt(passes, precision, k).Deferred?
    ensures Shows(After(passes[..n], precision), IsTrue, Truncate(passes[0].now, precision))
  {
    assert passes[..n][..n - 1] == passes[..n - 1];
    assert OutcomeAt(passes, precision, n - 1).Deferred?;
    if n > 1 {
      DeferringKeepsFirstAnchor(passes, precision, n - 1);
      TruncateTwice(passes[0].now, precision);
    }
  }

  /** Where the wait of an episode is counted from at its pass `n`. */
  function EpisodeAnchor(passes: seq<Pass>, precision: Duration, n: nat): (r: Time)
    requires precision > 0 && n < |passes|
  {
    if n == 0 then passes[0].now else Truncate(passes[0].now, precision)
  }

  /** After deferrals only, a pass rolls exactly when the budget since the first pass
      is spent, and otherwise defers again, still within the budget. */
  lemma DeferredMeansWithinBudget(passes: seq<Pass>, precision: Duration, policy: Policy, gap: Duration, n: nat)
    requires Rechecked(passes, precision, policy, gap) && n < |passes|
    requires forall k | 0 <= k < n :: OutcomeAt(passes, precision, k).Deferred?
    ensures Rolls(OutcomeAt(passes, precision, n)) <==> Overdue(passes[n], EpisodeAnchor(passes, precision, n))
    ensures !Rolls(OutcomeAt(passes, precision, n)) ==> passes[n].checked <= passes[0].now + Timeout(policy)
    ensures OutcomeAt(passes, precision, n).Deferred? || OutcomeAt(passes, precision, n) == Proceed(TimedOut)
    ensures OutcomeAt(passes, precision, n).Deferred? ==> passes[n].checked <= passes[0].now + Timeout(policy)
    ensures Timeout(policy) >= 10 * SECOND && OutcomeAt(passes, precision, n).Deferred? ==>
              OutcomeAt(passes, precision, n) == Deferred(IDLE_CHECK_INTERVAL)
    ensures OutcomeAt(passes, precision, n) == Proceed(TimedOut) <== passes[n].checked > passes[0].now + Timeout(policy)
  {
    if n == 0 {
      assert passes[..0] == [];
    } else {
      DeferringKeepsFirstAnchor(passes, precision, n);
    }
    var prior := After(passes[..n], precision);
    assert Anchor(prior, passes[n].now) == EpisodeAnchor(passes, precision, n);
    HeldRollsIffOverdue(prior, passes[n]);
    if Timeout(policy) >= 10 * SECOND {
      RequeueSign(Timeout(policy), passes[n].returned - EpisodeAnchor(passes, precision, n));
    }
  }

  lemma FirstRoll(passes: seq<Pass>, precision: Duration, policy: Policy, gap: Duration) returns (m: nat)
    requires Rechecked(passes, precision, policy, gap) && gap >= 0
    requires passes[|passes| - 1].checked > passes[0].now + Timeout(policy)
    ensures m < |passes| && Rolls(OutcomeAt(passes, precision, m))
    ensures forall k | 0 <= k < m ::
              OutcomeAt(passes, precision, k).Deferred? && OutcomeAt(passes, precision, k).requeueAfter > 0
    ensures 0 < m ==> passes[m].checked <= passes[0].now + Timeout(policy) + gap
  {
    m := 0;
    while !Rolls(OutcomeAt(passes, precision, m))
      invariant m < |passes|
      invariant forall k | 0 <= k < m ::
                  OutcomeAt(passes, precision, k).Deferred? && OutcomeAt(passes, precision, k).requeueAfter > 0
      invariant 0 < m ==> passes[m - 1].checked <= passes[0].now + Timeout(policy)
      decreases |passes| - m
    {
      DeferredMeansWithinBudget(passes, precision, policy, gap, m);
      m := m + 1;
    }
  }

  /** For every budget: an episode that is rechecked often enough and watched past
      its budget rolls, for the first time at pass `m`, within budget + gap of its
      start, and every pass before asks to come back. From ten seconds up it rolls
      by timeout after five second requeues; below, it may also roll through a
      deferral of zero, which leaves the condition True. */
  lemma EpisodeEndsInTime(passes: seq<Pass>, precision: Duration, policy: Policy, gap: Duration) returns (m: nat)
    requires Rechecked(passes, precision, policy, gap) && gap >= 0
    requires passes[|passes| - 1].checked > passes[0].now + Timeout(policy)
    ensures m < |passes| && Rolls(OutcomeAt(passes, precision, m))
    ensures forall k | 0 <= k < m ::
              OutcomeAt(passes, precision, k).Deferred? && OutcomeAt(passes, precision, k).requeueAfter > 0
    ensures 0 < m ==> passes[m].checked <= passes[0].now + Timeout(policy) + gap
    ensures Timeout(policy) >= 10 * SECOND ==>
              && OutcomeAt(passes, precision, m) == Proceed(TimedOut)
              && forall k | 0 <= k < m :: OutcomeAt(passes, precision, k) == Deferred(IDLE_CHECK_INTERVAL)
    ensures OutcomeAt(passes, precision, m) == Proceed(TimedOut)
            || (&& OutcomeAt(passes, precision, m) == Deferred(0)
                && Shows(After(passes[..m + 1], precision), IsTrue, Truncate(passes[0].now, precision)))
  {
    m := FirstRoll(passes, precision, policy, gap);
    DeferredMeansWithinBudget(passes, precision, policy, gap, m);
    forall k | 0 <= k < m
      ensures Timeout(policy) >= 10 * SECOND ==> OutcomeAt(passes, precision, k) == Deferred(IDLE_CHECK_INTERVAL)
    {
      DeferredMeansWithinBudget(passes, precision, policy, gap, k);
    }
    if OutcomeAt(passes, precision, m).Deferred? {
      DeferringKeepsFirstAnchor(passes, precision, m + 1);
    }
  }

  /** Below ten seconds, a pass whose check still found some budget and whose return
      finds none defers for zero: the caller rolls while the stored condition goes on
      saying deferred, since the same time. */
  lemma ShortBudgetRollsWhileDeferred(prior: Condition, p: Pass, precision: Duration)
    requires precision > 0 && Holding(p) && p.saved
    requires prior.status == IsTrue && ZERO_TIME < prior.since == Truncate(prior.since, precision)
    requires 0 <= Timeout(p.policy.value) < 10 * SECOND
    requires p.checked - prior.since <= Timeout(p.policy.value) <= p.returned - prior.since
    ensures OutcomeOf(Some(prior), p) == Deferred(0) && Rolls(OutcomeOf(Some(prior), p))
    ensures Shows(Next(Some(prior), p, precision), IsTrue, prior.since)
  {
    RequeueSign(Timeout(p.policy.value), p.returned - prior.since);
  }

  /** When idle checks are at least `step` apart, an episode defers at most
      budget / step + 1 times. */
  lemma DeferralsAreBounded(passes: seq<Pass>, precision: Duration, policy: Policy, gap: Duration, step: Duration, m: nat)
    requires Rechecked(passes, precision, policy, gap) && step > 0 && 0 < m <= |passes|
    requires forall k | 0 < k < |passes| :: passes[k - 1].checked + step <= passes[k].checked
    requires forall k | 0 <= k < m :: OutcomeAt(passes, precision, k).Deferred?
    ensures (m - 1) * step <= Timeout(policy)
  {
    var k := 0;
    while k < m - 1
      invariant 0 <= k <= m - 1
      invariant k * step <= passes[k].checked - passes[0].now
    {
      OneMoreStep(k, step);
      k := k + 1;
    }
    DeferredMeansWithinBudget(passes, precision, policy, gap, m - 1);
  }

  lemma OneMoreStep(k: int, step: Duration)
    ensures (k + 1) * step == k * step + step
  {
  }
}
