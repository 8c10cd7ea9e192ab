/** How the hub reads an edge's phase off the age of its last heartbeat. */
module Heartbeat {
  import opened Common
  import opened Conditions

  /** The push cadence the edge actually delivers, in seconds. */
  const DELIVERED_SECONDS: int := 30

  /** The largest interval whose tenfold still fits a Go duration. */
  const LARGEST_EXACT_SECONDS: int := 922_337_203

  datatype Phase = Connected | Stale | Unreachable

  /** effectiveHeartbeatIntervalSeconds. */
  function EffectiveSeconds(spec: int): (r: int)
    ensures r >= 30 && r >= spec && (r == spec || r == 30)
  {
    if spec < DELIVERED_SECONDS then DELIVERED_SECONDS else spec
  }

  function Interval(spec: int): (r: Duration)
    ensures r >= DELIVERED_SECONDS * SECOND
  {
    EffectiveSeconds(spec) * SECOND
  }

  /** time.Time.Sub, which saturates at the int64 range. */
  function Age(last: Time, now: Time): (r: Duration) {
    var d := now - last;
    if d > MAX_INT64 then MAX_INT64 else if d < MIN_INT64 then MIN_INT64 else d
  }

  /** phaseForHeartbeat, with the int64 products Go computes. */
  function PhaseFor(last: Option<Time>, spec: int, now: Time): (r: Phase) {
    if last.None? then Unreachable
    else
      var iv := Wrap64(Interval(spec));
      var age := Age(last.value, now);
      if age <= Wrap64(3 * iv) then Connected
      else if age <= Wrap64(10 * iv) then Stale
      else Unreachable
  }

  /** The reading the documentation promises: 3x stale, 10x unreachable. */
  function PromisedPhase(last: Option<Time>, spec: int, now: Time): (r: Phase) {
    if last.None? then Unreachable
    else if now - last.value <= 3 * Interval(spec) then Connected
    else if now - last.value <= 10 * Interval(spec) then Stale
    else Unreachable
  }

  /** Whatever the spec says, the Connected threshold is exact, and the Stale one
      is exact or, past the overflow, below the Connected one. */
  lemma Thresholds(spec: int)
    requires MIN_INT32 <= spec <= MAX_INT32
    ensures Wrap64(Interval(spec)) == Interval(spec)
    ensures Wrap64(3 * Interval(spec)) == 3 * Interval(spec) < MAX_INT64
    ensures spec <= LARGEST_EXACT_SECONDS ==> Wrap64(10 * Interval(spec)) == 10 * Interval(spec) < MAX_INT64
    ensures spec > LARGEST_EXACT_SECONDS ==> Wrap64(10 * Interval(spec)) < 3 * Interval(spec)
  {
  }

  /** Beyond the largest exact interval the hub never says Stale. */
  lemma OverflowSkipsStale(spec: int, last: Time, now: Time)
    requires LARGEST_EXACT_SECONDS < spec <= MAX_INT32
    ensures PhaseFor(Some(last), spec, now) == if now - last <= 3 * Interval(spec) then Connected else Unreachable
  {
    Thresholds(spec);
  }

  /** The hub keeps the documented thresholds for every heartbeat and clock
      exactly when ten intervals fit a Go duration. */
  lemma PromiseKeptIffNoOverflow(spec: int)
    requires MIN_INT32 <= spec <= MAX_INT32
    ensures (forall last, now :: PhaseFor(last, spec, now) == PromisedPhase(last, spec, now))
            <==> spec <= LARGEST_EXACT_SECONDS
  {
    Thresholds(spec);
    if spec > LARGEST_EXACT_SECONDS {
      OverflowSkipsStale(spec, 0, 3 * Interval(spec) + 1);
      assert PhaseFor(Some(0), spec, 3 * Interval(spec) + 1) != PromisedPhase(Some(0), spec, 3 * Interval(spec) + 1);
    }
  }

  /** A site whose last heartbeat is at most three delivered pushes old reads
      Connected, whatever interval its spec asks for. */
  lemma HealthySiteReadsConnected(spec: int, last: Time, now: Time)
    requires MIN_INT32 <= spec <= MAX_INT32
    requires now - last <= 90 * SECOND
    ensures PhaseFor(Some(last), spec, now) == Connected
  {
    Thresholds(spec);
  }

  function Rank(p: Phase): (r: nat) {
    match p case Connected => 0 case Stale => 1 case Unreachable => 2
  }

  /** Times of successive hub passes, each requeued within one effective interval. */
  predicate Passes(times: seq<Time>, spec: int) {
    && (forall i, j | 0 <= i < j < |times| :: times[i] <= times[j])
    && (forall i | 0 < i < |times| :: times[i] <= times[i - 1] + Interval(spec))
  }

  lemma PhaseOnlyDecays(last: Option<Time>, spec: int, earlier: Time, later: Time)
    requires MIN_INT32 <= spec <= MAX_INT32 && earlier <= later
    ensures Rank(PhaseFor(last, spec, earlier)) <= Rank(PhaseFor(last, spec, later))
  {
    Thresholds(spec);
  }

  lemma TenIntervalsIsUnreachable(last: Time, spec: int, now: Time)
    requires MIN_INT32 <= spec <= MAX_INT32 && now - last > 10 * Interval(spec)
    ensures PhaseFor(Some(last), spec, now) == Unreachable
  {
    Thresholds(spec);
  }

  /** Once heartbeats stop, successive passes move the phase only forward, and a
      run that starts within ten intervals of the last heartbeat and outlives
      them reads Unreachable at some pass no later than eleven intervals after it. */
  lemma SilentSiteBecomesUnreachable(last: Time, spec: int, times: seq<Time>) returns (k: nat)
    requires MIN_INT32 <= spec <= MAX_INT32 && Passes(times, spec) && times != []
    requires times[0] <= last + 10 * Interval(spec) < times[|times| - 1]
    ensures forall i, j | 0 <= i < j < |times| ::
              Rank(PhaseFor(Some(last), spec, times[i])) <= Rank(PhaseFor(Some(last), spec, times[j]))
    ensures k < |times| && times[k] <= last + 11 * Interval(spec)
    ensures forall j | k <= j < |times| :: PhaseFor(Some(last), spec, times[j]) == Unreachable
  {
    forall i, j | 0 <= i < j < |times|
      ensures Rank(PhaseFor(Some(last), spec, times[i])) <= Rank(PhaseFor(Some(last), spec, times[j]))
    {
      PhaseOnlyDecays(Some(last), spec, times[i], times[j]);
    }
    k := 1;
    while times[k] <= last + 10 * Interval(spec)
      invariant 0 < k < |times|
      invariant times[k - 1] <= last + 10 * Interval(spec)
      decreases |times| - k
    {
      k := k + 1;
    }
    forall j | k <= j < |times| ensures PhaseFor(Some(last), spec, times[j]) == Unreachable {
      TenIntervalsIsUnreachable(last, spec, times[j]);
    }
  }
}
