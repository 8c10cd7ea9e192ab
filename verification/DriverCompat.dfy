/** The DriverCompatible condition over whole runs of reconciles. */
module DriverCompat {
  import opened Common
  import opened Conditions
  import opened CrashEvidence

  const DRIVER_COMPATIBLE: string := "DriverCompatible"
  const CUDA_DRIVER_INSUFFICIENT: string := "CUDADriverInsufficient"
  const RUNTIME_STARTED: string := "RuntimeStarted"

  /** One reconcile: the pods it lists (None when listing fails), its clock, and
      whether the status it leaves is persisted. */
  datatype Round = Round(listed: Option<seq<Pod>>, now: Time, saved: bool)

  /** What every round of a run shares. */
  datatype Setup = Setup(container: string, matcher: Matcher, recorder: bool)

  predicate ActiveCrash(u: Setup, r: Round) {
    r.listed.Some? && Pick(AllEvidence(r.listed.value, u.container, u.matcher), None).Active?
  }

  predicate StartedRuntime(u: Setup, r: Round) {
    r.listed.Some? && RuntimeReady(r.listed.value, u.container)
  }

  predicate IsStatus(c: Option<Condition>, s: Status) {
    c.Some? && c.value.status == s
  }

  /** The condition in memory after the round. */
  function Diagnose(u: Setup, prior: Option<Condition>, r: Round): (c: Option<Condition>) {
    if r.listed.None? then prior
    else if ActiveCrash(u, r) then
      Some(Merge(prior, Condition(DRIVER_COMPATIBLE, IsFalse, r.now, CUDA_DRIVER_INSUFFICIENT)))
    else if IsStatus(prior, IsFalse) && StartedRuntime(u, r) then
      Some(Merge(prior, Condition(DRIVER_COMPATIBLE, IsTrue, r.now, RUNTIME_STARTED)))
    else prior
  }

  /** Whether the round emits the Warning event. */
  predicate Warns(u: Setup, prior: Option<Condition>, r: Round) {
    ActiveCrash(u, r) && !IsStatus(prior, IsFalse) && u.recorder
  }

  class InferenceService {
    var conditions: seq<Condition>

    constructor (stored: seq<Condition>)
      ensures conditions == stored
    {
      conditions := stored;
    }

    /** reconcileDriverCompatCondition: a missing list changes nothing, an active
        crash sets False and warns on the transition, and only a diagnosed service
        with a ready runtime is set True. */
    method ReconcileDriverCompat(u: Setup, r: Round) returns (warned: bool)
      modifies this
      ensures Find(conditions, DRIVER_COMPATIBLE) == Diagnose(u, old(Find(conditions, DRIVER_COMPATIBLE)), r)
      ensures forall kind | kind != DRIVER_COMPATIBLE :: Find(conditions, kind) == Find(old(conditions), kind)
      ensures warned == Warns(u, old(Find(conditions, DRIVER_COMPATIBLE)), r)
    {
      warned := false;
      if r.listed.None? {
        return;
      }
      var ready := RuntimeContainerReady(r.listed.value, u.container);
      var crash := FindCrash(r.listed.value, u.container, u.matcher);
      var existing := Find(conditions, DRIVER_COMPATIBLE);
      if !crash.Active? {
        if existing.None? || existing.value.status != IsFalse || !ready {
          return;
        }
        SetCondition(Condition(DRIVER_COMPATIBLE, IsTrue, r.now, RUNTIME_STARTED));
        return;
      }
      SetCondition(Condition(DRIVER_COMPATIBLE, IsFalse, r.now, CUDA_DRIVER_INSUFFICIENT));
      warned := !(existing.Some? && existing.value.status == IsFalse) && u.recorder;
    }

    method SetCondition(c: Condition)
      requires c.kind == DRIVER_COMPATIBLE
      modifies this
      ensures Find(conditions, DRIVER_COMPATIBLE) == Some(Merge(old(Find(conditions, DRIVER_COMPATIBLE)), c))
      ensures forall kind | kind != DRIVER_COMPATIBLE :: Find(conditions, kind) == Find(old(conditions), kind)
    {
      ghost var before := conditions;
      conditions := Set(conditions, c);
      forall kind ensures kind == DRIVER_COMPATIBLE ==> Find(conditions, kind) == Some(Merge(Find(before, kind), c))
                  ensures kind != DRIVER_COMPATIBLE ==> Find(conditions, kind) == Find(before, kind)
      {
        FindAfterSet(before, c, kind);
      }
    }
  }

  // ---- runs -----------------------------------------------------------------

  /** The stored condition after a run over an object that began without one. */
  function After(u: Setup, rounds: seq<Round>): (c: Option<Condition>) {
    if rounds == [] then None
    else
      var prior, last := After(u, rounds[..|rounds| - 1]), rounds[|rounds| - 1];
      if last.saved then Diagnose(u, prior, last) else prior
  }

  /** Warnings emitted so far. */
  function Warnings(u: Setup, rounds: seq<Round>): (n: nat) {
    if rounds == [] then 0
    else
      var init, last := rounds[..|rounds| - 1], rounds[|rounds| - 1];
      Warnings(u, init) + if Warns(u, After(u, init), last) then 1 else 0
  }

  /** Warnings whose status write was then lost. */
  function LostWarnings(u: Setup, rounds: seq<Round>): (n: nat) {
    if rounds == [] then 0
    else
      var init, last := rounds[..|rounds| - 1], rounds[|rounds| - 1];
      LostWarnings(u, init) + if Warns(u, After(u, init), last) && !last.saved then 1 else 0
  }

  /** Separate stretches of a stored False: the moments it begins. */
  function Episodes(u: Setup, rounds: seq<Round>): (n: nat) {
    if rounds == [] then 0
    else
      var init := rounds[..|rounds| - 1];
      Episodes(u, init)
      + if IsStatus(After(u, rounds), IsFalse) && !IsStatus(After(u, init), IsFalse) then 1 else 0
  }

  /** With a recorder, every run emits one Warning per False episode, plus one for
      each diagnosis whose write was lost. */
  lemma {:induction false} OneWarningPerEpisode(u: Setup, rounds: seq<Round>)
    requires u.recorder
    ensures Warnings(u, rounds) == Episodes(u, rounds) + LostWarnings(u, rounds)
  {
    if rounds != [] { OneWarningPerEpisode(u, rounds[..|rounds| - 1]); }
  }

  /** No write is lost: exactly one Warning per episode. */
  lemma {:induction false} NoLostWarnings(u: Setup, rounds: seq<Round>)
    requires u.recorder && forall i | 0 <= i < |rounds| :: rounds[i].saved
    ensures Warnings(u, rounds) == Episodes(u, rounds)
  {
    OneWarningPerEpisode(u, rounds);
    NoneLost(u, rounds);
  }

  lemma {:induction false} NoneLost(u: Setup, rounds: seq<Round>)
    requires forall i | 0 <= i < |rounds| :: rounds[i].saved
    ensures LostWarnings(u, rounds) == 0
  {
    if rounds != [] { NoneLost(u, rounds[..|rounds| - 1]); }
  }

  /** In every run a stored True was a stored False before: at some round `k` it
      turned, with a runtime container ready and no active crash evidence, and it
      has stayed True since. */
  lemma {:induction false} TrueComesFromFalse(u: Setup, rounds: seq<Round>) returns (k: nat)
    requires IsStatus(After(u, rounds), IsTrue)
    ensures k < |rounds|
    ensures IsStatus(After(u, rounds[..k]), IsFalse)
    ensures StartedRuntime(u, rounds[k]) && !ActiveCrash(u, rounds[k]) && rounds[k].saved
    ensures forall j | k < j <= |rounds| :: IsStatus(After(u, rounds[..j]), IsTrue)
  {
    var n := |rounds| - 1;
    var init := rounds[..n];
    assert rounds[..|rounds|] == rounds;
    if IsStatus(After(u, init), IsTrue) {
      k := TrueComesFromFalse(u, init);
      assert init[..k] == rounds[..k];
      forall j | k < j <= |rounds| ensures IsStatus(After(u, rounds[..j]), IsTrue) {
        if j <= n { assert init[..j] == rounds[..j]; }
      }
    } else {
      k := n;
      NeverUnknown(u, init);
    }
  }

  lemma {:induction false} NeverUnknown(u: Setup, rounds: seq<Round>)
    ensures !IsStatus(After(u, rounds), IsUnknown)
  {
    if rounds != [] { NeverUnknown(u, rounds[..|rounds| - 1]); }
  }

  /** A round that shows neither an active crash nor a started runtime. */
  predicate Quiet(u: Setup, r: Round) {
    !ActiveCrash(u, r) && !StartedRuntime(u, r)
  }

  /** A diagnosis stands, whatever it is: over any stretch of quiet rounds after the
      first `k`, saved or not, the stored condition does not change and no Warning is
      emitted. */
  lemma {:induction false} DiagnosisStands(u: Setup, rounds: seq<Round>, k: nat)
    requires k <= |rounds| && forall i | k <= i < |rounds| :: Quiet(u, rounds[i])
    ensures After(u, rounds) == After(u, rounds[..k])
    ensures Warnings(u, rounds) == Warnings(u, rounds[..k])
  {
    if k == |rounds| {
      assert rounds[..k] == rounds;
    } else {
      var init := rounds[..|rounds| - 1];
      DiagnosisStands(u, init, k);
      assert init[..k] == rounds[..k];
      assert Quiet(u, rounds[|rounds| - 1]);
    }
  }

  /** The crash of one round, in terms of the pods it listed. */
  ghost predicate Crashing(u: Setup, r: Round) {
    r.listed.Some? && exists p, c :: p in r.listed.value && c in p.containers && CrashingNow(c, u.container, u.matcher)
  }

  /** Some runtime container it listed is ready. */
  ghost predicate Serving(u: Setup, r: Round) {
    r.listed.Some? && exists p, c :: p in r.listed.value && c in p.containers && c.name == u.container && c.ready
  }

  /** How the stored status moves in every run: a saved crash stores False, a saved
      recovery turns a stored False to True, and every other round keeps it. */
  lemma {:induction false} StatusMoves(u: Setup, rounds: seq<Round>)
    requires rounds != []
    ensures var last, before, after := rounds[|rounds| - 1], After(u, rounds[..|rounds| - 1]), After(u, rounds);
            if last.saved && Crashing(u, last)
            then IsStatus(after, IsFalse) && after.value.reason == "CUDADriverInsufficient"
            else if last.saved && Serving(u, last) && IsStatus(before, IsFalse)
            then after == Some(Condition("DriverCompatible", IsTrue, last.now, "RuntimeStarted"))
            else after == before
  {
    var last := rounds[|rounds| - 1];
    if last.listed.Some? {
      ActiveIff(last.listed.value, u.container, u.matcher);
      ServingIff(last.listed.value, u.container);
    }
  }

  lemma ServingIff(pods: seq<Pod>, name: string)
    ensures RuntimeReady(pods, name) <==>
            exists p, c :: p in pods && c in p.containers && c.name == name && c.ready
  {
    if i :| 0 <= i < |pods| && AnyReady(pods[i].containers, name) {
      var j :| 0 <= j < |pods[i].containers| && pods[i].containers[j].name == name && pods[i].containers[j].ready;
      assert pods[i] in pods && pods[i].containers[j] in pods[i].containers;
    }
    if p, c :| p in pods && c in p.containers && c.name == name && c.ready {
      var i :| 0 <= i < |pods| && pods[i] == p;
      assert AnyReady(pods[i].containers, name);
    }
  }
}
