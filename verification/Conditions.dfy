/** Status condition lists and the helpers of k8s.io/apimachinery/pkg/api/meta over them. */
module Conditions {
  import opened Common

  /** Nanoseconds since the Unix epoch. */
  type Time = int
  /** Nanoseconds. */
  type Duration = int

  const SECOND: Duration := 1_000_000_000

  /** Go's zero time.Time, 1 January of year 1. */
  const ZERO_TIME: Time := -62_135_596_800 * SECOND

  datatype Status = IsTrue | IsFalse | IsUnknown

  /** A condition without its human-readable message and observed generation. */
  datatype Condition = Condition(kind: string, status: Status, since: Time, reason: string)

  /** meta.FindStatusCondition: the first condition of that type. */
  function Find(cs: seq<Condition>, kind: string): (r: Option<Condition>)
    ensures r.Some? ==> r.value.kind == kind
    ensures r.None? <==> forall i | 0 <= i < |cs| :: cs[i].kind != kind
  {
    if cs == [] then None
    else if cs[0].kind == kind then Some(cs[0])
    else
      var r := Find(cs[1..], kind);
      assert cs == [cs[0]] + cs[1..];
      r
  }

  /** It is the first one: no earlier entry has that type. */
  lemma {:induction false} FindIsFirst(cs: seq<Condition>, kind: string, i: nat)
    requires i < |cs| && cs[i].kind == kind && forall j | 0 <= j < i :: cs[j].kind != kind
    ensures Find(cs, kind) == Some(cs[i])
  {
    if i > 0 { FindIsFirst(cs[1..], kind, i - 1); }
  }

  /** meta.RemoveStatusCondition: drops every condition of that type. */
  function Remove(cs: seq<Condition>, kind: string): (r: seq<Condition>) {
    if cs == [] then []
    else (if cs[0].kind == kind then [] else [cs[0]]) + Remove(cs[1..], kind)
  }

  /** The condition meta.SetStatusCondition leaves: the stored transition time
      survives unless the status itself changes. */
  function Merge(prior: Option<Condition>, c: Condition): (r: Condition) {
    if prior.Some? && prior.value.status == c.status then c.(since := prior.value.since) else c
  }

  /** meta.SetStatusCondition with an explicit, non-zero transition time. */
  function Set(cs: seq<Condition>, c: Condition): (r: seq<Condition>) {
    if cs == [] then [c]
    else if cs[0].kind == c.kind then [Merge(Some(cs[0]), c)] + cs[1..]
    else [cs[0]] + Set(cs[1..], c)
  }

  /** Setting a condition changes the entry of its own type and no other. */
  lemma {:induction false} FindAfterSet(cs: seq<Condition>, c: Condition, kind: string)
    ensures kind == c.kind ==> Find(Set(cs, c), kind) == Some(Merge(Find(cs, kind), c))
    ensures kind != c.kind ==> Find(Set(cs, c), kind) == Find(cs, kind)
  {
    if cs != [] && cs[0].kind != c.kind {
      FindAfterSet(cs[1..], c, kind);
    }
  }

  /** Removing a type hides it and keeps every other type's entry. */
  lemma {:induction false} FindAfterRemove(cs: seq<Condition>, gone: string, kind: string)
    ensures kind == gone ==> Find(Remove(cs, gone), kind) == None
    ensures kind != gone ==> Find(Remove(cs, gone), kind) == Find(cs, kind)
  {
    if cs != [] {
      FindAfterRemove(cs[1..], gone, kind);
      if cs[0].kind == gone {
        assert Remove(cs, gone) == Remove(cs[1..], gone);
      }
    }
  }

  /** A time as the API server keeps it: metav1.Time is written with whole
      seconds, so `precision` is one second there and 1 for an exact store. */
  function Truncate(t: Time, precision: Duration): (r: Time)
    requires precision > 0
    ensures r <= t < r + precision
    ensures precision == 1 ==> r == t
  {
    t - t % precision
  }

  lemma SmallMultipleIsZero(d: int, z: int)
    requires d > 0 && 0 <= d * z < d
    ensures z == 0
  {
    assert d * z == d + d * (z - 1);
  }

  lemma TruncateTwice(t: Time, precision: Duration)
    requires precision > 0
    ensures Truncate(Truncate(t, precision), precision) == Truncate(t, precision)
  {
    var r := Truncate(t, precision);
    var k, q, m := t / precision, r / precision, r % precision;
    assert r == precision * k && r == precision * q + m;
    assert precision * (k - q) == m;
    SmallMultipleIsZero(precision, k - q);
  }

  lemma TruncateMonotone(s: Time, t: Time, precision: Duration)
    requires precision > 0 && s <= t
    ensures Truncate(s, precision) <= Truncate(t, precision)
  {
    var j, k := s / precision, t / precision;
    assert Truncate(s, precision) == precision * j && Truncate(t, precision) == precision * k;
    if j > k {
      MultipleIsLarge(precision, j - k);
      assert false;
    }
  }

  lemma MultipleIsLarge(d: int, z: int)
    requires d > 0 && z >= 1
    ensures d * z >= d
  {
    assert d * z == d + d * (z - 1);
  }

  /** The list a successful status update stores. */
  function Persist(cs: seq<Condition>, precision: Duration): (r: seq<Condition>)
    requires precision > 0
  {
    if cs == [] then []
    else [PersistOne(cs[0], precision)] + Persist(cs[1..], precision)
  }

  function PersistOne(c: Condition, precision: Duration): (r: Condition)
    requires precision > 0
  {
    c.(since := Truncate(c.since, precision))
  }

  function PersistFound(c: Option<Condition>, precision: Duration): (r: Option<Condition>)
    requires precision > 0
  {
    if c.None? then None else Some(PersistOne(c.value, precision))
  }

  lemma {:induction false} FindAfterPersist(cs: seq<Condition>, precision: Duration, kind: string)
    requires precision > 0
    ensures Find(Persist(cs, precision), kind) == PersistFound(Find(cs, kind), precision)
  {
    if cs != [] { FindAfterPersist(cs[1..], precision, kind); }
  }
}
