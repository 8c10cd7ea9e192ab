/** Scanning pods for a runtime container that died of a too-old GPU driver. */
module CrashEvidence {
  import opened Common

  datatype Terminated = Terminated(exitCode: int, message: string)
  datatype Container = Container(name: string, ready: bool, current: Option<Terminated>, last: Option<Terminated>)
  datatype Pod = Pod(node: string, containers: seq<Container>)

  /** One matched termination, with the readiness of the container that carries it. */
  datatype Evidence = Evidence(node: string, line: string, ready: bool)

  datatype Crash = NoCrash | Active(node: string, line: string) | Recovered(node: string, line: string)

  /** matchCudaDriverMismatch: the offending line, when there is one. */
  type Matcher = string -> Option<string>

  function TermEvidence(node: string, ready: bool, t: Option<Terminated>, m: Matcher): (r: seq<Evidence>) {
    if t.Some? && t.value.exitCode != 0 && m(t.value.message).Some?
    then [Evidence(node, m(t.value.message).value, ready)] else []
  }

  /** The current termination first, then the previous one. */
  function ContainerEvidence(node: string, c: Container, name: string, m: Matcher): (r: seq<Evidence>) {
    if c.name != name then []
    else TermEvidence(node, c.ready, c.current, m) + TermEvidence(node, c.ready, c.last, m)
  }

  function PodEvidence(node: string, cs: seq<Container>, name: string, m: Matcher): (r: seq<Evidence>) {
    if cs == [] then [] else ContainerEvidence(node, cs[0], name, m) + PodEvidence(node, cs[1..], name, m)
  }

  function AllEvidence(pods: seq<Pod>, name: string, m: Matcher): (r: seq<Evidence>) {
    if pods == [] then []
    else PodEvidence(pods[0].node, pods[0].containers, name, m) + AllEvidence(pods[1..], name, m)
  }

  /** The scan's answer: the first carrier that is not ready, else the first one
      remembered. */
  function Pick(es: seq<Evidence>, remembered: Option<Evidence>): (r: Crash) {
    if es == [] then
      if remembered.None? then NoCrash else Recovered(remembered.value.node, remembered.value.line)
    else if !es[0].ready then Active(es[0].node, es[0].line)
    else Pick(es[1..], if remembered.None? then Some(es[0]) else remembered)
  }

  /** An active crash is found exactly when some carrier is not ready, whatever the
      others are; nothing is found exactly when there is no evidence. */
  lemma {:induction false} PickFindsActive(es: seq<Evidence>, remembered: Option<Evidence>)
    ensures Pick(es, remembered).Active? <==> exists e :: e in es && !e.ready
    ensures Pick(es, remembered).NoCrash? <==> es == [] && remembered.None?
  {
    if es != [] {
      assert es == [es[0]] + es[1..];
      if es[0].ready {
        PickFindsActive(es[1..], if remembered.None? then Some(es[0]) else remembered);
      } else {
        assert es[0] in es;
      }
    }
  }

  /** The remembered evidence survives a pair of terminations that are all ready. */
  method ScanTermination(node: string, ready: bool, t: Option<Terminated>, m: Matcher, remembered0: Option<Evidence>, ghost rest: seq<Evidence>)
    returns (remembered: Option<Evidence>, active: Option<Evidence>)
    ensures active.Some? ==>
              Pick(TermEvidence(node, ready, t, m) + rest, remembered0) == Active(active.value.node, active.value.line)
    ensures active.None? ==> Pick(TermEvidence(node, ready, t, m) + rest, remembered0) == Pick(rest, remembered)
  {
    remembered, active := remembered0, None;
    ghost var es := TermEvidence(node, ready, t, m);
    if t.Some? && t.value.exitCode != 0 {
      var line := m(t.value.message);
      if line.Some? {
        var e := Evidence(node, line.value, ready);
        assert (es + rest)[0] == e && (es + rest)[1..] == rest;
        if !ready {
          active := Some(e);
        } else if remembered.None? {
          remembered := Some(e);
        }
        return;
      }
    }
    assert es + rest == rest;
  }

  method ScanContainer(node: string, c: Container, name: string, m: Matcher, remembered0: Option<Evidence>, ghost rest: seq<Evidence>)
    returns (remembered: Option<Evidence>, active: Option<Evidence>)
    ensures active.Some? ==>
              Pick(ContainerEvidence(node, c, name, m) + rest, remembered0) == Active(active.value.node, active.value.line)
    ensures active.None? ==> Pick(ContainerEvidence(node, c, name, m) + rest, remembered0) == Pick(rest, remembered)
  {
    remembered, active := remembered0, None;
    if c.name != name {
      assert ContainerEvidence(node, c, name, m) + rest == rest;
      return;
    }
    ghost var second := TermEvidence(node, c.ready, c.last, m);
    assert ContainerEvidence(node, c, name, m) + rest == TermEvidence(node, c.ready, c.current, m) + (second + rest);
    remembered, active := ScanTermination(node, c.ready, c.current, m, remembered, second + rest);
    if active.None? {
      remembered, active := ScanTermination(node, c.ready, c.last, m, remembered, rest);
    }
  }

  lemma {:induction false} NextContainer(node: string, cs: seq<Container>, j: nat, name: string, m: Matcher, rest: seq<Evidence>)
    requires j < |cs|
    ensures PodEvidence(node, cs[j..], name, m) + rest ==
            ContainerEvidence(node, cs[j], name, m) + (PodEvidence(node, cs[j + 1..], name, m) + rest)
  {
    assert cs[j..][1..] == cs[j + 1..];
  }

  method ScanPod(node: string, cs: seq<Container>, name: string, m: Matcher, remembered0: Option<Evidence>, ghost rest: seq<Evidence>)
    returns (remembered: Option<Evidence>, active: Option<Evidence>)
    ensures active.Some? ==>
              Pick(PodEvidence(node, cs, name, m) + rest, remembered0) == Active(active.value.node, active.value.line)
    ensures active.None? ==> Pick(PodEvidence(node, cs, name, m) + rest, remembered0) == Pick(rest, remembered)
  {
    remembered, active := remembered0, None;
    for j := 0 to |cs|
      invariant active.None?
      invariant Pick(PodEvidence(node, cs, name, m) + rest, remembered0) ==
                Pick(PodEvidence(node, cs[j..], name, m) + rest, remembered)
    {
      ghost var later := PodEvidence(node, cs[j + 1..], name, m);
      NextContainer(node, cs, j, name, m, rest);
      remembered, active := ScanContainer(node, cs[j], name, m, remembered, later + rest);
      if active.Some? {
        return;
      }
    }
    assert [] + rest == rest;
  }

  /** findCudaDriverCrash. */
  method FindCrash(pods: seq<Pod>, name: string, m: Matcher) returns (crash: Crash)
    ensures crash == Pick(AllEvidence(pods, name, m), None)
  {
    var remembered: Option<Evidence> := None;
    for i := 0 to |pods|
      invariant Pick(AllEvidence(pods, name, m), None) == Pick(AllEvidence(pods[i..], name, m), remembered)
    {
      assert pods[i..][1..] == pods[i + 1..];
      var active: Option<Evidence>;
      remembered, active := ScanPod(pods[i].node, pods[i].containers, name, m, remembered, AllEvidence(pods[i + 1..], name, m));
      if active.Some? {
        return Active(active.value.node, active.value.line);
      }
    }
    return if remembered.None? then NoCrash else Recovered(remembered.value.node, remembered.value.line);
  }

  predicate AnyReady(cs: seq<Container>, name: string) {
    exists i | 0 <= i < |cs| :: cs[i].name == name && cs[i].ready
  }

  predicate RuntimeReady(pods: seq<Pod>, name: string) {
    exists i | 0 <= i < |pods| :: AnyReady(pods[i].containers, name)
  }

  /** runtimeContainerReady. */
  method RuntimeContainerReady(pods: seq<Pod>, name: string) returns (ready: bool)
    ensures ready <==> RuntimeReady(pods, name)
  {
    for i := 0 to |pods|
      invariant forall k | 0 <= k < i :: !AnyReady(pods[k].containers, name)
    {
      var cs := pods[i].containers;
      for j := 0 to |cs|
        invariant forall k | 0 <= k < j :: !(cs[k].name == name && cs[k].ready)
      {
        if cs[j].name == name && cs[j].ready {
          assert AnyReady(pods[i].containers, name);
          return true;
        }
      }
    }
    return false;
  }

  /** It ended with a non-zero exit code and a message that shows the mismatch. */
  predicate Mismatched(t: Option<Terminated>, m: Matcher) {
    t.Some? && t.value.exitCode != 0 && m(t.value.message).Some?
  }

  /** A container of that name that is not ready and ended, now or last time, in the
      mismatch. */
  predicate CrashingNow(c: Container, name: string, m: Matcher) {
    c.name == name && !c.ready && (Mismatched(c.current, m) || Mismatched(c.last, m))
  }

  lemma {:induction false} PodEvidenceActive(node: string, cs: seq<Container>, name: string, m: Matcher)
    ensures (exists e :: e in PodEvidence(node, cs, name, m) && !e.ready) <==>
            exists c :: c in cs && CrashingNow(c, name, m)
  {
    if cs != [] {
      PodEvidenceActive(node, cs[1..], name, m);
      assert cs == [cs[0]] + cs[1..];
      var es := ContainerEvidence(node, cs[0], name, m);
      assert (exists e :: e in es && !e.ready) <==> CrashingNow(cs[0], name, m) by {
        if CrashingNow(cs[0], name, m) { assert es[0] in es && !es[0].ready; }
      }
    }
  }

  /** The scan reports an active crash exactly when some pod has a runtime container
      that is crashing now; a healthy replica elsewhere never hides it. */
  lemma {:induction false} ActiveIff(pods: seq<Pod>, name: string, m: Matcher)
    ensures Pick(AllEvidence(pods, name, m), None).Active? <==>
            exists p, c :: p in pods && c in p.containers && CrashingNow(c, name, m)
  {
    PickFindsActive(AllEvidence(pods, name, m), None);
    AllEvidenceActive(pods, name, m);
  }

  lemma {:induction false} AllEvidenceActive(pods: seq<Pod>, name: string, m: Matcher)
    ensures (exists e :: e in AllEvidence(pods, name, m) && !e.ready) <==>
            exists p, c :: p in pods && c in p.containers && CrashingNow(c, name, m)
  {
    if pods != [] {
      AllEvidenceActive(pods[1..], name, m);
      PodEvidenceActive(pods[0].node, pods[0].containers, name, m);
      assert pods == [pods[0]] + pods[1..];
    }
  }

  /** Which evidence is reported: the first that is not ready, with its node and line;
      with none, the first of all, as recovered. */
  lemma {:induction false} PickIsFirst(es: seq<Evidence>, i: nat)
    requires i < |es| && forall j | 0 <= j < i :: es[j].ready
    ensures !es[i].ready ==> Pick(es, None) == Active(es[i].node, es[i].line)
    ensures i == |es| - 1 && es[i].ready ==> Pick(es, None) == Recovered(es[0].node, es[0].line)
  {
    PickFrom(es, None, i);
  }

  lemma {:induction false} PickFrom(es: seq<Evidence>, remembered: Option<Evidence>, i: nat)
    requires i < |es| && forall j | 0 <= j < i :: es[j].ready
    ensures !es[i].ready ==> Pick(es, remembered) == Active(es[i].node, es[i].line)
    ensures i == |es| - 1 && es[i].ready ==>
              var e := if remembered.Some? then remembered.value else es[0];
              Pick(es, remembered) == Recovered(e.node, e.line)
  {
    if i > 0 {
      PickFrom(es[1..], if remembered.None? then Some(es[0]) else remembered, i - 1);
    }
  }

  /** Pods are scanned one after another. */
  lemma {:induction false} EvidenceOfPods(a: seq<Pod>, b: seq<Pod>, name: string, m: Matcher)
    ensures AllEvidence(a + b, name, m) == AllEvidence(a, name, m) + AllEvidence(b, name, m)
  {
    if a == [] {
      assert a + b == b;
    } else {
      assert (a + b)[1..] == a[1..] + b;
      EvidenceOfPods(a[1..], b, name, m);
    }
  }

  /** Its containers one after another. */
  lemma {:induction false} EvidenceOfContainers(node: string, a: seq<Container>, b: seq<Container>, name: string, m: Matcher)
    ensures PodEvidence(node, a + b, name, m) == PodEvidence(node, a, name, m) + PodEvidence(node, b, name, m)
  {
    if a == [] {
      assert a + b == b;
    } else {
      assert (a + b)[1..] == a[1..] + b;
      EvidenceOfContainers(node, a[1..], b, name, m);
    }
  }

  /** And of one container the current termination before the last one, under the pod's
      node and the container's readiness. */
  lemma EvidenceOfOne(node: string, c: Container, name: string, m: Matcher)
    ensures var es := AllEvidence([Pod(node, [c])], name, m);
            && (c.name != name ==> es == [])
            && (c.name == name && Mismatched(c.current, m) ==>
                  es != [] && es[0] == Evidence(node, m(c.current.value.message).value, c.ready))
            && (c.name == name && Mismatched(c.last, m) ==>
                  es != [] && es[|es| - 1] == Evidence(node, m(c.last.value.message).value, c.ready))
            && |es| == if c.name != name then 0
                       else (if Mismatched(c.current, m) then 1 else 0) + (if Mismatched(c.last, m) then 1 else 0)
  {
    assert [Pod(node, [c])][1..] == [] && [c][1..] == [];
    assert AllEvidence([Pod(node, [c])], name, m) == PodEvidence(node, [c], name, m) + [];
    assert PodEvidence(node, [c], name, m) == ContainerEvidence(node, c, name, m) + [];
  }
}
