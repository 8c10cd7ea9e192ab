/** Dropping unhealthy backends from a rule's ordered references, on the AI
    gateway and on the agent gateway, where the first one left picks the pool. */
module BackendEjection {
  import opened Common
  import opened StringOrder

  datatype Ref = Ref(name: string, priority: Option<int>, weight: Option<int>)
  datatype Backend = Backend(name: string, healthy: bool, pool: string)

  /** A compiled rule; `rest` stands for everything ejection leaves alone. */
  datatype Rule<R> = Rule(refs: seq<Ref>, rest: R)

  // ---- the filter both planes share -----------------------------------------

  /** The references whose names are not dropped, in order. */
  function Kept(refs: seq<Ref>, dropped: set<string>): (r: seq<Ref>) {
    if refs == [] then []
    else
      var last := refs[|refs| - 1];
      Kept(refs[..|refs| - 1], dropped) + if last.name in dropped then [] else [last]
  }

  /** The dropped names met, in order. */
  function Removed(refs: seq<Ref>, dropped: set<string>): (r: seq<string>) {
    if refs == [] then []
    else
      var last := refs[|refs| - 1];
      Removed(refs[..|refs| - 1], dropped) + if last.name in dropped then [last.name] else []
  }

  lemma {:induction false} KeptMembers(refs: seq<Ref>, dropped: set<string>, x: Ref)
    ensures x in Kept(refs, dropped) <==> x in refs && x.name !in dropped
  {
    if refs != [] {
      KeptMembers(refs[..|refs| - 1], dropped, x);
      assert refs == refs[..|refs| - 1] + [refs[|refs| - 1]];
    }
  }

  lemma {:induction false} RemovedMembers(refs: seq<Ref>, dropped: set<string>, name: string)
    ensures name in Removed(refs, dropped) <==> name in dropped && exists x :: x in refs && x.name == name
  {
    if refs != [] {
      RemovedMembers(refs[..|refs| - 1], dropped, name);
      assert refs == refs[..|refs| - 1] + [refs[|refs| - 1]];
    }
  }

  /** A rule is never emptied: with nothing kept, the original stands. */
  function Eject(refs: seq<Ref>, dropped: set<string>): (r: seq<Ref>)
    ensures refs != [] ==> r != []
  {
    if Kept(refs, dropped) == [] then refs else Kept(refs, dropped)
  }

  /** The names that really left the rule. */
  function EjectedFrom(refs: seq<Ref>, dropped: set<string>): (r: set<string>) {
    if Kept(refs, dropped) == [] then {} else Elements(Removed(refs, dropped))
  }

  lemma {:induction false} KeptInOrder(refs: seq<Ref>, dropped: set<string>) returns (at: seq<nat>)
    ensures |at| == |Kept(refs, dropped)|
    ensures forall i | 0 <= i < |at| :: at[i] < |refs| && refs[at[i]] == Kept(refs, dropped)[i]
    ensures forall i, j | 0 <= i < j < |at| :: at[i] < at[j]
  {
    if refs == [] {
      at := [];
    } else {
      var n := |refs| - 1;
      at := KeptInOrder(refs[..n], dropped);
      if refs[n].name !in dropped {
        assert Kept(refs, dropped) == Kept(refs[..n], dropped) + [refs[n]];
        at := at + [n];
      } else {
        assert Kept(refs, dropped) == Kept(refs[..n], dropped);
      }
    }
  }

  /** Ejection keeps a sub-list in the original order: `at` gives the positions. */
  lemma EjectKeepsOrder(refs: seq<Ref>, dropped: set<string>) returns (at: seq<nat>)
    ensures |at| == |Eject(refs, dropped)|
    ensures forall i | 0 <= i < |at| :: at[i] < |refs| && refs[at[i]] == Eject(refs, dropped)[i]
    ensures forall i, j | 0 <= i < j < |at| :: at[i] < at[j]
  {
    if Kept(refs, dropped) == [] {
      at := seq(|refs|, i => i);
    } else {
      at := KeptInOrder(refs, dropped);
    }
  }

  lemma {:induction false} KeptAll(refs: seq<Ref>, dropped: set<string>)
    requires forall i | 0 <= i < |refs| :: refs[i].name !in dropped
    ensures Kept(refs, dropped) == refs
  {
    if refs != [] {
      KeptAll(refs[..|refs| - 1], dropped);
      assert refs == refs[..|refs| - 1] + [refs[|refs| - 1]];
    }
  }

  /** A second pass changes nothing and ejects nothing. */
  lemma EjectIsIdempotent(refs: seq<Ref>, dropped: set<string>)
    ensures Eject(Eject(refs, dropped), dropped) == Eject(refs, dropped)
    ensures EjectedFrom(Eject(refs, dropped), dropped) == {}
  {
    var kept := Kept(refs, dropped);
    if kept != [] {
      forall x | x in kept ensures x.name !in dropped {
        KeptMembers(refs, dropped, x);
      }
      assert forall i | 0 <= i < |kept| :: kept[i] in kept;
      KeptAll(kept, dropped);
      forall name ensures name !in Removed(kept, dropped) {
        RemovedMembers(kept, dropped, name);
      }
    }
  }

  /** A name counts as ejected from a rule exactly when a reference to it was
      there before and none is left. */
  lemma EjectedMeansGone(refs: seq<Ref>, dropped: set<string>, name: string)
    ensures name in EjectedFrom(refs, dropped) <==>
            (exists x :: x in refs && x.name == name) && (forall x | x in Eject(refs, dropped) :: x.name != name)
  {
    RemovedMembers(refs, dropped, name);
    forall x ensures x in Kept(refs, dropped) <==> x in refs && x.name !in dropped {
      KeptMembers(refs, dropped, x);
    }
  }

  // ---- AI gateway -----------------------------------------------------------

  /** Unknown names are not in this set, so they are never ejected. */
  function Unhealthy(backends: seq<Backend>): (r: set<string>) {
    set b | b in backends && !b.healthy :: b.name
  }

  function EjectedNames<R>(rules: seq<Rule<R>>, dropped: set<string>): (r: set<string>) {
    if rules == [] then {}
    else EjectedNames(rules[..|rules| - 1], dropped) + EjectedFrom(rules[|rules| - 1].refs, dropped)
  }

  /** Some backend of that name is not healthy. */
  ghost predicate Down(backends: seq<Backend>, name: string) {
    exists b :: b in backends && b.name == name && !b.healthy
  }

  /** Every reference names a backend that is down. */
  ghost predicate AllDown(refs: seq<Ref>, backends: seq<Backend>) {
    forall x | x in refs :: Down(backends, x.name)
  }

  /** A reference stays exactly when its backend is not down, or all of the rule's are. */
  lemma StaysIff(refs: seq<Ref>, backends: seq<Backend>, x: Ref)
    ensures x in Eject(refs, Unhealthy(backends)) <==> x in refs && (!Down(backends, x.name) || AllDown(refs, backends))
  {
    var dropped := Unhealthy(backends);
    forall name ensures name in dropped <==> Down(backends, name) {
    }
    forall y ensures y in Kept(refs, dropped) <==> y in refs && !Down(backends, y.name) {
      KeptMembers(refs, dropped, y);
    }
    if Kept(refs, dropped) == [] {
      forall y | y in refs ensures Down(backends, y.name) {
        assert y !in Kept(refs, dropped);
      }
    } else {
      assert Kept(refs, dropped)[0] in Kept(refs, dropped);
    }
  }

  /** A name leaves a rule exactly when it is referenced, down, and not all are. */
  lemma LeavesIff(refs: seq<Ref>, backends: seq<Backend>, name: string)
    ensures name in EjectedFrom(refs, Unhealthy(backends)) <==>
            Down(backends, name) && !AllDown(refs, backends) && exists x :: x in refs && x.name == name
  {
    EjectedMeansGone(refs, Unhealthy(backends), name);
    forall x ensures x in Eject(refs, Unhealthy(backends)) <==>
                     x in refs && (!Down(backends, x.name) || AllDown(refs, backends))
    {
      StaysIff(refs, backends, x);
    }
  }

  /** The rule refers to the name, which is down, and keeps some other reference. */
  ghost predicate Leaves<R>(rule: Rule<R>, backends: seq<Backend>, name: string) {
    Down(backends, name) && !AllDown(rule.refs, backends) && exists x :: x in rule.refs && x.name == name
  }

  lemma {:induction false} EjectedNamesIff<R>(rules: seq<Rule<R>>, backends: seq<Backend>, name: string)
    ensures name in EjectedNames(rules, Unhealthy(backends)) <==>
            exists i | 0 <= i < |rules| :: Leaves(rules[i], backends, name)
  {
    if rules != [] {
      var init := rules[..|rules| - 1];
      EjectedNamesIff(init, backends, name);
      LeavesIff(rules[|rules| - 1].refs, backends, name);
      if i :| 0 <= i < |rules| && Leaves(rules[i], backends, name) {
        if i < |init| { assert Leaves(init[i], backends, name); }
      }
      if i :| 0 <= i < |init| && Leaves(init[i], backends, name) {
        assert Leaves(rules[i], backends, name);
      }
    }
  }

  method UnhealthyNames(backends: seq<Backend>) returns (unhealthy: set<string>)
    ensures unhealthy == Unhealthy(backends)
  {
    unhealthy := {};
    for i := 0 to |backends|
      invariant unhealthy == Unhealthy(backends[..i])
    {
      assert backends[..i + 1] == backends[..i] + [backends[i]];
      if !backends[i].healthy {
        unhealthy := unhealthy + {backends[i].name};
      }
    }
    assert backends[..|backends|] == backends;
  }

  /** One rule: splits the references and undoes the split if nothing is kept. */
  method EjectRule(refs: seq<Ref>, unhealthy: set<string>) returns (out: seq<Ref>, gone: set<string>)
    ensures out == Eject(refs, unhealthy) && gone == EjectedFrom(refs, unhealthy)
  {
    var kept: seq<Ref> := [];
    var removed: seq<string> := [];
    for i := 0 to |refs|
      invariant kept == Kept(refs[..i], unhealthy) && removed == Removed(refs[..i], unhealthy)
    {
      assert refs[..i + 1][..i] == refs[..i];
      if refs[i].name in unhealthy {
        removed := removed + [refs[i].name];
        continue;
      }
      kept := kept + [refs[i]];
    }
    assert refs[..|refs|] == refs;
    if |kept| == 0 {
      return refs, {};
    }
    return kept, Elements(removed);
  }

  /** ejectUnhealthyBackends: every rule is filtered on its own, and the report is
      the sorted, duplicate-free list of the names that left some rule. */
  method EjectUnhealthyBackends<R>(rules: seq<Rule<R>>, backends: seq<Backend>)
    returns (filtered: seq<Rule<R>>, ejected: seq<string>)
    ensures |filtered| == |rules|
    ensures forall i | 0 <= i < |rules| :: filtered[i] == rules[i].(refs := Eject(rules[i].refs, Unhealthy(backends)))
    ensures StrictlySorted(ejected) && Elements(ejected) == EjectedNames(rules, Unhealthy(backends))
    // In terms of the backends alone: what stays in each rule, and what is reported.
    ensures forall i, x | 0 <= i < |rules| ::
              x in filtered[i].refs <==>
              x in rules[i].refs && (!Down(backends, x.name) || AllDown(rules[i].refs, backends))
    ensures forall name :: name in Elements(ejected) <==>
              exists i | 0 <= i < |rules| :: Leaves(rules[i], backends, name)
  {
    var unhealthy := UnhealthyNames(backends);
    var names: set<string> := {};
    filtered := [];
    for i := 0 to |rules|
      invariant |filtered| == i
      invariant forall j | 0 <= j < i :: filtered[j] == rules[j].(refs := Eject(rules[j].refs, unhealthy))
      invariant names == EjectedNames(rules[..i], unhealthy)
    {
      assert rules[..i + 1][..i] == rules[..i];
      var refs, gone := EjectRule(rules[i].refs, unhealthy);
      filtered := filtered + [rules[i].(refs := refs)];
      names := names + gone;
    }
    assert rules[..|rules|] == rules;
    ejected := SortedKeys(names);
    forall i, x | 0 <= i < |rules|
      ensures x in filtered[i].refs <==>
              x in rules[i].refs && (!Down(backends, x.name) || AllDown(rules[i].refs, backends))
    {
      StaysIff(rules[i].refs, backends, x);
    }
    forall name ensures name in Elements(ejected) <==> exists i | 0 <= i < |rules| :: Leaves(rules[i], backends, name) {
      EjectedNamesIff(rules, backends, name);
    }
  }

  // ---- agent gateway --------------------------------------------------------

  /** The names whose last listing is healthy. */
  function HealthyLast(backends: seq<Backend>): (r: set<string>) {
    if backends == [] then {}
    else
      var last := backends[|backends| - 1];
      var before := HealthyLast(backends[..|backends| - 1]);
      if last.healthy then before + {last.name} else before - {last.name}
  }

  /** The listing at `i` is the last one of its name. */
  predicate LastListing(backends: seq<Backend>, i: nat) {
    i < |backends| && forall j | i < j < |backends| :: backends[j].name != backends[i].name
  }

  /** A name is healthy exactly when its last listing is, and has the pool of it. */
  lemma {:induction false} LastListingDecides(backends: seq<Backend>, i: nat)
    requires LastListing(backends, i)
    ensures backends[i].name in HealthyLast(backends) <==> backends[i].healthy
    ensures backends[i].name in PoolFor(backends) && PoolFor(backends)[backends[i].name] == backends[i].pool
  {
    if i < |backends| - 1 {
      var init := backends[..|backends| - 1];
      assert backends[|backends| - 1].name != backends[i].name;
      LastListingDecides(init, i);
    }
  }

  /** A name that is not listed is not healthy and has no pool. */
  lemma {:induction false} UnlistedIsUnhealthy(backends: seq<Backend>, name: string)
    requires forall i | 0 <= i < |backends| :: backends[i].name != name
    ensures name !in HealthyLast(backends) && name !in PoolFor(backends)
  {
    if backends != [] { UnlistedIsUnhealthy(backends[..|backends| - 1], name); }
  }

  /** The pool of each name, by its last listing. */
  function PoolFor(backends: seq<Backend>): (r: map<string, string>)
    ensures r.Keys == set b | b in backends :: b.name
  {
    if backends == [] then map[]
    else
      var last := backends[|backends| - 1];
      assert backends == backends[..|backends| - 1] + [last];
      PoolFor(backends[..|backends| - 1])[last.name := last.pool]
  }

  /** Here an unknown name counts as unhealthy. */
  function AgentDropped(refs: seq<Ref>, backends: seq<Backend>): (r: set<string>) {
    (set x | x in refs :: x.name) - HealthyLast(backends)
  }

  method HealthyNames(backends: seq<Backend>) returns (healthy: map<string, bool>)
    ensures forall n :: n in HealthyLast(backends) <==> n in healthy && healthy[n]
  {
    healthy := map[];
    for i := 0 to |backends|
      invariant forall n :: n in HealthyLast(backends[..i]) <==> n in healthy && healthy[n]
    {
      assert backends[..i + 1][..i] == backends[..i];
      healthy := healthy[backends[i].name := backends[i].healthy];
    }
    assert backends[..|backends|] == backends;
  }

  /** On the agent gateway a reference stays exactly when its name is healthy, or none
      of the rule's is; and every unhealthy one is reported, in order. */
  lemma AgentStaysIff(refs: seq<Ref>, backends: seq<Backend>, x: Ref)
    ensures var healthy := HealthyLast(backends);
            && (x in Eject(refs, AgentDropped(refs, backends)) <==>
                x in refs && (x.name in healthy || forall y | y in refs :: y.name !in healthy))
            && (x in refs ==> (x.name in Removed(refs, AgentDropped(refs, backends)) <==> x.name !in healthy))
  {
    var dropped := AgentDropped(refs, backends);
    forall y ensures y in Kept(refs, dropped) <==> y in refs && y.name in HealthyLast(backends) {
      KeptMembers(refs, dropped, y);
    }
    RemovedMembers(refs, dropped, x.name);
    if Kept(refs, dropped) == [] {
      forall y | y in refs ensures y.name !in HealthyLast(backends) {
        assert y !in Kept(refs, dropped);
      }
    } else {
      assert Kept(refs, dropped)[0] in Kept(refs, dropped);
    }
  }

  /** agentGatewayEjectUnhealthy for one rule; every unhealthy reference is
      reported, even those the never-empty rule keeps. */
  method AgentEjectRule(refs: seq<Ref>, backends: seq<Backend>) returns (out: seq<Ref>, reported: seq<string>)
    ensures out == Eject(refs, AgentDropped(refs, backends))
    ensures reported == Removed(refs, AgentDropped(refs, backends))
  {
    var healthy := HealthyNames(backends);
    ghost var dropped := AgentDropped(refs, backends);
    var kept: seq<Ref> := [];
    reported := [];
    for i := 0 to |refs|
      invariant kept == Kept(refs[..i], dropped) && reported == Removed(refs[..i], dropped)
    {
      assert refs[..i + 1][..i] == refs[..i];
      assert refs[i].name in dropped <==> refs[i].name !in HealthyLast(backends) by { assert refs[i] in refs; }
      if refs[i].name in healthy && healthy[refs[i].name] {
        kept := kept + [refs[i]];
      } else {
        reported := reported + [refs[i].name];
      }
    }
    assert refs[..|refs|] == refs;
    if |kept| == 0 {
      return refs, reported;
    }
    return kept, reported;
  }

  /** The pool of the first reference that has one. */
  function FirstPool(refs: seq<Ref>, poolFor: map<string, string>): (r: seq<string>)
    ensures |r| <= 1
    ensures r == [] <==> forall x | x in refs :: x.name !in poolFor
  {
    if refs == [] then []
    else if refs[0].name in poolFor then [poolFor[refs[0].name]]
    else
      assert refs == [refs[0]] + refs[1..];
      FirstPool(refs[1..], poolFor)
  }

  /** compileAgentGatewayRouteBackendRefs: deduplicates pools in first-appearance
      order, then emits only the first. */
  method CompileAgentBackendRefs(refs: seq<Ref>, poolFor: map<string, string>) returns (out: seq<string>)
    ensures out == FirstPool(refs, poolFor)
  {
    out := [];
    var seen: set<string> := {};
    for i := 0 to |refs|
      invariant out == [] ==> FirstPool(refs, poolFor) == FirstPool(refs[i..], poolFor) && seen == {}
      invariant out != [] ==> FirstPool(refs, poolFor) == [out[0]]
    {
      if refs[i].name !in poolFor || poolFor[refs[i].name] in seen {
        continue;
      }
      seen := seen + {poolFor[refs[i].name]};
      out := out + [poolFor[refs[i].name]];
    }
    if |out| > 1 {
      out := out[..1];
    }
  }

  lemma {:induction false} HealthyHasPool(backends: seq<Backend>)
    ensures HealthyLast(backends) <= PoolFor(backends).Keys
  {
    if backends != [] {
      HealthyHasPool(backends[..|backends| - 1]);
    }
  }

  /** `i` is the first reference whose backend is healthy. */
  predicate FirstHealthy(refs: seq<Ref>, backends: seq<Backend>, i: nat) {
    && i < |refs| && refs[i].name in HealthyLast(backends)
    && forall j | 0 <= j < i :: refs[j].name !in HealthyLast(backends)
  }

  lemma {:induction false} KeptStartsAtFirst(refs: seq<Ref>, dropped: set<string>, i: nat)
    requires i < |refs| && refs[i].name !in dropped
    requires forall j | 0 <= j < i :: refs[j].name in dropped
    ensures Kept(refs, dropped) != [] && Kept(refs, dropped)[0] == refs[i]
  {
    if i < |refs| - 1 {
      KeptStartsAtFirst(refs[..|refs| - 1], dropped, i);
    } else {
      KeptNone(refs[..i], dropped);
    }
  }

  lemma {:induction false} KeptNone(refs: seq<Ref>, dropped: set<string>)
    requires forall j | 0 <= j < |refs| :: refs[j].name in dropped
    ensures Kept(refs, dropped) == []
  {
    if refs != [] { KeptNone(refs[..|refs| - 1], dropped); }
  }

  /** Ejection followed by compilation is primary-fallback routing: the pool of the
      first healthy backend, or, with none healthy, that of the first reference
      that has a pool at all. */
  lemma FailoverPicksFirstHealthy(refs: seq<Ref>, backends: seq<Backend>)
    ensures forall i: nat | FirstHealthy(refs, backends, i) ::
              refs[i].name in PoolFor(backends)
              && FirstPool(Eject(refs, AgentDropped(refs, backends)), PoolFor(backends)) == [PoolFor(backends)[refs[i].name]]
    ensures (forall x | x in refs :: x.name !in HealthyLast(backends)) ==>
              FirstPool(Eject(refs, AgentDropped(refs, backends)), PoolFor(backends)) == FirstPool(refs, PoolFor(backends))
  {
    var dropped := AgentDropped(refs, backends);
    HealthyHasPool(backends);
    forall i: nat | FirstHealthy(refs, backends, i)
      ensures refs[i].name in PoolFor(backends)
              && FirstPool(Eject(refs, dropped), PoolFor(backends)) == [PoolFor(backends)[refs[i].name]]
    {
      forall j | 0 <= j < i ensures refs[j].name in dropped {
        assert refs[j] in refs;
      }
      KeptStartsAtFirst(refs, dropped, i);
    }
    if forall x | x in refs :: x.name !in HealthyLast(backends) {
      forall j | 0 <= j < |refs| ensures refs[j].name in dropped {
        assert refs[j] in refs;
      }
      KeptNone(refs, dropped);
    }
  }
}
