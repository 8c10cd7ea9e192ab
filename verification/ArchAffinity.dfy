/** Narrowing a pod's required node affinity to supported architectures. */
module ArchAffinity {
  import opened Common

  const ARCH_LABEL: string := "kubernetes.io/arch"

  type Labels = map<string, string>

  /** A node selector requirement: the In operator, or any other one given by its
      effect on a node. */
  datatype Requirement = In(key: string, values: seq<string>) | Other(id: nat)

  /** matchExpressions and matchFields of one term. */
  datatype Term = Term(expressions: seq<Requirement>, fields: seq<Requirement>)

  predicate Satisfies(node: Labels, r: Requirement, other: (Labels, nat) -> bool) {
    match r
    case In(key, values) => key in node && node[key] in values
    case Other(id) => other(node, id)
  }

  predicate AllSatisfied(node: Labels, rs: seq<Requirement>, other: (Labels, nat) -> bool) {
    forall i | 0 <= i < |rs| :: Satisfies(node, rs[i], other)
  }

  predicate IsEmpty(t: Term) {
    t.expressions == [] && t.fields == []
  }

  /** A term without any requirement matches no node. */
  predicate TermMatches(node: Labels, t: Term, other: (Labels, nat) -> bool) {
    !IsEmpty(t) && AllSatisfied(node, t.expressions, other) && AllSatisfied(node, t.fields, other)
  }

  /** Terms are ORed; no selector at all admits every node. */
  predicate Admits(node: Labels, terms: Option<seq<Term>>, other: (Labels, nat) -> bool) {
    terms.None? || exists i | 0 <= i < |terms.value| :: TermMatches(node, terms.value[i], other)
  }

  function Listed(archs: seq<string>): (r: seq<string>)
    ensures forall a :: a in r <==> a in archs && a != ""
  {
    if archs == [] then []
    else
      assert archs == archs[..|archs| - 1] + [archs[|archs| - 1]];
      Listed(archs[..|archs| - 1]) + if archs[|archs| - 1] == "" then [] else [archs[|archs| - 1]]
  }

  function Narrow(t: Term, req: Requirement): (r: Term) {
    t.(expressions := t.expressions + [req])
  }

  /** The rewritten required terms. */
  function Rewritten(terms: Option<seq<Term>>, archs: seq<string>): (r: Option<seq<Term>>) {
    var values := Listed(archs);
    var req := In(ARCH_LABEL, values);
    if values == [] then terms
    else if terms.None? || terms.value == [] then Some([Term([req], [])])
    else Some(seq(|terms.value|, i requires 0 <= i < |terms.value| => Narrow(terms.value[i], req)))
  }

  predicate ArchListed(node: Labels, archs: seq<string>) {
    ARCH_LABEL in node && node[ARCH_LABEL] in Listed(archs)
  }

  predicate HasEmptyTerm(terms: Option<seq<Term>>) {
    terms.Some? && exists i | 0 <= i < |terms.value| :: IsEmpty(terms.value[i])
  }

  lemma NarrowedTerm(node: Labels, t: Term, req: Requirement, other: (Labels, nat) -> bool)
    ensures TermMatches(node, Narrow(t, req), other) <==>
            Satisfies(node, req, other) && (TermMatches(node, t, other) || IsEmpty(t))
  {
    var es := t.expressions + [req];
    assert es[|t.expressions|] == req;
    if AllSatisfied(node, es, other) {
      assert Satisfies(node, es[|t.expressions|], other);
      forall i | 0 <= i < |t.expressions| ensures Satisfies(node, t.expressions[i], other) {
        assert es[i] == t.expressions[i];
      }
    }
  }

  /** For every affinity and every node: once some architecture is listed, the
      rewritten selector admits a node exactly when its architecture is listed and
      the original admitted it, or had an empty term, or had no terms at all. */
  lemma RewriteAdmitsExactly(node: Labels, terms: Option<seq<Term>>, archs: seq<string>, other: (Labels, nat) -> bool)
    requires Listed(archs) != []
    ensures Admits(node, Rewritten(terms, archs), other) <==>
            && ArchListed(node, archs)
            && (Admits(node, terms, other) || HasEmptyTerm(terms) || terms == Some([]))
  {
    var req := In(ARCH_LABEL, Listed(archs));
    var out := Rewritten(terms, archs).value;
    if terms.None? || terms.value == [] {
      NarrowedTerm(node, Term([], []), req, other);
      assert out[0] == Narrow(Term([], []), req);
      assert TermMatches(node, out[0], other) <==> ArchListed(node, archs);
    } else {
      forall i | 0 <= i < |out|
        ensures TermMatches(node, out[i], other) <==>
                ArchListed(node, archs) && (TermMatches(node, terms.value[i], other) || IsEmpty(terms.value[i]))
      {
        NarrowedTerm(node, terms.value[i], req, other);
      }
      SomeNarrowed(node, terms.value, out, ArchListed(node, archs), other);
    }
  }

  lemma SomeNarrowed(node: Labels, before: seq<Term>, after: seq<Term>, listed: bool, other: (Labels, nat) -> bool)
    requires |before| == |after|
    requires forall i | 0 <= i < |after| ::
               TermMatches(node, after[i], other) <==> listed && (TermMatches(node, before[i], other) || IsEmpty(before[i]))
    ensures Admits(node, Some(after), other) <==>
            listed && (Admits(node, Some(before), other) || HasEmptyTerm(Some(before)))
  {
    if Admits(node, Some(after), other) {
      var i :| 0 <= i < |after| && TermMatches(node, after[i], other);
      assert TermMatches(node, before[i], other) || IsEmpty(before[i]);
    }
    if listed && Admits(node, Some(before), other) {
      var i :| 0 <= i < |before| && TermMatches(node, before[i], other);
      assert TermMatches(node, after[i], other);
    }
    if listed && HasEmptyTerm(Some(before)) {
      var i :| 0 <= i < |before| && IsEmpty(before[i]);
      assert TermMatches(node, after[i], other);
    }
  }

  /** When no architecture is named, or only empty ones are, nothing is rewritten. */
  lemma NoArchitectureNoRewrite(terms: Option<seq<Term>>, archs: seq<string>)
    requires forall i | 0 <= i < |archs| :: archs[i] == ""
    ensures Rewritten(terms, archs) == terms
  {
    NoneListed(archs);
  }

  lemma {:induction false} NoneListed(archs: seq<string>)
    requires forall i | 0 <= i < |archs| :: archs[i] == ""
    ensures Listed(archs) == []
  {
    if archs != [] { NoneListed(archs[..|archs| - 1]); }
  }

  /** A lone empty term, and a selector with no terms at all, admit no node; both come
      to admit every node of a listed architecture. */
  lemma EmptyTermIsWidened(node: Labels, archs: seq<string>, other: (Labels, nat) -> bool)
    requires ArchListed(node, archs)
    ensures var terms := Some([Term([], [])]);
            !Admits(node, terms, other) && Admits(node, Rewritten(terms, archs), other)
    ensures !Admits(node, Some([]), other) && Admits(node, Rewritten(Some([]), archs), other)
  {
    var terms := Some([Term([], [])]);
    assert IsEmpty(terms.value[0]);
    RewriteAdmitsExactly(node, terms, archs, other);
    RewriteAdmitsExactly(node, Some([]), archs, other);
  }

  /** With no empty term the rewrite only ever narrows: original and architecture. */
  lemma RewriteIsConjunction(node: Labels, terms: Option<seq<Term>>, archs: seq<string>, other: (Labels, nat) -> bool)
    requires Listed(archs) != [] && !HasEmptyTerm(terms) && terms != Some([])
    ensures Admits(node, Rewritten(terms, archs), other) <==> Admits(node, terms, other) && ArchListed(node, archs)
  {
    RewriteAdmitsExactly(node, terms, archs, other);
  }

  /** Rewriting again does not change which nodes are admitted, for any affinity. */
  lemma RewriteTwice(node: Labels, terms: Option<seq<Term>>, archs: seq<string>, other: (Labels, nat) -> bool)
    ensures Admits(node, Rewritten(Rewritten(terms, archs), archs), other) <==> Admits(node, Rewritten(terms, archs), other)
  {
    if Listed(archs) != [] {
      var once := Rewritten(terms, archs);
      assert !HasEmptyTerm(once) by {
        forall i | 0 <= i < |once.value| ensures !IsEmpty(once.value[i]) {
          assert |once.value[i].expressions| > 0;
        }
      }
      RewriteAdmitsExactly(node, terms, archs, other);
      RewriteIsConjunction(node, once, archs, other);
    }
  }

  // ---- the objects ----------------------------------------------------------

  class NodeSelector {
    var terms: seq<Term>

    constructor (terms: seq<Term>)
      ensures this.terms == terms
    {
      this.terms := terms;
    }
  }

  /** A pod's affinity; `rest` is what the rewrite never touches. */
  class Affinity {
    var required: NodeSelector?
    const rest: nat

    constructor (required: NodeSelector?, rest: nat)
      ensures this.required == required && this.rest == rest
    {
      this.required := required;
      this.rest := rest;
    }
  }

  class Deployment {
    var affinity: Affinity?

    constructor (affinity: Affinity?)
      ensures this.affinity == affinity
    {
      this.affinity := affinity;
    }

    /** The required terms of the pod template, None when any level is unset. */
    function RequiredTerms(): (r: Option<seq<Term>>)
      reads this, affinity, if affinity == null then null else affinity.required
    {
      if affinity == null || affinity.required == null then None else Some(affinity.required.terms)
    }

    /** applyArchNodeAffinity: copies the affinity before editing it, so the object
        it was shared with, and its selector, are never written. */
    method ApplyArchNodeAffinity(archs: seq<string>)
      modifies this
      ensures RequiredTerms() == Rewritten(old(RequiredTerms()), archs)
      ensures affinity == old(affinity) || fresh(affinity)
      ensures affinity != old(affinity) ==> affinity != null && affinity.required != null && fresh(affinity.required)
      ensures old(affinity) != null ==> affinity != null && affinity.rest == old(affinity).rest
    {
      var values := NonEmpty(archs);
      if |values| == 0 {
        return;
      }
      var req := In(ARCH_LABEL, values);
      ghost var want := Rewritten(RequiredTerms(), archs);
      var selector := new NodeSelector(if affinity != null && affinity.required != null then affinity.required.terms else []);
      var copy := new Affinity(selector, if affinity == null then 0 else affinity.rest);
      if |selector.terms| == 0 {
        selector.terms := [Term([req], [])];
      } else {
        ghost var before := selector.terms;
        for i := 0 to |selector.terms|
          modifies selector
          invariant |selector.terms| == |before|
          invariant forall j | 0 <= j < i :: selector.terms[j] == Narrow(before[j], req)
          invariant forall j | i <= j < |before| :: selector.terms[j] == before[j]
        {
          selector.terms := selector.terms[i := Narrow(selector.terms[i], req)];
        }
      }
      assert selector.terms == want.value;
      affinity := copy;
      assert RequiredTerms() == Some(selector.terms);
    }
  }

  method NonEmpty(archs: seq<string>) returns (values: seq<string>)
    ensures values == Listed(archs)
  {
    values := [];
    for i := 0 to |archs|
      invariant values == Listed(archs[..i])
    {
      assert archs[..i + 1][..i] == archs[..i];
      if archs[i] != "" {
        values := values + [archs[i]];
      }
    }
    assert archs[..|archs|] == archs;
  }
}
