/** The documented meaning of a routing rule, and exactly which rules keep it once
    compiled. */
module RouteLaw {
  import opened RouteMatches
  import opened StringOrder

  /** Every user header matches, names compared up to equivalence. */
  predicate AllHeadersHold(canon: Canon, headers: map<string, string>, req: Request) {
    forall name | name in headers :: canon(name) in req && req[canon(name)] == headers[name]
  }

  /** One of the models, one of the classifications and all user headers. */
  predicate RuleLaw(canon: Canon, rule: Rule, req: Request) {
    && OneOf(rule.models, canon(AI_GATEWAY_MODEL_HEADER), req)
    && OneOf(rule.classifications, canon(rule.classificationKey), req)
    && AllHeadersHold(canon, rule.headers, req)
  }

  // ---- equivalent user headers ----------------------------------------------

  /** Equivalent user headers ask for the same value. */
  predicate Agreed(canon: Canon, headers: map<string, string>) {
    forall a, b | a in headers && b in headers && canon(a) == canon(b) :: headers[a] == headers[b]
  }

  /** Every value of the list is the one each equivalent user header asks for. */
  predicate Demanded(canon: Canon, values: seq<string>, header: string, headers: map<string, string>) {
    forall name, v | name in headers && v in values && canon(name) == canon(header) :: v == headers[name]
  }

  lemma LeastOf(names: set<string>) returns (least: string)
    requires names != {}
    ensures least in names && forall n | n in names :: n == least || Less(least, n)
    decreases names
  {
    var x :| x in names;
    least := x;
    if names != {x} {
      var rest := LeastOf(names - {x});
      LessTotal(x, rest);
      if Less(rest, x) { least := rest; }
      forall n | n in names ensures n == least || Less(least, n) {
        if n != x && least == x && n != rest { LessTransitive(x, rest, n); }
      }
    }
  }

  /** Among the user headers equivalent to one of them, some one counts. */
  lemma OneCounts(canon: Canon, headers: map<string, string>, name: string) returns (least: string)
    requires name in headers
    ensures Counts(canon, headers, least) && canon(least) == canon(name)
  {
    var names := set n | n in headers && canon(n) == canon(name);
    assert name in names;
    least := LeastOf(names);
  }

  lemma OnlyOneCounts(canon: Canon, headers: map<string, string>, a: string, b: string)
    requires Counts(canon, headers, a) && Counts(canon, headers, b) && canon(a) == canon(b)
    ensures a == b
  {
    if a != b { LessAsymmetric(a, b); }
  }

  /** The value asked for by the header that counts under each canonical name. */
  ghost predicate Answers(canon: Canon, headers: map<string, string>, req: Request) {
    && (forall c :: c in req <==> exists name :: name in headers && canon(name) == c)
    && (forall name | Counts(canon, headers, name) :: canon(name) in req && req[canon(name)] == headers[name])
  }

  ghost function Counting(canon: Canon, headers: map<string, string>, c: string): (name: string)
    requires exists n :: n in headers && canon(n) == c
    ensures Counts(canon, headers, name) && canon(name) == c
  {
    var n :| n in headers && canon(n) == c;
    assert exists l :: Counts(canon, headers, l) && canon(l) == c by { var l := OneCounts(canon, headers, n); }
    var l :| Counts(canon, headers, l) && canon(l) == c;
    l
  }

  /** A request that carries exactly what the user headers that count ask for. */
  lemma AnswerExists(canon: Canon, headers: map<string, string>) returns (req: Request)
    ensures Answers(canon, headers, req)
  {
    req := map c | c in (set n | n in headers :: canon(n)) :: headers[Counting(canon, headers, c)];
    forall name | Counts(canon, headers, name) ensures canon(name) in req && req[canon(name)] == headers[name] {
      OnlyOneCounts(canon, headers, name, Counting(canon, headers, canon(name)));
    }
  }

  /** When equivalent headers agree, meeting those that count meets all of them. */
  lemma CountingIsEnough(canon: Canon, headers: map<string, string>, req: Request, taken: set<string>, name: string)
    requires Agreed(canon, headers) && UserHeadersHold(canon, headers, req, taken)
    requires name in headers && canon(name) !in taken
    ensures canon(name) in req && req[canon(name)] == headers[name]
  {
    var least := OneCounts(canon, headers, name);
  }

  // ---- the AI gateway -------------------------------------------------------

  /** The rules that keep the law: equivalent user headers agree, a generated
      condition lists no value that an equivalent user header would refuse, and where
      the classification shares the model's header every model is a classification. */
  predicate LawKept(canon: Canon, rule: Rule) {
    && Agreed(canon, rule.headers)
    && Demanded(canon, rule.models, AI_GATEWAY_MODEL_HEADER, rule.headers)
    && if ClassIgnored(canon, rule)
       then rule.classifications == [] || forall m | m in rule.models :: m in rule.classifications
       else Demanded(canon, rule.classifications, rule.classificationKey, rule.headers)
  }

  /** For every notion of equivalent names, what a rule accepts is the documented law,
      for every request, exactly when the rule is one of those; other rules accept
      too much. */
  lemma RuleAcceptsIsTheLaw(canon: Canon, rule: Rule)
    ensures (forall req :: RuleAccepts(canon, rule, req) <==> RuleLaw(canon, rule, req)) <==> LawKept(canon, rule)
    ensures forall req | RuleLaw(canon, rule, req) :: RuleAccepts(canon, rule, req)
  {
    if LawKept(canon, rule) {
      forall req ensures RuleAccepts(canon, rule, req) <==> RuleLaw(canon, rule, req) {
        if RuleAccepts(canon, rule, req) { KeptLawHolds(canon, rule, req); }
      }
    } else {
      var req := RefusedRequestAccepted(canon, rule);
    }
  }

  lemma KeptLawHolds(canon: Canon, rule: Rule, req: Request)
    requires LawKept(canon, rule) && RuleAccepts(canon, rule, req)
    ensures RuleLaw(canon, rule, req)
  {
    forall name | name in rule.headers ensures canon(name) in req && req[canon(name)] == rule.headers[name] {
      if canon(name) !in Shadowed(canon, rule) {
        CountingIsEnough(canon, rule.headers, req, Shadowed(canon, rule), name);
      }
    }
  }

  /** The answer to the user headers with a listed model and a listed classification
      in place. */
  function Placed(canon: Canon, rule: Rule, base: Request, model: string, tag: string): (req: Request) {
    var classed := if rule.classifications == [] || ClassIgnored(canon, rule) then base
                   else base[canon(rule.classificationKey) := tag];
    if rule.models == [] then classed else classed[canon(AI_GATEWAY_MODEL_HEADER) := model]
  }

  lemma PlacedIsAccepted(canon: Canon, rule: Rule, base: Request, model: string, tag: string)
    requires Answers(canon, rule.headers, base)
    requires rule.models != [] ==> model in rule.models
    requires rule.classifications != [] ==> tag in rule.classifications
    ensures RuleAccepts(canon, rule, Placed(canon, rule, base, model, tag))
  {
  }

  lemma DisagreementRefuses(canon: Canon, headers: map<string, string>, req: Request)
    requires !Agreed(canon, headers)
    ensures !AllHeadersHold(canon, headers, req)
  {
  }

  /** A listed value that a user header refuses, put under its name, breaks the law. */
  lemma UndemandedRefuses(canon: Canon, values: seq<string>, header: string, headers: map<string, string>) returns (v: string)
    requires !Demanded(canon, values, header, headers)
    ensures v in values
    ensures forall req: Request | canon(header) in req && req[canon(header)] == v :: !AllHeadersHold(canon, headers, req)
  {
    var name;
    name, v :| name in headers && v in values && canon(name) == canon(header) && v != headers[name];
  }

  /** A rule outside that family lets some request through that the law refuses. */
  lemma RefusedRequestAccepted(canon: Canon, rule: Rule) returns (req: Request)
    requires !LawKept(canon, rule)
    ensures RuleAccepts(canon, rule, req) && !RuleLaw(canon, rule, req)
  {
    var base := AnswerExists(canon, rule.headers);
    var model := if rule.models == [] then "" else rule.models[0];
    var tag := if rule.classifications == [] then "" else rule.classifications[0];
    if !Agreed(canon, rule.headers) {
      DisagreementRefuses(canon, rule.headers, Placed(canon, rule, base, model, tag));
    } else if !Demanded(canon, rule.models, AI_GATEWAY_MODEL_HEADER, rule.headers) {
      model := UndemandedRefuses(canon, rule.models, AI_GATEWAY_MODEL_HEADER, rule.headers);
    } else if ClassIgnored(canon, rule) {
      model :| model in rule.models && model !in rule.classifications;
    } else {
      tag := UndemandedRefuses(canon, rule.classifications, rule.classificationKey, rule.headers);
    }
    req := Placed(canon, rule, base, model, tag);
    PlacedIsAccepted(canon, rule, base, model, tag);
  }

  /** Three such rules, for any spelling equivalent to the model header: a user
      condition that no listed model meets, a classification kept on it, and two
      spellings of one user header that disagree. */
  lemma ReusedHeadersBreakTheLaw(canon: Canon, spelling: string, other: string)
    requires canon(spelling) == canon(AI_GATEWAY_MODEL_HEADER)
    ensures !LawKept(canon, Rule(["m"], [], "c", map[spelling := "n"]))
    ensures !LawKept(canon, Rule(["m"], ["k"], spelling, map[]))
    ensures other != spelling && canon(other) == canon(spelling) ==>
              !LawKept(canon, Rule([], [], "c", map[spelling := "n", other := "m"]))
  {
    var headers := map[spelling := "n"];
    assert spelling in headers && "m" in ["m"] && "m" != headers[spelling];
    assert "m" in ["m"] && "m" !in ["k"];
    var both := map[spelling := "n", other := "m"];
    assert other != spelling ==> spelling in both && other in both && both[spelling] != both[other];
  }

  // ---- the agent gateway ----------------------------------------------------

  /** One of the models and all user headers. */
  predicate AgentRuleLaw(canon: Canon, models: seq<string>, headers: map<string, string>, req: Request) {
    OneOf(models, canon(AGENT_GATEWAY_MODEL_HEADER), req) && AllHeadersHold(canon, headers, req)
  }

  /** Some user header asks for a listed model. */
  predicate AsksForListed(canon: Canon, models: seq<string>, headers: map<string, string>) {
    exists name :: name in headers && canon(name) == canon(AGENT_GATEWAY_MODEL_HEADER) && headers[name] in models
  }

  /** The model lists that keep the law: equivalent user headers agree, every name
      that is not empty is the one asked for by each user header equivalent to the
      model header, and an empty name stands only where one asks for a listed model. */
  predicate AgentLawKept(canon: Canon, models: seq<string>, headers: map<string, string>) {
    && Agreed(canon, headers)
    && (forall name, m | name in headers && m in models && canon(name) == canon(AGENT_GATEWAY_MODEL_HEADER) && m != "" ::
          m == headers[name])
    && ("" in models ==> AsksForListed(canon, models, headers))
  }

  lemma AgentRuleAcceptsIsTheLaw(canon: Canon, models: seq<string>, headers: map<string, string>)
    ensures (forall req :: AgentRuleAccepts(canon, models, headers, req) <==> AgentRuleLaw(canon, models, headers, req))
            <==> AgentLawKept(canon, models, headers)
    ensures forall req | AgentRuleLaw(canon, models, headers, req) :: AgentRuleAccepts(canon, models, headers, req)
  {
    if AgentLawKept(canon, models, headers) {
      forall req ensures AgentRuleAccepts(canon, models, headers, req) <==> AgentRuleLaw(canon, models, headers, req) {
        if AgentRuleAccepts(canon, models, headers, req) { AgentKeptLawHolds(canon, models, headers, req); }
      }
    } else {
      var req := AgentRefusedRequestAccepted(canon, models, headers);
    }
  }

  lemma AgentKeptLawHolds(canon: Canon, models: seq<string>, headers: map<string, string>, req: Request)
    requires AgentLawKept(canon, models, headers) && AgentRuleAccepts(canon, models, headers, req)
    ensures AgentRuleLaw(canon, models, headers, req)
  {
    var header := canon(AGENT_GATEWAY_MODEL_HEADER);
    var taken := if UserHeadersHold(canon, headers, req, {}) then {} else {header};
    forall name | name in headers ensures canon(name) in req && req[canon(name)] == headers[name] {
      if canon(name) !in taken { CountingIsEnough(canon, headers, req, taken, name); }
    }
  }

  lemma AgentRefusedRequestAccepted(canon: Canon, models: seq<string>, headers: map<string, string>) returns (req: Request)
    requires !AgentLawKept(canon, models, headers)
    ensures AgentRuleAccepts(canon, models, headers, req) && !AgentRuleLaw(canon, models, headers, req)
  {
    var header := canon(AGENT_GATEWAY_MODEL_HEADER);
    var base := AnswerExists(canon, headers);
    if !Agreed(canon, headers) {
      req := if models == [] || "" in models then base else base[header := models[0]];
      DisagreementRefuses(canon, headers, req);
    } else if name, m :| name in headers && m in models && canon(name) == header && m != "" && m != headers[name] {
      req := base[header := m];
    } else {
      req := base;
    }
  }

  /** Two such rules, for any spelling equivalent to the model header: a user
      condition that no listed model meets, and an empty model name. */
  lemma AgentReuseBreaksTheLaw(canon: Canon, spelling: string)
    requires canon(spelling) == canon(AGENT_GATEWAY_MODEL_HEADER)
    ensures !AgentLawKept(canon, ["m"], map[spelling := "n"])
    ensures !AgentLawKept(canon, [""], map[])
  {
    var headers := map[spelling := "n"];
    assert spelling in headers && "m" in ["m"] && "m" != headers[spelling];
    assert "" in [""];
  }
}
