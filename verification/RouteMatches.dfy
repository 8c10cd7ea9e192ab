/** How a router rule becomes an OR of ANDs of exact header matches, and what
    that list accepts. */
module RouteMatches {
  import opened Common
  import opened StringOrder

  const AI_GATEWAY_MODEL_HEADER: string := "x-ai-eg-model"
  const AGENT_GATEWAY_MODEL_HEADER: string := "X-Gateway-Model-Name"

  /** An Exact header match. */
  datatype HeaderMatch = HeaderMatch(name: string, value: string)

  /** A condition list; all must hold. */
  type Entry = seq<HeaderMatch>

  type Request = map<string, string>

  datatype Rule = Rule(
    models: seq<string>, classifications: seq<string>, classificationKey: string, headers: map<string, string>)

  // ---- what the gateway does with a match entry -----------------------------

  /** Header names are the same when this maps them to the same name; for HTTP it
      folds the case. A request is keyed by such canonical names. */
  type Canon = string -> string

  predicate Carries(canon: Canon, req: Request, h: HeaderMatch) {
    canon(h.name) in req && req[canon(h.name)] == h.value
  }

  /** The Gateway API considers only the first of the conditions whose header names
      are equivalent. */
  predicate Holds(canon: Canon, e: Entry, req: Request, seen: set<string>) {
    e == [] ||
    ((canon(e[0].name) in seen || Carries(canon, req, e[0])) && Holds(canon, e[1..], req, seen + {canon(e[0].name)}))
  }

  /** Match entries are ORed. */
  predicate Accepts(canon: Canon, entries: seq<Entry>, req: Request) {
    entries != [] &&
    (Holds(canon, entries[|entries| - 1], req, {}) || Accepts(canon, entries[..|entries| - 1], req))
  }

  lemma {:induction false} AcceptsIff(canon: Canon, entries: seq<Entry>, req: Request)
    ensures Accepts(canon, entries, req) <==> exists e :: e in entries && Holds(canon, e, req, {})
  {
    if entries != [] {
      var init, last := entries[..|entries| - 1], entries[|entries| - 1];
      AcceptsIff(canon, init, req);
      assert entries == init + [last];
      if Accepts(canon, init, req) {
        var e :| e in init && Holds(canon, e, req, {});
        assert e in entries;
      }
      assert last in entries;
    }
  }

  // ---- the compiler ---------------------------------------------------------

  function Entry3(m: Option<HeaderMatch>, c: Option<HeaderMatch>, hs: seq<HeaderMatch>): (r: Entry) {
    Lead(m) + (Lead(c) + hs)
  }

  function Lead(o: Option<HeaderMatch>): (r: Entry) {
    if o.Some? then [o.value] else []
  }

  function Row(m: Option<HeaderMatch>, cs: seq<Option<HeaderMatch>>, hs: seq<HeaderMatch>): (r: seq<Entry>) {
    if cs == [] then []
    else Row(m, cs[..|cs| - 1], hs) + [Entry3(m, cs[|cs| - 1], hs)]
  }

  /** One entry per pair of options, in nested-loop order. */
  function Product(ms: seq<Option<HeaderMatch>>, cs: seq<Option<HeaderMatch>>, hs: seq<HeaderMatch>): (r: seq<Entry>) {
    if ms == [] then []
    else Product(ms[..|ms| - 1], cs, hs) + Row(ms[|ms| - 1], cs, hs)
  }

  /** Each value's condition, or one empty placeholder when there are no values. */
  function Options(values: seq<string>, header: string): (r: seq<Option<HeaderMatch>>)
    ensures |r| > 0
  {
    if values == [] then [None]
    else seq(|values|, i requires 0 <= i < |values| => Some(HeaderMatch(header, values[i])))
  }

  /** classificationOptions. */
  method BuildOptions(values: seq<string>, header: string) returns (opts: seq<Option<HeaderMatch>>)
    ensures opts == Options(values, header)
  {
    if |values| == 0 {
      return [None];
    }
    opts := [];
    for i := 0 to |values|
      invariant |opts| == i && forall j | 0 <= j < i :: opts[j] == Some(HeaderMatch(header, values[j]))
    {
      opts := opts + [Some(HeaderMatch(header, values[i]))];
    }
  }

  /** The user headers as conditions, sorted by name. */
  ghost predicate ListsHeaders(hs: seq<HeaderMatch>, headers: map<string, string>) {
    && (forall i | 0 <= i < |hs| :: hs[i].name in headers && headers[hs[i].name] == hs[i].value)
    && (forall name | name in headers :: exists i | 0 <= i < |hs| :: hs[i].name == name)
    && (forall i, j | 0 <= i < j < |hs| :: Less(hs[i].name, hs[j].name))
  }

  method SortedHeaderMatches(headers: map<string, string>) returns (hs: seq<HeaderMatch>)
    ensures ListsHeaders(hs, headers)
  {
    var names := SortedKeys(headers.Keys);
    hs := [];
    for i := 0 to |names|
      invariant |hs| == i
      invariant forall j | 0 <= j < i :: names[j] in headers && hs[j] == HeaderMatch(names[j], headers[names[j]])
    {
      assert names[i] in Elements(names);
      hs := hs + [HeaderMatch(names[i], headers[names[i]])];
    }
    forall name | name in headers ensures exists i | 0 <= i < |hs| :: hs[i].name == name {
      assert name in Elements(names);
      var i :| 0 <= i < |names| && names[i] == name;
      assert hs[i].name == name;
    }
  }

  method CompileRow(m: Option<HeaderMatch>, classOpts: seq<Option<HeaderMatch>>, hs: seq<HeaderMatch>) returns (row: seq<Entry>)
    ensures row == Row(m, classOpts, hs)
  {
    row := [];
    for j := 0 to |classOpts|
      invariant row == Row(m, classOpts[..j], hs)
    {
      assert classOpts[..j + 1][..j] == classOpts[..j];
      row := row + [Entry3(m, classOpts[j], hs)];
    }
    assert classOpts[..|classOpts|] == classOpts;
  }

  method CompileRows(modelOpts: seq<Option<HeaderMatch>>, classOpts: seq<Option<HeaderMatch>>, hs: seq<HeaderMatch>)
    returns (matches: seq<Entry>)
    ensures matches == Product(modelOpts, classOpts, hs)
  {
    matches := [];
    for i := 0 to |modelOpts|
      invariant matches == Product(modelOpts[..i], classOpts, hs)
    {
      assert modelOpts[..i + 1][..i] == modelOpts[..i];
      var row := CompileRow(modelOpts[i], classOpts, hs);
      matches := matches + row;
    }
    assert modelOpts[..|modelOpts|] == modelOpts;
  }

  const NO_CLASS: seq<Option<HeaderMatch>> := [None]

  function AgentOption(model: string): (r: Option<HeaderMatch>) {
    if model == "" then None else Some(HeaderMatch(AGENT_GATEWAY_MODEL_HEADER, model))
  }

  /** The agent gateway treats an empty model name as its own placeholder. */
  function AgentOptions(models: seq<string>): (r: seq<Option<HeaderMatch>>) {
    if models == [] then [None]
    else seq(|models|, i requires 0 <= i < |models| => AgentOption(models[i]))
  }

  method CompileAgentEntry(model: string, hs: seq<HeaderMatch>) returns (entry: Entry)
    ensures entry == Entry3(AgentOption(model), None, hs)
  {
    entry := [];
    if model != "" {
      entry := [HeaderMatch(AGENT_GATEWAY_MODEL_HEADER, model)];
    }
    entry := entry + hs;
    assert Lead(None) + hs == hs;
  }

  lemma RowOfOne(m: Option<HeaderMatch>, hs: seq<HeaderMatch>)
    ensures Row(m, NO_CLASS, hs) == [Entry3(m, None, hs)]
  {
    assert NO_CLASS[..0] == [];
  }

  method CompileAgentEntries(models: seq<string>, hs: seq<HeaderMatch>) returns (matches: seq<Entry>)
    ensures matches == Product(AgentOptions(models), NO_CLASS, hs)
  {
    var modelOpts := if |models| == 0 then [""] else models;
    ghost var opts := AgentOptions(models);
    matches := [];
    for i := 0 to |modelOpts|
      invariant matches == Product(opts[..i], NO_CLASS, hs)
    {
      assert opts[..i + 1][..i] == opts[..i];
      var entry := CompileAgentEntry(modelOpts[i], hs);
      assert opts[i] == AgentOption(modelOpts[i]);
      RowOfOne(opts[i], hs);
      matches := matches + [entry];
    }
    assert opts[..|modelOpts|] == opts;
  }

  // ---- what the compiled list accepts ---------------------------------------

  lemma {:induction false} AcceptsAppend(canon: Canon, a: seq<Entry>, b: seq<Entry>, req: Request)
    ensures Accepts(canon, a + b, req) <==> Accepts(canon, a, req) || Accepts(canon, b, req)
  {
    if b == [] {
      assert a + b == a;
    } else {
      assert (a + b)[..|a + b| - 1] == a + b[..|b| - 1];
      AcceptsAppend(canon, a, b[..|b| - 1], req);
    }
  }

  /** The user header that counts among equivalent ones: the least, which is listed
      first. */
  ghost predicate Counts(canon: Canon, headers: map<string, string>, name: string) {
    name in headers &&
    forall other | other in headers && canon(other) == canon(name) :: other == name || Less(name, other)
  }

  /** The user headers that count and are not on a name already taken all match. */
  ghost predicate UserHeadersHold(canon: Canon, headers: map<string, string>, req: Request, taken: set<string>) {
    forall name | Counts(canon, headers, name) && canon(name) !in taken ::
      canon(name) in req && req[canon(name)] == headers[name]
  }

  /** No earlier condition is on an equivalent name. */
  ghost predicate IsFirst(canon: Canon, hs: seq<HeaderMatch>, i: int)
    requires 0 <= i < |hs|
  {
    forall j | 0 <= j < i :: canon(hs[j].name) != canon(hs[i].name)
  }

  lemma FirstInTail(canon: Canon, hs: seq<HeaderMatch>, i: int)
    requires 0 < i < |hs|
    ensures IsFirst(canon, hs, i) <==> canon(hs[i].name) != canon(hs[0].name) && IsFirst(canon, hs[1..], i - 1)
  {
    if IsFirst(canon, hs, i) {
      forall j | 0 <= j < i - 1 ensures canon(hs[1..][j].name) != canon(hs[1..][i - 1].name) {
        assert hs[1..][j] == hs[j + 1];
      }
    }
    if canon(hs[i].name) != canon(hs[0].name) && IsFirst(canon, hs[1..], i - 1) {
      forall j | 0 <= j < i ensures canon(hs[j].name) != canon(hs[i].name) {
        if j > 0 { assert hs[1..][j - 1] == hs[j]; }
      }
    }
  }

  lemma {:induction false} HeadersHold(canon: Canon, hs: seq<HeaderMatch>, req: Request, seen: set<string>)
    ensures Holds(canon, hs, req, seen) <==>
            forall i | 0 <= i < |hs| && canon(hs[i].name) !in seen && IsFirst(canon, hs, i) :: Carries(canon, req, hs[i])
  {
    if hs != [] {
      var rest, more := hs[1..], seen + {canon(hs[0].name)};
      HeadersHold(canon, rest, req, more);
      forall i | 0 < i < |hs|
        ensures rest[i - 1] == hs[i]
        ensures IsFirst(canon, hs, i) <==> canon(hs[i].name) != canon(hs[0].name) && IsFirst(canon, rest, i - 1)
      {
        FirstInTail(canon, hs, i);
      }
      if Holds(canon, hs, req, seen) {
        forall i | 0 <= i < |hs| && canon(hs[i].name) !in seen && IsFirst(canon, hs, i)
          ensures Carries(canon, req, hs[i])
        {
          if i > 0 { assert Carries(canon, req, rest[i - 1]); }
        }
      }
    }
  }

  /** In the sorted list the first of equivalent names is the one that counts. */
  lemma FirstIffCounts(canon: Canon, hs: seq<HeaderMatch>, headers: map<string, string>, i: int)
    requires ListsHeaders(hs, headers) && 0 <= i < |hs|
    ensures IsFirst(canon, hs, i) <==> Counts(canon, headers, hs[i].name)
  {
    var name := hs[i].name;
    if IsFirst(canon, hs, i) {
      forall other | other in headers && canon(other) == canon(name) ensures other == name || Less(name, other) {
        var j :| 0 <= j < |hs| && hs[j].name == other;
      }
    }
    if Counts(canon, headers, name) {
      forall j | 0 <= j < i ensures canon(hs[j].name) != canon(name) {
        LessAsymmetric(hs[j].name, name);
      }
    }
  }

  lemma LessAsymmetric(a: string, b: string)
    requires Less(a, b)
    ensures a != b && !Less(b, a)
  {
    LessIrreflexive(a);
    if Less(b, a) { LessTransitive(a, b, a); }
  }

  lemma ListedHeadersHold(canon: Canon, hs: seq<HeaderMatch>, headers: map<string, string>, req: Request, seen: set<string>)
    requires ListsHeaders(hs, headers)
    ensures Holds(canon, hs, req, seen) <==> UserHeadersHold(canon, headers, req, seen)
  {
    HeadersHold(canon, hs, req, seen);
    forall i | 0 <= i < |hs| ensures IsFirst(canon, hs, i) <==> Counts(canon, headers, hs[i].name) {
      FirstIffCounts(canon, hs, headers, i);
    }
    if Holds(canon, hs, req, seen) {
      forall name | Counts(canon, headers, name) && canon(name) !in seen
        ensures canon(name) in req && req[canon(name)] == headers[name]
      {
        var i :| 0 <= i < |hs| && hs[i].name == name;
        assert Carries(canon, req, hs[i]);
      }
    }
  }

  /** A condition that is present, and not on a name already taken, must be carried. */
  predicate OptionHolds(canon: Canon, o: Option<HeaderMatch>, req: Request, taken: set<string>) {
    o.None? || canon(o.value.name) in taken || Carries(canon, req, o.value)
  }

  function Taken(canon: Canon, o: Option<HeaderMatch>): (r: set<string>) {
    if o.None? then {} else {canon(o.value.name)}
  }

  lemma EntryHolds(
    canon: Canon, m: Option<HeaderMatch>, c: Option<HeaderMatch>, hs: seq<HeaderMatch>, headers: map<string, string>, req: Request)
    requires ListsHeaders(hs, headers)
    ensures Holds(canon, Entry3(m, c, hs), req, {}) <==>
            && OptionHolds(canon, m, req, {}) && OptionHolds(canon, c, req, Taken(canon, m))
            && UserHeadersHold(canon, headers, req, Taken(canon, m) + Taken(canon, c))
  {
    PrefixHolds(canon, m, Lead(c) + hs, req, {});
    assert {} + Taken(canon, m) == Taken(canon, m);
    PrefixHolds(canon, c, hs, req, Taken(canon, m));
    ListedHeadersHold(canon, hs, headers, req, Taken(canon, m) + Taken(canon, c));
  }

  lemma PrefixHolds(canon: Canon, o: Option<HeaderMatch>, rest: Entry, req: Request, seen: set<string>)
    ensures Holds(canon, Lead(o) + rest, req, seen) <==>
            OptionHolds(canon, o, req, seen) && Holds(canon, rest, req, seen + Taken(canon, o))
  {
    if o.Some? {
      assert (Lead(o) + rest)[1..] == rest;
    } else {
      assert Lead(o) + rest == rest && seen + {} == seen;
    }
  }

  predicate AnyOptionHolds(canon: Canon, os: seq<Option<HeaderMatch>>, req: Request, taken: set<string>) {
    os != [] &&
    (OptionHolds(canon, os[|os| - 1], req, taken) || AnyOptionHolds(canon, os[..|os| - 1], req, taken))
  }

  lemma {:induction false} AnyOptionIff(canon: Canon, os: seq<Option<HeaderMatch>>, req: Request, taken: set<string>)
    ensures AnyOptionHolds(canon, os, req, taken) <==> exists o :: o in os && OptionHolds(canon, o, req, taken)
  {
    if os != [] {
      AnyOptionIff(canon, os[..|os| - 1], req, taken);
      assert os == os[..|os| - 1] + [os[|os| - 1]];
    }
  }

  lemma {:induction false} RowAccepts(
    canon: Canon, m: Option<HeaderMatch>, cs: seq<Option<HeaderMatch>>, hs: seq<HeaderMatch>,
    headers: map<string, string>, req: Request, classTaken: set<string>)
    requires ListsHeaders(hs, headers) && forall j | 0 <= j < |cs| :: Taken(canon, cs[j]) == classTaken
    ensures Accepts(canon, Row(m, cs, hs), req) <==>
            && OptionHolds(canon, m, req, {}) && AnyOptionHolds(canon, cs, req, Taken(canon, m))
            && UserHeadersHold(canon, headers, req, Taken(canon, m) + classTaken)
  {
    if cs != [] {
      var init, last := cs[..|cs| - 1], cs[|cs| - 1];
      RowAccepts(canon, m, init, hs, headers, req, classTaken);
      EntryHolds(canon, m, last, hs, headers, req);
      assert Row(m, cs, hs)[..|Row(m, cs, hs)| - 1] == Row(m, init, hs);
    }
  }

  /** The product accepts a request exactly when some option of each dimension
      and the remaining user headers do. */
  lemma {:induction false} ProductAccepts(
    canon: Canon, ms: seq<Option<HeaderMatch>>, cs: seq<Option<HeaderMatch>>, hs: seq<HeaderMatch>,
    headers: map<string, string>, req: Request, modelTaken: set<string>, classTaken: set<string>)
    requires ListsHeaders(hs, headers)
    requires forall i | 0 <= i < |ms| :: Taken(canon, ms[i]) == modelTaken
    requires forall j | 0 <= j < |cs| :: Taken(canon, cs[j]) == classTaken
    ensures Accepts(canon, Product(ms, cs, hs), req) <==>
            && AnyOptionHolds(canon, ms, req, {}) && AnyOptionHolds(canon, cs, req, modelTaken)
            && UserHeadersHold(canon, headers, req, modelTaken + classTaken)
  {
    if ms != [] {
      var init, last := ms[..|ms| - 1], ms[|ms| - 1];
      ProductAccepts(canon, init, cs, hs, headers, req, modelTaken, classTaken);
      RowAccepts(canon, last, cs, hs, headers, req, classTaken);
      AcceptsAppend(canon, Product(init, cs, hs), Row(last, cs, hs), req);
    }
  }

  /** No values, or the request has one of them under that canonical name. */
  predicate OneOf(values: seq<string>, canonical: string, req: Request) {
    values == [] || (canonical in req && req[canonical] in values)
  }

  lemma OptionsHold(canon: Canon, values: seq<string>, header: string, req: Request, taken: set<string>)
    ensures AnyOptionHolds(canon, Options(values, header), req, taken) <==>
            canon(header) in taken || OneOf(values, canon(header), req)
  {
    var opts := Options(values, header);
    AnyOptionIff(canon, opts, req, taken);
    if values == [] || canon(header) in taken {
      assert opts[0] in opts && OptionHolds(canon, opts[0], req, taken);
    } else if OneOf(values, canon(header), req) {
      var i :| 0 <= i < |values| && values[i] == req[canon(header)];
      assert opts[i] in opts && OptionHolds(canon, opts[i], req, taken);
    }
  }

  /** The canonical names the generated conditions occupy ahead of the user's. */
  function Shadowed(canon: Canon, rule: Rule): (r: set<string>) {
    (if rule.models == [] then {} else {canon(AI_GATEWAY_MODEL_HEADER)})
    + (if rule.classifications == [] then {} else {canon(rule.classificationKey)})
  }

  /** The model condition comes first on the header the classification is kept on. */
  predicate ClassIgnored(canon: Canon, rule: Rule) {
    rule.models != [] && canon(rule.classificationKey) == canon(AI_GATEWAY_MODEL_HEADER)
  }

  /** What a rule lets through: the model is listed (or none is), the classification
      is listed (or none is, or its header is the model's), and every user header
      that counts and is not shadowed by those two matches. */
  ghost predicate RuleAccepts(canon: Canon, rule: Rule, req: Request) {
    && OneOf(rule.models, canon(AI_GATEWAY_MODEL_HEADER), req)
    && (ClassIgnored(canon, rule) || OneOf(rule.classifications, canon(rule.classificationKey), req))
    && UserHeadersHold(canon, rule.headers, req, Shadowed(canon, rule))
  }

  /** The cross product of models and classifications, each with all user headers. */
  function RuleEntries(rule: Rule, hs: seq<HeaderMatch>): (r: seq<Entry>) {
    Product(Options(rule.models, AI_GATEWAY_MODEL_HEADER),
            Options(rule.classifications, rule.classificationKey), hs)
  }

  /** For every rule, every request and every notion of equivalent names. */
  lemma CompiledRuleAccepts(canon: Canon, rule: Rule, hs: seq<HeaderMatch>, req: Request)
    requires ListsHeaders(hs, rule.headers)
    ensures Accepts(canon, RuleEntries(rule, hs), req) <==> RuleAccepts(canon, rule, req)
  {
    var model, key := AI_GATEWAY_MODEL_HEADER, rule.classificationKey;
    var ms, cs := Options(rule.models, model), Options(rule.classifications, key);
    var modelTaken := if rule.models == [] then {} else {canon(model)};
    var classTaken := if rule.classifications == [] then {} else {canon(key)};
    OptionsHold(canon, rule.models, model, req, {});
    OptionsHold(canon, rule.classifications, key, req, modelTaken);
    ProductAccepts(canon, ms, cs, hs, rule.headers, req, modelTaken, classTaken);
  }

  /** compileRuleMatches: the nested loops compile an entry list that lets through
      exactly the requests the rule describes. */
  method CompileRuleMatches(rule: Rule) returns (matches: seq<Entry>)
    ensures exists hs :: ListsHeaders(hs, rule.headers) && matches == RuleEntries(rule, hs)
    ensures forall canon, req :: Accepts(canon, matches, req) <==> RuleAccepts(canon, rule, req)
  {
    var hs := SortedHeaderMatches(rule.headers);
    var modelOpts := BuildOptions(rule.models, AI_GATEWAY_MODEL_HEADER);
    var classOpts := BuildOptions(rule.classifications, rule.classificationKey);
    matches := CompileRows(modelOpts, classOpts, hs);
    forall canon, req ensures Accepts(canon, matches, req) <==> RuleAccepts(canon, rule, req) {
      CompiledRuleAccepts(canon, rule, hs, req);
    }
  }

  // ---- the agent gateway's list ---------------------------------------------

  /** Some option holds together with the user headers it does not shadow. */
  ghost predicate AnyPlacedHolds(canon: Canon, ms: seq<Option<HeaderMatch>>, headers: map<string, string>, req: Request) {
    ms != [] &&
    (|| (&& OptionHolds(canon, ms[|ms| - 1], req, {})
         && UserHeadersHold(canon, headers, req, Taken(canon, ms[|ms| - 1])))
     || AnyPlacedHolds(canon, ms[..|ms| - 1], headers, req))
  }

  lemma {:induction false} AnyPlacedIff(canon: Canon, ms: seq<Option<HeaderMatch>>, headers: map<string, string>, req: Request)
    ensures AnyPlacedHolds(canon, ms, headers, req) <==>
            exists o :: o in ms && OptionHolds(canon, o, req, {}) && UserHeadersHold(canon, headers, req, Taken(canon, o))
  {
    if ms != [] {
      AnyPlacedIff(canon, ms[..|ms| - 1], headers, req);
      assert ms == ms[..|ms| - 1] + [ms[|ms| - 1]];
    }
  }

  lemma {:induction false} AgentProductAccepts(
    canon: Canon, ms: seq<Option<HeaderMatch>>, hs: seq<HeaderMatch>, headers: map<string, string>, req: Request)
    requires ListsHeaders(hs, headers)
    ensures Accepts(canon, Product(ms, NO_CLASS, hs), req) <==> AnyPlacedHolds(canon, ms, headers, req)
  {
    if ms != [] {
      var init, last := ms[..|ms| - 1], ms[|ms| - 1];
      AgentProductAccepts(canon, init, hs, headers, req);
      RowAccepts(canon, last, NO_CLASS, hs, headers, req, {});
      assert Taken(canon, last) + {} == Taken(canon, last);
      AcceptsAppend(canon, Product(init, NO_CLASS, hs), Row(last, NO_CLASS, hs), req);
    }
  }

  /** The request names a listed, non-empty model. */
  predicate NamesModel(canon: Canon, models: seq<string>, req: Request) {
    var header := canon(AGENT_GATEWAY_MODEL_HEADER);
    header in req && req[header] != "" && req[header] in models
  }

  /** The two ways an agent gateway rule lets a request through: it names a listed
      model and carries the user headers that count, other than the model header; or
      no model, or an empty one, is listed and it carries all that count. */
  ghost predicate AgentRuleAccepts(canon: Canon, models: seq<string>, headers: map<string, string>, req: Request) {
    || (NamesModel(canon, models, req) && UserHeadersHold(canon, headers, req, {canon(AGENT_GATEWAY_MODEL_HEADER)}))
    || ((models == [] || "" in models) && UserHeadersHold(canon, headers, req, {}))
  }

  /** For every model list, header map, request and notion of equivalent names. */
  lemma CompiledAgentRuleAccepts(
    canon: Canon, models: seq<string>, headers: map<string, string>, hs: seq<HeaderMatch>, req: Request)
    requires ListsHeaders(hs, headers)
    ensures Accepts(canon, Product(AgentOptions(models), NO_CLASS, hs), req) <==>
            AgentRuleAccepts(canon, models, headers, req)
  {
    var opts := AgentOptions(models);
    AgentProductAccepts(canon, opts, hs, headers, req);
    AnyPlacedIff(canon, opts, headers, req);
    forall o ensures o in opts <==> (models == [] && o == None) || exists m :: m in models && o == AgentOption(m) {
      AgentOptionMembers(models, o);
    }
    if NamesModel(canon, models, req) {
      assert AgentOption(req[canon(AGENT_GATEWAY_MODEL_HEADER)]) in opts;
    }
    if "" in models {
      assert AgentOption("") in opts;
    }
  }

  lemma AgentOptionMembers(models: seq<string>, o: Option<HeaderMatch>)
    ensures o in AgentOptions(models) <==> (models == [] && o == None) || exists m :: m in models && o == AgentOption(m)
  {
    var opts := AgentOptions(models);
    if m :| m in models && o == AgentOption(m) {
      var i :| 0 <= i < |models| && models[i] == m;
      assert opts[i] == o;
    }
    if models != [] && o in opts {
      var i :| 0 <= i < |opts| && opts[i] == o;
      assert models[i] in models && o == AgentOption(models[i]);
    }
  }

  /** compileAgentGatewayRuleMatches: one entry per model, no classifications. */
  method CompileAgentRuleMatches(models: seq<string>, headers: map<string, string>) returns (matches: seq<Entry>)
    ensures exists hs :: ListsHeaders(hs, headers) && matches == Product(AgentOptions(models), NO_CLASS, hs)
    ensures forall canon, req :: Accepts(canon, matches, req) <==> AgentRuleAccepts(canon, models, headers, req)
  {
    var hs := SortedHeaderMatches(headers);
    matches := CompileAgentEntries(models, hs);
    forall canon, req ensures Accepts(canon, matches, req) <==> AgentRuleAccepts(canon, models, headers, req) {
      CompiledAgentRuleAccepts(canon, models, headers, hs, req);
    }
  }
}
