/**
 * The current engine, `MockServer`: first-fit selection over the rule list
 * with body, header, query-parameter and match-budget checks, an in-place
 * increment of the selected rule's counter, and rendering of its response.
 */
module MockServer {
  import opened Wrappers
  import opened Http
  import opened Patterns
  import opened Routes
  import opened Rendering
  import opened MockServerRequests

  /** An unset rule body accepts any request body; a set one only its own bytes. */
  predicate BodyMatches(expected: Option<Body>, data: Bytes, env: Env)
  {
    expected.None? || ToBytes(expected, env) == data
  }

  /** A positive `maxMatchCount` that the counter has reached makes a rule unavailable. */
  predicate Available(rule: MockServerRequest, count: nat)
  {
    !(rule.maxMatchCount > 0 && count >= rule.maxMatchCount)
  }

  /** Every check `handleRequest` makes of a rule whose counter is `count`. */
  predicate Qualifies(rule: MockServerRequest, count: nat, r: Request, env: Env)
  {
    && rule.uri == r.path
    && rule.httpMethod == r.httpMethod
    && BodyMatches(rule.body, r.body, env)
    && AllMatch(rule.headers, r.header, env.regex)
    && AllMatch(rule.queryParameters, r.form, env.regex)
    && Available(rule, count)
  }

  /** The first qualifying rule at or after index `from`. */
  function FirstMatchFrom(rules: seq<MockServerRequest>, counts: seq<nat>, r: Request, env: Env, from: nat)
    : (sel: Option<nat>)
    requires |counts| == |rules| && from <= |rules|
    ensures sel.Some? ==>
      && from <= sel.value < |rules|
      && Qualifies(rules[sel.value], counts[sel.value], r, env)
      && forall j :: from <= j < sel.value ==> !Qualifies(rules[j], counts[j], r, env)
    ensures sel.None? ==> forall j :: from <= j < |rules| ==> !Qualifies(rules[j], counts[j], r, env)
    decreases |rules| - from
  {
    if from == |rules| then None
    else if Qualifies(rules[from], counts[from], r, env) then Some(from)
    else FirstMatchFrom(rules, counts, r, env, from + 1)
  }

  /** The rule a request selects, given the counters: the first that qualifies, if any. */
  function FirstMatch(rules: seq<MockServerRequest>, counts: seq<nat>, r: Request, env: Env): (sel: Option<nat>)
    requires |counts| == |rules|
    ensures sel.Some? ==>
      && sel.value < |rules|
      && Qualifies(rules[sel.value], counts[sel.value], r, env)
      && forall j :: 0 <= j < sel.value ==> !Qualifies(rules[j], counts[j], r, env)
    ensures sel.None? ==> forall j :: 0 <= j < |rules| ==> !Qualifies(rules[j], counts[j], r, env)
  {
    FirstMatchFrom(rules, counts, r, env, 0)
  }

  /** The counters of the rules, position by position. */
  ghost function Counts(rules: seq<MockServerRequest>): (counts: seq<nat>)
    reads rules
    ensures |counts| == |rules|
    ensures forall j :: 0 <= j < |rules| ==> counts[j] == rules[j].invokeCount
  {
    seq(|rules|, j requires 0 <= j < |rules| reads rules => rules[j].invokeCount)
  }

  /** No positive `maxMatchCount` is exceeded. */
  predicate WithinBudget(rules: seq<MockServerRequest>, counts: seq<nat>)
    requires |counts| == |rules|
  {
    forall j :: 0 <= j < |rules| && rules[j].maxMatchCount > 0 ==> counts[j] <= rules[j].maxMatchCount
  }

  /** Two positions that hold the same rule object show the same counter. */
  predicate Coherent(rules: seq<MockServerRequest>, counts: seq<nat>)
    requires |counts| == |rules|
  {
    forall j, k :: 0 <= j < |rules| && 0 <= k < |rules| && rules[j] == rules[k] ==> counts[j] == counts[k]
  }

  /** Every rule's patterns compile, so `regexp.MustCompile` never panics. */
  predicate PatternsCompile(rules: seq<MockServerRequest>, regex: Regex)
  {
    forall j :: 0 <= j < |rules| ==> AllCompile(rules[j].headers, regex) && AllCompile(rules[j].queryParameters, regex)
  }

  /** `doHeadersMatch`: every header pattern matches `r.Header.Get(k)`. */
  method DoHeadersMatch(request: MockServerRequest, r: Request, regex: Regex) returns (ok: bool)
    requires AllCompile(request.headers, regex)
    ensures ok <==> (request.headers.None? ||
      forall k :: k in request.headers.value ==> regex.matchString(request.headers.value[k], Lookup(r.header, k)))
  {
    ok := MatchAll(request.headers, r.header, regex);
  }

  /** `doQueryParametersMatch`: every query pattern matches `r.FormValue(k)`. */
  method DoQueryParametersMatch(request: MockServerRequest, r: Request, regex: Regex) returns (ok: bool)
    requires AllCompile(request.queryParameters, regex)
    ensures ok <==> (request.queryParameters.None? ||
      forall k :: k in request.queryParameters.value ==>
        regex.matchString(request.queryParameters.value[k], Lookup(r.form, k)))
  {
    ok := MatchAll(request.queryParameters, r.form, regex);
  }

  /**
   * The writer calls for a selected rule's response: a nil response writes
   * an empty body and nothing else; otherwise every header is added, then
   * the status is set if it is not 0, then `toBytes(Body)` is written once.
   */
  ghost predicate RendersResponse(response: Option<MockServerResponse>, events: seq<Event>, env: Env)
  {
    match response
    case None => events == [Write([])]
    case Some(resp) =>
      var n := HeaderCount(resp.headers);
      && n <= |events|
      && AddsHeaders(events[..n], resp.headers)
      && events[n..] == StatusEvents(resp.statusCode) + [Write(ToBytes(resp.body, env))]
  }

  /** The rendering half of `handleRequest`, once a rule is selected. */
  method WriteResponse(response: Option<MockServerResponse>, env: Env) returns (events: seq<Event>)
    ensures RendersResponse(response, events, env)
  {
    if response.None? {
      events := [Write([])];
      return;
    }
    var resp := response.value;
    var headers := AddHeaders(resp.headers);
    events := headers;
    if resp.statusCode != 0 {
      events := events + [WriteHeader(resp.statusCode)];
    }
    events := events + [Write(ToBytes(resp.body, env))];
    assert events[..|headers|] == headers;
  }

  /**
   * The checks of one rule, in the order `handleRequest` makes them: URI,
   * method and body first, then headers, query parameters and the budget.
   */
  method CheckRule(request: MockServerRequest, r: Request, env: Env) returns (qualifies: bool)
    requires AllCompile(request.headers, env.regex) && AllCompile(request.queryParameters, env.regex)
    ensures qualifies <==> Qualifies(request, request.invokeCount, r, env)
  {
    if request.uri == r.path && request.httpMethod == r.httpMethod &&
       (request.body.None? || (request.body.Some? && ToBytes(request.body, env) == r.body))
    {
      var headersMatch := DoHeadersMatch(request, r, env.regex);
      if !headersMatch {
        return false;
      }
      var parametersMatch := DoQueryParametersMatch(request, r, env.regex);
      if !parametersMatch {
        return false;
      }
      if request.maxMatchCount > 0 && request.invokeCount >= request.maxMatchCount {
        return false;
      }
      return true;
    }
    return false;
  }

  /**
   * The URI of every rule, in order. The legacy engine has the same helper
   * over its own rule type (`MockHttpServer.Uris`), as the source repeats
   * the registration loop in both constructors.
   */
  function Uris(rules: seq<MockServerRequest>): (uris: seq<string>)
    ensures |uris| == |rules| && forall j :: 0 <= j < |rules| ==> uris[j] == rules[j].uri
  {
    seq(|rules|, j requires 0 <= j < |rules| => rules[j].uri)
  }

  /** `MockServer`: the rules as the caller passed them, and the routes bound on the mux. */
  class MockServer {
    const requests: seq<MockServerRequest>
    const routes: seq<string>

    /** `NewMockServer`: keep the caller's rule objects and bind each distinct URI once. */
    constructor (mockedRequests: seq<MockServerRequest>)
      ensures requests == mockedRequests
      ensures routes == Distinct(Uris(mockedRequests))
    {
      var registered := RegisterUris(Uris(mockedRequests));
      requests := mockedRequests;
      routes := registered;
    }

    /** `Requests()`: the very rule objects the server was built from. */
    function Requests(): (rs: seq<MockServerRequest>)
      ensures rs == requests
    {
      requests
    }

    /**
     * `handleRequest`: scan the rules in order; the first that passes every
     * check has its counter incremented (through the shared pointer, so every
     * position holding that object sees it) and its response written. If no
     * rule qualifies the answer is 404 and no counter changes.
     */
    method HandleRequest(r: Request, env: Env) returns (events: seq<Event>)
      requires PatternsCompile(requests, env.regex)
      modifies requests
      ensures var sel := FirstMatch(requests, old(Counts(requests)), r, env);
        && (sel.None? ==>
              events == [WriteHeader(404)] &&
              forall j :: 0 <= j < |requests| ==> requests[j].invokeCount == old(requests[j].invokeCount))
        && (sel.Some? ==>
              RendersResponse(requests[sel.value].response, events, env) &&
              forall j :: 0 <= j < |requests| ==>
                requests[j].invokeCount == old(requests[j].invokeCount) + if requests[j] == requests[sel.value] then 1 else 0)
      ensures WithinBudget(requests, old(Counts(requests))) ==> WithinBudget(requests, Counts(requests))
    {
      ghost var counts := Counts(requests);
      CountsCoherent(requests);
      for i := 0 to |requests|
        invariant forall j :: 0 <= j < i ==> !Qualifies(requests[j], counts[j], r, env)
        invariant forall j :: 0 <= j < |requests| ==> requests[j].invokeCount == counts[j]
      {
        var request := requests[i];
        var qualifies := CheckRule(request, r, env);
        if qualifies {
          assert Qualifies(request, counts[i], r, env);
          FirstMatchIsFirst(requests, counts, r, env, i);
          request.invokeCount := request.invokeCount + 1;
          assert forall j :: 0 <= j < |requests| ==>
            requests[j].invokeCount == counts[j] + if requests[j] == request then 1 else 0;
          if WithinBudget(requests, counts) {
            DispatchKeepsBudget(requests, counts, Counts(requests), i, r, env);
          }
          events := WriteResponse(request.response, env);
          return;
        }
      }
      events := [WriteHeader(404)];
    }
  }

  lemma CountsCoherent(rules: seq<MockServerRequest>)
    ensures Coherent(rules, Counts(rules))
  {
  }

  /** `FirstMatch` picks `i` exactly when rule `i` qualifies and no earlier one does. */
  lemma FirstMatchIsFirst(rules: seq<MockServerRequest>, counts: seq<nat>, r: Request, env: Env, i: nat)
    requires |counts| == |rules|
    ensures FirstMatch(rules, counts, r, env) == Some(i) <==>
      && i < |rules|
      && Qualifies(rules[i], counts[i], r, env)
      && forall j :: 0 <= j < i ==> !Qualifies(rules[j], counts[j], r, env)
  {
  }

  /**
   * A dispatch keeps every positive budget: the selected rule had room for
   * one more, and only the positions holding it are incremented.
   */
  lemma DispatchKeepsBudget(rules: seq<MockServerRequest>, counts: seq<nat>, after: seq<nat>, i: nat, r: Request, env: Env)
    requires |counts| == |rules| && |after| == |rules|
    requires Coherent(rules, counts) && WithinBudget(rules, counts)
    requires FirstMatch(rules, counts, r, env) == Some(i)
    requires forall j :: 0 <= j < |rules| ==> after[j] == counts[j] + if rules[j] == rules[i] then 1 else 0
    ensures WithinBudget(rules, after) && Coherent(rules, after)
  {
  }

  /**
   * Selection never looks past the selected rule: any list that agrees with
   * this one up to and including rule `i` selects `i` too.
   */
  lemma LaterRulesNotConsulted(
    rules: seq<MockServerRequest>, counts: seq<nat>,
    rules': seq<MockServerRequest>, counts': seq<nat>,
    r: Request, env: Env, i: nat)
    requires |counts| == |rules| && |counts'| == |rules'|
    requires FirstMatch(rules, counts, r, env) == Some(i)
    requires i < |rules'| && rules'[..i + 1] == rules[..i + 1] && counts'[..i + 1] == counts[..i + 1]
    ensures FirstMatch(rules', counts', r, env) == Some(i)
  {
    FirstMatchIsFirst(rules, counts, r, env, i);
    forall j | 0 <= j <= i
      ensures rules'[j] == rules[j] && counts'[j] == counts[j]
    {
      assert rules'[j] == rules'[..i + 1][j] && rules[j] == rules[..i + 1][j];
      assert counts'[j] == counts'[..i + 1][j] && counts[j] == counts[..i + 1][j];
    }
    FirstMatchIsFirst(rules', counts', r, env, i);
  }

  /** A request whose path no rule has is answered 404. */
  lemma UnknownPathNotFound(rules: seq<MockServerRequest>, counts: seq<nat>, r: Request, env: Env)
    requires |counts| == |rules|
    requires forall j :: 0 <= j < |rules| ==> rules[j].uri != r.path
    ensures FirstMatch(rules, counts, r, env) == None
  {
  }

  /**
   * A rule with no body, header or query constraints and no limit takes every
   * request to its URI and method, whatever the body, headers or query.
   */
  lemma UnconstrainedRuleTakesAll(rule: MockServerRequest, count: nat, r: Request, env: Env)
    requires rule.body.None? && rule.headers.None? && rule.queryParameters.None? && rule.maxMatchCount == 0
    ensures Qualifies(rule, count, r, env) <==> rule.uri == r.path && rule.httpMethod == r.httpMethod
  {
  }

  /**
   * A set rule body passes the body check exactly for requests whose body is
   * its bytes, so a qualifying request carries those bytes; for a text body,
   * bytes from which the decoder gives back that text.
   */
  lemma SetBodyMatchesItsBytes(rule: MockServerRequest, count: nat, r: Request, env: Env)
    requires rule.body.Some?
    ensures BodyMatches(rule.body, r.body, env) <==> r.body == ToBytes(rule.body, env)
    ensures Qualifies(rule, count, r, env) ==> r.body == ToBytes(rule.body, env)
    ensures Qualifies(rule, count, r, env) && rule.body.value.Text? ==>
      Utf8.Decode(r.body) == Some(rule.body.value.text)
  {
    if rule.body.value.Text? {
      ToBytesText(rule.body.value.text, env);
    }
  }

  /** A rule whose positive limit is reached is skipped; a limit of 0 or less never blocks. */
  lemma BudgetGatesRule(rule: MockServerRequest, count: nat, count': nat, r: Request, env: Env)
    ensures rule.maxMatchCount > 0 && count >= rule.maxMatchCount ==> !Qualifies(rule, count, r, env)
    ensures rule.maxMatchCount <= 0 ==> (Qualifies(rule, count, r, env) <==> Qualifies(rule, count', r, env))
  {
  }

  /**
   * What a client receives from a rendered response (for a request other than
   * HEAD): the final status of the configured code (200 when it is 0 or
   * informational, or the response is nil), and the body `toBytes(Body)`
   * when that status allows a body; nothing for a nil response.
   */
  lemma ObservedResponse(response: Option<MockServerResponse>, events: seq<Event>, env: Env)
    requires RendersResponse(response, events, env)
    ensures ObservedStatus(events) == if response.Some? then FinalStatus(response.value.statusCode) else 200
    ensures ObservedBody(events) ==
      if response.None? || !BodyAllowed(FinalStatus(response.value.statusCode)) then []
      else ToBytes(response.value.body, env)
  {
    if response.Some? {
      var resp := response.value;
      var n := HeaderCount(resp.headers);
      AddsHeadersOnlyAddsHeaders(events[..n], resp.headers);
      assert events == events[..n] + events[n..];
      HeadersAreTransparent(events[..n], events[n..], None);
      StatusThenWrite(resp.statusCode, ToBytes(resp.body, env));
    } else {
      assert SentBody(events, None) == [] + SentBody([], Some(200));
    }
  }

  /**
   * Codes net/http treats specially: 204 and 304 are sent but carry no body,
   * and an informational code is sent ahead of a final 200 that carries the
   * body.
   */
  lemma SpecialStatusCodes(resp: MockServerResponse, events: seq<Event>, env: Env)
    requires RendersResponse(Some(resp), events, env)
    ensures resp.statusCode == 204 || resp.statusCode == 304 ==>
      ObservedStatus(events) == resp.statusCode && ObservedBody(events) == []
    ensures Informational(resp.statusCode) ==>
      ObservedStatus(events) == 200 && ObservedBody(events) == ToBytes(resp.body, env)
  {
    ObservedResponse(Some(resp), events, env);
  }

  /** `json.Marshal(nil)`: the four bytes of `null`. */
  const NullJson: Bytes := [0x6E, 0x75, 0x6C, 0x6C]

  /**
   * A nil response writes an empty body, but a configured response with no
   * body writes the JSON encoding of nil: the two are not the same.
   */
  lemma NilResponseIsNotZeroResponse(nilEvents: seq<Event>, zeroEvents: seq<Event>, env: Env)
    requires env.marshal(None) == NullJson
    requires RendersResponse(None, nilEvents, env)
    requires RendersResponse(Some(ZeroResponse), zeroEvents, env)
    ensures ObservedBody(nilEvents) == [] && ObservedBody(zeroEvents) == NullJson
    ensures ObservedStatus(nilEvents) == ObservedStatus(zeroEvents) == 200
  {
    ObservedResponse(None, nilEvents, env);
    ObservedResponse(Some(ZeroResponse), zeroEvents, env);
  }
}
