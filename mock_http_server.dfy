/**
 * The legacy engine, `MockHttpServer`: the same first-fit scan as the
 * current engine, except that an unset rule body matches only an empty
 * request body, there are no query-parameter checks and no counters, and a
 * response sets its status before it adds its headers.
 */
module MockHttpServer {
  import opened Wrappers
  import opened Http
  import opened Patterns
  import opened Routes
  import opened Rendering
  import opened MockHttpServerRequests

  /** An unset rule body matches only an empty request body; a set one only its own bytes. */
  predicate BodyMatches(expected: Option<Body>, data: Bytes, env: Env)
  {
    (expected.None? && |data| == 0) || (expected.Some? && ToBytes(expected, env) == data)
  }

  /** Every check `handleRequest` makes of a rule. */
  predicate Qualifies(rule: MockHttpServerRequest, r: Request, env: Env)
  {
    && rule.uri == r.path
    && rule.httpMethod == r.httpMethod
    && BodyMatches(rule.body, r.body, env)
    && AllMatch(rule.headers, r.header, env.regex)
  }

  /** The first qualifying rule at or after index `from`. */
  function FirstMatchFrom(rules: seq<MockHttpServerRequest>, r: Request, env: Env, from: nat): (sel: Option<nat>)
    requires from <= |rules|
    ensures sel.Some? ==>
      && from <= sel.value < |rules|
      && Qualifies(rules[sel.value], r, env)
      && forall j :: from <= j < sel.value ==> !Qualifies(rules[j], r, env)
    ensures sel.None? ==> forall j :: from <= j < |rules| ==> !Qualifies(rules[j], r, env)
    decreases |rules| - from
  {
    if from == |rules| then None
    else if Qualifies(rules[from], r, env) then Some(from)
    else FirstMatchFrom(rules, r, env, from + 1)
  }

  /** The rule a request selects: the first that qualifies, if any. */
  function FirstMatch(rules: seq<MockHttpServerRequest>, r: Request, env: Env): (sel: Option<nat>)
    ensures sel.Some? ==>
      && sel.value < |rules|
      && Qualifies(rules[sel.value], r, env)
      && forall j :: 0 <= j < sel.value ==> !Qualifies(rules[j], r, env)
    ensures sel.None? ==> forall j :: 0 <= j < |rules| ==> !Qualifies(rules[j], r, env)
  {
    FirstMatchFrom(rules, r, env, 0)
  }

  /** Every rule's header patterns compile, so `regexp.MustCompile` never panics. */
  predicate PatternsCompile(rules: seq<MockHttpServerRequest>, regex: Regex)
  {
    forall j :: 0 <= j < |rules| ==> AllCompile(rules[j].headers, regex)
  }

  /** `doHeadersMatch`: every header pattern matches `r.Header.Get(k)`. */
  method DoHeadersMatch(request: MockHttpServerRequest, r: Request, regex: Regex) returns (ok: bool)
    requires AllCompile(request.headers, regex)
    ensures ok <==> (request.headers.None? ||
      forall k :: k in request.headers.value ==> regex.matchString(request.headers.value[k], Lookup(r.header, k)))
  {
    ok := MatchAll(request.headers, r.header, regex);
  }

  /** The checks of one rule: URI, method and body, then headers. */
  method CheckRule(request: MockHttpServerRequest, r: Request, env: Env) returns (qualifies: bool)
    requires AllCompile(request.headers, env.regex)
    ensures qualifies <==> Qualifies(request, r, env)
  {
    if request.uri == r.path && request.httpMethod == r.httpMethod &&
       ((request.body.None? && |r.body| == 0) || (request.body.Some? && ToBytes(request.body, env) == r.body))
    {
      qualifies := DoHeadersMatch(request, r, env.regex);
    } else {
      qualifies := false;
    }
  }

  /**
   * The writer calls for a selected rule's response: a nil response writes
   * an empty body and nothing else; otherwise the status is set if it is not
   * 0, then every header is added, then `toBytes(Body)` is written once.
   */
  ghost predicate RendersResponse(response: Option<MockHttpServerResponse>, events: seq<Event>, env: Env)
  {
    match response
    case None => events == [Write([])]
    case Some(resp) =>
      var s := StatusEvents(resp.statusCode);
      var n := HeaderCount(resp.headers);
      && |events| == |s| + n + 1
      && events[..|s|] == s
      && AddsHeaders(events[|s|..|s| + n], resp.headers)
      && events[|s| + n] == Write(ToBytes(resp.body, env))
  }

  /** The rendering half of `handleRequest`, once a rule is selected. */
  method WriteResponse(response: Option<MockHttpServerResponse>, env: Env) returns (events: seq<Event>)
    ensures RendersResponse(response, events, env)
  {
    if response.None? {
      events := [Write([])];
      return;
    }
    var resp := response.value;
    events := [];
    if resp.statusCode != 0 {
      events := events + [WriteHeader(resp.statusCode)];
    }
    var status := events;
    var headers := AddHeaders(resp.headers);
    events := events + headers;
    events := events + [Write(ToBytes(resp.body, env))];
    assert events[..|status|] == status;
    assert events[|status|..|status| + |headers|] == headers;
  }

  /** The URI of every rule, in order. */
  function Uris(rules: seq<MockHttpServerRequest>): (uris: seq<string>)
    ensures |uris| == |rules| && forall j :: 0 <= j < |rules| ==> uris[j] == rules[j].uri
  {
    seq(|rules|, j requires 0 <= j < |rules| => rules[j].uri)
  }

  /** `MockHttpServer`: the rules and the routes bound on the mux. Nothing in it changes. */
  class MockHttpServer {
    const requests: seq<MockHttpServerRequest>
    const routes: seq<string>

    /** `NewMockHttpServer`: keep the rules and bind each distinct URI once. */
    constructor (mockedRequests: seq<MockHttpServerRequest>)
      ensures requests == mockedRequests
      ensures routes == Distinct(Uris(mockedRequests))
    {
      var registered := RegisterUris(Uris(mockedRequests));
      requests := mockedRequests;
      routes := registered;
    }

    /**
     * `handleRequest`: scan the rules in order and write the response of the
     * first that passes every check, or 404. No state changes.
     */
    method HandleRequest(r: Request, env: Env) returns (events: seq<Event>)
      requires PatternsCompile(requests, env.regex)
      ensures var sel := FirstMatch(requests, r, env);
        && (sel.None? ==> events == [WriteHeader(404)])
        && (sel.Some? ==> RendersResponse(requests[sel.value].response, events, env))
    {
      for i := 0 to |requests|
        invariant forall j :: 0 <= j < i ==> !Qualifies(requests[j], r, env)
      {
        var request := requests[i];
        var qualifies := CheckRule(request, r, env);
        if qualifies {
          FirstMatchIsFirst(requests, r, env, i);
          events := WriteResponse(request.response, env);
          return;
        }
      }
      events := [WriteHeader(404)];
    }
  }

  /** `FirstMatch` picks `i` exactly when rule `i` qualifies and no earlier one does. */
  lemma FirstMatchIsFirst(rules: seq<MockHttpServerRequest>, r: Request, env: Env, i: nat)
    ensures FirstMatch(rules, r, env) == Some(i) <==>
      && i < |rules|
      && Qualifies(rules[i], r, env)
      && forall j :: 0 <= j < i ==> !Qualifies(rules[j], r, env)
  {
  }

  /** An unset rule body takes a request only if the request has no body. */
  lemma UnsetBodyNeedsEmptyRequest(rule: MockHttpServerRequest, r: Request, env: Env)
    requires rule.body.None?
    ensures Qualifies(rule, r, env) ==> r.body == []
  {
  }

  /** A request whose path no rule has is answered 404. */
  lemma UnknownPathNotFound(rules: seq<MockHttpServerRequest>, r: Request, env: Env)
    requires forall j :: 0 <= j < |rules| ==> rules[j].uri != r.path
    ensures FirstMatch(rules, r, env) == None
  {
  }

  /**
   * What a client receives from a rendered response (for a request other than
   * HEAD): the final status of the configured code (200 when it is 0 or
   * informational, or the response is nil), and the body `toBytes(Body)`
   * when that status allows a body; nothing for a nil response. Headers
   * added after the status change neither.
   */
  lemma ObservedResponse(response: Option<MockHttpServerResponse>, events: seq<Event>, env: Env)
    requires RendersResponse(response, events, env)
    ensures ObservedStatus(events) == if response.Some? then FinalStatus(response.value.statusCode) else 200
    ensures ObservedBody(events) ==
      if response.None? || !BodyAllowed(FinalStatus(response.value.statusCode)) then []
      else ToBytes(response.value.body, env)
  {
    if response.Some? {
      var resp := response.value;
      var s := StatusEvents(resp.statusCode);
      var n := HeaderCount(resp.headers);
      var hs := events[|s|..|s| + n];
      var w := [Write(ToBytes(resp.body, env))];
      AddsHeadersOnlyAddsHeaders(hs, resp.headers);
      assert events == s + (hs + w);
      StatusThenWrite(resp.statusCode, ToBytes(resp.body, env));
      if resp.statusCode != 0 {
        var code := resp.statusCode;
        var st: Option<int> := if Informational(code) then None else Some(code);
        assert events[0] == WriteHeader(code) && events[1..] == hs + w;
        assert (s + w)[0] == WriteHeader(code) && (s + w)[1..] == w;
        HeadersAreTransparent(hs, w, st);
      } else {
        assert s + (hs + w) == hs + w && s + w == w;
        HeadersAreTransparent(hs, w, None);
      }
    } else {
      assert SentBody(events, None) == [] + SentBody([], Some(200));
    }
  }
}
