/**
 * The repository's tests, replayed against the model: each method builds the
 * rules a test builds, sends the same requests and states what the test
 * asserts (the status a client sees, the counters afterwards).
 */
module Scenarios {
  import opened Wrappers
  import opened Http
  import opened Rendering
  import opened MockServerRequests
  import opened MockHttpServerRequests
  import opened Variants
  import Current = MockServer
  import Legacy = MockHttpServer
  import Utf8

  /** `[]byte("hello world")`. */
  const HelloWorld: Bytes := [0x68, 0x65, 0x6C, 0x6C, 0x6F, 0x20, 0x77, 0x6F, 0x72, 0x6C, 0x64]

  lemma HelloWorldIsItsText(text: string)
    requires text == "hello world"
    ensures Utf8.Encode(text) == HelloWorld
  {
    assert forall i :: 0 <= i < |text| ==> text[i] as int == HelloWorld[i] as int < 0x80;
    Utf8.EncodeAscii(text);
    assert forall i :: 0 <= i < |HelloWorld| ==> HelloWorld[i] == Utf8.Encode(text)[i];
  }

  /** `[]byte("abcd")`. */
  const Abcd: Bytes := [0x61, 0x62, 0x63, 0x64]

  /**
   * The `toBytes` table test: `[]byte("abcd")` comes back unchanged, the
   * string "abcd" converts to the same bytes, and a struct is what the JSON
   * encoder makes of it.
   */
  lemma ToBytesScenario(text: string, data: Data, json: Bytes, env: Env)
    requires text == "abcd"
    requires env.marshal(Some(data)) == json
    ensures ToBytes(Some(Raw(Abcd)), env) == Abcd
    ensures ToBytes(Some(Text(text)), env) == Abcd
    ensures ToBytes(Some(Structured(data)), env) == json
  {
    assert forall i :: 0 <= i < |text| ==> text[i] as int == Abcd[i] as int < 0x80;
    Utf8.EncodeAscii(text);
    assert forall i :: 0 <= i < |Abcd| ==> Abcd[i] == Utf8.Encode(text)[i];
  }

  function Get(path: string): Request
  {
    Request(path, "GET", [], map[], map[])
  }

  /** The status a client sees for a selected rule's response. */
  function StatusOf(response: Option<MockServerResponse>): int
  {
    if response.Some? then FinalStatus(response.value.statusCode) else 200
  }

  /**
   * One request that rule `i` answers: rule `i` qualifies, no earlier one
   * does, and no other position holds the same object. The client sees the
   * status of rule `i`'s response and only rule `i`'s counter moves.
   */
  method Send(server: Current.MockServer, r: Request, env: Env, ghost i: nat) returns (status: int)
    requires Current.PatternsCompile(server.requests, env.regex)
    requires i < |server.requests|
    requires Current.Qualifies(server.requests[i], server.requests[i].invokeCount, r, env)
    requires forall j :: 0 <= j < i ==> !Current.Qualifies(server.requests[j], server.requests[j].invokeCount, r, env)
    requires forall j :: 0 <= j < |server.requests| && j != i ==> server.requests[j] != server.requests[i]
    modifies server.requests
    ensures status == StatusOf(server.requests[i].response)
    ensures forall j :: 0 <= j < |server.requests| ==>
      server.requests[j].invokeCount == old(server.requests[j].invokeCount) + if j == i then 1 else 0
  {
    var rules := server.Requests();
    Current.FirstMatchIsFirst(rules, Current.Counts(rules), r, env, i);
    var events := server.HandleRequest(r, env);
    Current.ObservedResponse(rules[i].response, events, env);
    status := ObservedStatus(events);
  }

  /** One request that no rule answers: 404, and no counter moves. */
  method SendUnmatched(server: Current.MockServer, r: Request, env: Env) returns (status: int)
    requires Current.PatternsCompile(server.requests, env.regex)
    requires forall j :: 0 <= j < |server.requests| ==>
      !Current.Qualifies(server.requests[j], server.requests[j].invokeCount, r, env)
    modifies server.requests
    ensures status == 404
    ensures forall j :: 0 <= j < |server.requests| ==>
      server.requests[j].invokeCount == old(server.requests[j].invokeCount)
  {
    var rules := server.Requests();
    assert Current.FirstMatch(rules, Current.Counts(rules), r, env) == None;
    var events := server.HandleRequest(r, env);
    status := ObservedStatus(events);
  }

  /** An unconstrained GET rule with no response: a GET is answered 200 and counted once. */
  method BasicCallScenario(env: Env) returns (status: int, count: nat)
    ensures status == 200 && count == 1
  {
    var rule := new MockServerRequest("/foo", "GET", None, None, None, None, 0);
    var server := new Current.MockServer([rule]);
    status := Send(server, Get("/foo"), env, 0);
    count := server.Requests()[0].InvokeCount();
  }

  /** A PUT rule with no body constraint takes a PUT carrying "hello world". */
  method PutWithAnyBodyScenario(env: Env) returns (status: int, count: nat)
    ensures status == 200 && count == 1
  {
    var rule := new MockServerRequest("/foo", "PUT", None, None, None, None, 0);
    var server := new Current.MockServer([rule]);
    status := Send(server, Request("/foo", "PUT", HelloWorld, map[], map[]), env, 0);
    count := server.Requests()[0].InvokeCount();
  }

  /** A rule for `/foo` does not answer `/bar`: 404, and the rule is not counted. */
  method NotFoundUriScenario(env: Env) returns (status: int, count: nat)
    ensures status == 404 && count == 0
  {
    var rule := new MockServerRequest("/foo", "GET", None, None, None, None, 0);
    var server := new Current.MockServer([rule]);
    status := SendUnmatched(server, Get("/bar"), env);
    count := server.Requests()[0].InvokeCount();
  }

  /** A rule whose body is `[]byte("hello world")` takes a GET carrying those bytes. */
  method RequestBodyMatchingScenario(env: Env) returns (status: int)
    ensures status == 201
  {
    var rule := new MockServerRequest("/foo", "GET", Some(Raw(HelloWorld)), None, None,
                                      Some(MockServerResponse(201, None, None)), 0);
    var server := new Current.MockServer([rule]);
    status := Send(server, Request("/foo", "GET", HelloWorld, map[], map[]), env, 0);
  }

  /**
   * A rule limited to one match, followed by an unlimited one for the same
   * route: three GETs are answered 500, 200, 200, and the counters end at
   * 1 and 2.
   */
  method MaximumMatchScenario(env: Env) returns (statuses: seq<int>, counts: seq<nat>)
    ensures statuses == [500, 200, 200] && counts == [1, 2]
  {
    var limited := new MockServerRequest("/foo", "GET", None, None, None, Some(MockServerResponse(500, None, None)), 1);
    var fallback := new MockServerRequest("/foo", "GET", None, None, None, Some(MockServerResponse(200, None, None)), 0);
    var server := new Current.MockServer([limited, fallback]);
    var get := Get("/foo");

    var s1 := Send(server, get, env, 0);
    assert limited.invokeCount == 1 && fallback.invokeCount == 0;
    var s2 := Send(server, get, env, 1);
    assert limited.invokeCount == 1 && fallback.invokeCount == 1;
    var s3 := Send(server, get, env, 1);

    statuses := [s1, s2, s3];
    counts := [limited.InvokeCount(), fallback.InvokeCount()];
  }

  /**
   * A header pattern `basic .*` on Authorization: without the header the
   * request is answered 404 (the pattern is tried on ""), with a matching
   * value 200.
   */
  method HeaderMatchScenario(env: Env) returns (statuses: seq<int>)
    requires env.regex.compiles("basic .*")
    requires !env.regex.matchString("basic .*", "")
    requires env.regex.matchString("basic .*", "basic adfljkasdlfj")
    ensures statuses == [404, 200]
  {
    var rule := new MockServerRequest("/foo", "GET", None, Some(map["Authorization" := "basic .*"]), None,
                                      Some(MockServerResponse(200, None, None)), 0);
    var server := new Current.MockServer([rule]);
    var bare := Get("/foo");
    var authorized := Request("/foo", "GET", [], map["Authorization" := "basic adfljkasdlfj"], map[]);

    assert Lookup(bare.header, "Authorization") == "";
    var s1 := SendUnmatched(server, bare, env);
    var s2 := Send(server, authorized, env, 0);
    statuses := [s1, s2];
  }

  /** A query pattern `1` on page: `GET /foo` gets 404, `GET /foo?page=1` gets 200. */
  method QueryParametersScenario(env: Env) returns (statuses: seq<int>)
    requires env.regex.compiles("1")
    requires !env.regex.matchString("1", "")
    requires env.regex.matchString("1", "1")
    ensures statuses == [404, 200]
  {
    var rule := new MockServerRequest("/foo", "GET", None, None, Some(map["page" := "1"]),
                                      Some(MockServerResponse(200, None, None)), 0);
    var server := new Current.MockServer([rule]);
    var bare := Get("/foo");
    var paged := Request("/foo", "GET", [], map[], map["page" := "1"]);

    assert Lookup(bare.form, "page") == "";
    var s1 := SendUnmatched(server, bare, env);
    var s2 := Send(server, paged, env, 0);
    statuses := [s1, s2];
  }

  /** A response header map {foo: bar} is added once, and the status stays 200. */
  method ResponseHeadersScenario(env: Env) returns (status: int, added: multiset<Event>)
    ensures status == 200 && added == multiset{AddHeader("foo", "bar")}
  {
    var rule := new MockServerRequest("/foo", "GET", None, None, None,
                                      Some(MockServerResponse(0, None, Some(map["foo" := "bar"]))), 0);
    var server := new Current.MockServer([rule]);
    var rules := server.Requests();

    Current.FirstMatchIsFirst(rules, [0], Get("/foo"), env, 0);
    var events := server.HandleRequest(Get("/foo"), env);
    Current.ObservedResponse(rule.response, events, env);
    assert HeaderEntries(Some(map["foo" := "bar"])) == {AddHeader("foo", "bar")};

    status := ObservedStatus(events);
    added := multiset(events[..1]);
  }

  /** The legacy basic call: an unconstrained GET rule with no response answers a GET with 200. */
  method LegacyBasicCallScenario(env: Env) returns (status: int)
    ensures status == 200
  {
    var server := new Legacy.MockHttpServer([MockHttpServerRequest("/foo", "GET", None, None, None)]);
    Legacy.FirstMatchIsFirst(server.requests, Get("/foo"), env, 0);
    var events := server.HandleRequest(Get("/foo"), env);
    Legacy.ObservedResponse(None, events, env);
    status := ObservedStatus(events);
  }

  /** The legacy engine answers a request to another path with 404. */
  method LegacyNotFoundUriScenario(env: Env) returns (status: int)
    ensures status == 404
  {
    var server := new Legacy.MockHttpServer([MockHttpServerRequest("/foo", "GET", None, None, None)]);
    Legacy.UnknownPathNotFound(server.requests, Get("/bar"), env);
    var events := server.HandleRequest(Get("/bar"), env);
    status := ObservedStatus(events);
  }

  /**
   * The legacy header match: `basic .*` on Authorization gives 404 without
   * the header and 200 with a matching value.
   */
  method LegacyHeaderMatchScenario(env: Env) returns (statuses: seq<int>)
    requires env.regex.compiles("basic .*")
    requires !env.regex.matchString("basic .*", "")
    requires env.regex.matchString("basic .*", "basic adfljkasdlfj")
    ensures statuses == [404, 200]
  {
    var rule := MockHttpServerRequest("/foo", "GET", None, Some(map["Authorization" := "basic .*"]),
                                      Some(MockHttpServerResponse(200, None, None)));
    var server := new Legacy.MockHttpServer([rule]);
    var bare := Get("/foo");
    var authorized := Request("/foo", "GET", [], map["Authorization" := "basic adfljkasdlfj"], map[]);

    assert Lookup(bare.header, "Authorization") == "";
    assert !Legacy.Qualifies(rule, bare, env);
    var e1 := server.HandleRequest(bare, env);

    Legacy.FirstMatchIsFirst(server.requests, authorized, env, 0);
    var e2 := server.HandleRequest(authorized, env);
    Legacy.ObservedResponse(rule.response, e2, env);

    statuses := [ObservedStatus(e1), ObservedStatus(e2)];
  }

  /**
   * The legacy response headers: a response with no status and the header
   * map {foo: bar} adds that header once, before the body fixes status 200.
   */
  method LegacyResponseHeadersScenario(env: Env) returns (status: int, added: multiset<Event>)
    ensures status == 200 && added == multiset{AddHeader("foo", "bar")}
  {
    var rule := MockHttpServerRequest("/foo", "GET", None, None,
                                      Some(MockHttpServerResponse(0, None, Some(map["foo" := "bar"]))));
    var server := new Legacy.MockHttpServer([rule]);

    Legacy.FirstMatchIsFirst(server.requests, Get("/foo"), env, 0);
    var events := server.HandleRequest(Get("/foo"), env);
    Legacy.ObservedResponse(rule.response, events, env);
    assert HeaderEntries(Some(map["foo" := "bar"])) == {AddHeader("foo", "bar")};

    status := ObservedStatus(events);
    added := multiset(events[..1]);
  }

  /**
   * The legacy body-matching test: [no body, 500; body "hello world", 201],
   * and a GET carrying "hello world", is answered 201.
   */
  method LegacyBodyMatchingScenario(env: Env) returns (status: int)
    ensures status == 201
  {
    var server := new Legacy.MockHttpServer([
      MockHttpServerRequest("/foo", "GET", None, None, Some(MockHttpServerResponse(500, None, None))),
      MockHttpServerRequest("/foo", "GET", Some(Raw(HelloWorld)), None, Some(MockHttpServerResponse(201, None, None)))
    ]);
    var r := Request("/foo", "GET", HelloWorld, map[], map[]);

    Legacy.FirstMatchIsFirst(server.requests, r, env, 1);
    var events := server.HandleRequest(r, env);
    Legacy.ObservedResponse(server.requests[1].response, events, env);

    status := ObservedStatus(events);
  }

  /**
   * The same rules given to both engines: the legacy engine skips the first
   * rule and selects the second; the current engine, whose unset body
   * matches any body, selects the first.
   */
  lemma BodyMatchingScenario(
    curFirst: MockServerRequest, curSecond: MockServerRequest,
    legFirst: MockHttpServerRequest, legSecond: MockHttpServerRequest,
    counts: seq<nat>, r: Request, env: Env)
    requires legFirst == MockHttpServerRequest("/foo", "GET", None, None, Some(MockHttpServerResponse(500, None, None)))
    requires legSecond == MockHttpServerRequest("/foo", "GET", Some(Raw(HelloWorld)), None, Some(MockHttpServerResponse(201, None, None)))
    requires Corresponds(curFirst, legFirst) && Corresponds(curSecond, legSecond)
    requires r == Request("/foo", "GET", HelloWorld, map[], map[]) && |counts| == 2
    ensures Legacy.FirstMatch([legFirst, legSecond], r, env) == Some(1)
    ensures Current.FirstMatch([curFirst, curSecond], counts, r, env) == Some(0)
  {
    Legacy.FirstMatchIsFirst([legFirst, legSecond], r, env, 1);
    Current.FirstMatchIsFirst([curFirst, curSecond], counts, r, env, 0);
  }
}
