/**
 * The two engines side by side. A current rule with no query check and no
 * limit says what a legacy rule says; the engines then differ only in what
 * an unset body accepts and in the order of the status and header calls.
 */
module Variants {
  import opened Wrappers
  import opened Http
  import opened Rendering
  import Current = MockServer
  import Legacy = MockHttpServer
  import opened MockServerRequests
  import opened MockHttpServerRequests

  /** Two responses with the same fields. */
  predicate SameResponse(cur: Option<MockServerResponse>, leg: Option<MockHttpServerResponse>)
  {
    match (cur, leg)
    case (None, None) => true
    case (Some(c), Some(l)) => c.statusCode == l.statusCode && c.body == l.body && c.headers == l.headers
    case _ => false
  }

  /** A current rule with the fields of a legacy rule, no query check and no limit. */
  predicate Corresponds(cur: MockServerRequest, leg: MockHttpServerRequest)
  {
    && cur.uri == leg.uri
    && cur.httpMethod == leg.httpMethod
    && cur.body == leg.body
    && cur.headers == leg.headers
    && cur.queryParameters.None?
    && cur.maxMatchCount == 0
    && SameResponse(cur.response, leg.response)
  }

  predicate AllCorrespond(curs: seq<MockServerRequest>, legs: seq<MockHttpServerRequest>)
  {
    |curs| == |legs| && forall j :: 0 <= j < |curs| ==> Corresponds(curs[j], legs[j])
  }

  /**
   * Every legacy candidate is a current candidate, and the current engine
   * takes more only through an unset body and a non-empty request body.
   */
  lemma LegacyCandidateIsCurrentCandidate(cur: MockServerRequest, leg: MockHttpServerRequest, count: nat, r: Request, env: Env)
    requires Corresponds(cur, leg)
    ensures Legacy.Qualifies(leg, r, env) ==> Current.Qualifies(cur, count, r, env)
    ensures Current.Qualifies(cur, count, r, env) && !Legacy.Qualifies(leg, r, env) ==> cur.body.None? && r.body != []
  {
  }

  /** On corresponding rule lists the current engine selects the legacy engine's rule or an earlier one. */
  lemma CurrentSelectsSameOrEarlier(curs: seq<MockServerRequest>, legs: seq<MockHttpServerRequest>, counts: seq<nat>, r: Request, env: Env)
    requires AllCorrespond(curs, legs) && |counts| == |curs|
    requires Legacy.FirstMatch(legs, r, env).Some?
    ensures Current.FirstMatch(curs, counts, r, env).Some?
    ensures Current.FirstMatch(curs, counts, r, env).value <= Legacy.FirstMatch(legs, r, env).value
  {
    var i := Legacy.FirstMatch(legs, r, env).value;
    LegacyCandidateIsCurrentCandidate(curs[i], legs[i], counts[i], r, env);
  }

  /** With an empty request body the two engines select the same rule. */
  lemma EnginesAgreeOnEmptyBody(curs: seq<MockServerRequest>, legs: seq<MockHttpServerRequest>, counts: seq<nat>, r: Request, env: Env)
    requires AllCorrespond(curs, legs) && |counts| == |curs|
    requires r.body == []
    ensures Current.FirstMatch(curs, counts, r, env) == Legacy.FirstMatch(legs, r, env)
  {
    forall j | 0 <= j < |curs|
      ensures Current.Qualifies(curs[j], counts[j], r, env) == Legacy.Qualifies(legs[j], r, env)
    {
      LegacyCandidateIsCurrentCandidate(curs[j], legs[j], counts[j], r, env);
    }
    match Legacy.FirstMatch(legs, r, env)
    case Some(i) =>
      Current.FirstMatchIsFirst(curs, counts, r, env, i);
    case None =>
  }

  /** Rendering the same response, the engines give a client the same status and body. */
  lemma SameObservedResponse(
    cur: Option<MockServerResponse>, leg: Option<MockHttpServerResponse>,
    curEvents: seq<Event>, legEvents: seq<Event>, env: Env)
    requires SameResponse(cur, leg)
    requires Current.RendersResponse(cur, curEvents, env) && Legacy.RendersResponse(leg, legEvents, env)
    ensures ObservedStatus(curEvents) == ObservedStatus(legEvents)
    ensures ObservedBody(curEvents) == ObservedBody(legEvents)
  {
    Current.ObservedResponse(cur, curEvents, env);
    Legacy.ObservedResponse(leg, legEvents, env);
  }

  /**
   * Rendering the same response, the engines make the same calls; but when
   * there is both an explicit status and a header, in another order.
   */
  lemma SameCallsInAnotherOrder(
    cur: Option<MockServerResponse>, leg: Option<MockHttpServerResponse>,
    curEvents: seq<Event>, legEvents: seq<Event>, env: Env)
    requires SameResponse(cur, leg)
    requires Current.RendersResponse(cur, curEvents, env) && Legacy.RendersResponse(leg, legEvents, env)
    ensures multiset(curEvents) == multiset(legEvents)
    ensures cur.Some? && cur.value.statusCode != 0 && HeaderCount(cur.value.headers) > 0 ==> curEvents != legEvents
  {
    if cur.Some? {
      var resp := cur.value;
      assert leg.value.statusCode == resp.statusCode && leg.value.headers == resp.headers;
      assert leg.value.body == resp.body;
      var s := StatusEvents(resp.statusCode);
      var n := HeaderCount(resp.headers);
      var w := [Write(ToBytes(resp.body, env))];
      var curHeaders, legHeaders := curEvents[..n], legEvents[|s|..|s| + n];
      assert curEvents == curHeaders + (s + w);
      assert legEvents == s + legHeaders + w;
      SwappedParts(curHeaders, legHeaders, s, w);
      if resp.statusCode != 0 && n > 0 {
        AddsHeadersOnlyAddsHeaders(curHeaders, resp.headers);
        assert curEvents[0] == curHeaders[0];
      }
    }
  }

  lemma SwappedParts(a: seq<Event>, b: seq<Event>, s: seq<Event>, w: seq<Event>)
    requires multiset(a) == multiset(b)
    ensures multiset(a + (s + w)) == multiset(s + b + w)
  {
    calc {
      multiset(a + (s + w));
      multiset(a) + multiset(s) + multiset(w);
      multiset(s) + multiset(b) + multiset(w);
      multiset(s + b + w);
    }
  }
}
