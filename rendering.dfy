/**
 * The pieces of response rendering both engines share: adding the response
 * headers, the optional explicit status, and what a client observes of a
 * log of writer calls.
 */
module Rendering {
  import opened Wrappers
  import opened Http

  /** The `AddHeader` calls for a response header map, one per key. */
  function HeaderEntries(headers: Option<map<string, string>>): set<Event>
  {
    if headers.None? then {} else
    var m := headers.value;
    set k | k in m :: AddHeader(k, m[k])
  }

  /** How many headers a response adds. */
  function HeaderCount(headers: Option<map<string, string>>): nat
  {
    if headers.None? then 0 else |headers.value|
  }

  /**
   * `events` adds every header of the map exactly once and does nothing
   * else, in no particular order: Go's map iteration order is unspecified.
   */
  ghost predicate AddsHeaders(events: seq<Event>, headers: Option<map<string, string>>)
  {
    multiset(events) == multiset(HeaderEntries(headers))
  }

  /** The status call of a response: `WriteHeader(code)` only when `code != 0`. */
  function StatusEvents(code: int): seq<Event>
  {
    if code != 0 then [WriteHeader(code)] else []
  }

  lemma HeaderEntriesStep(m: map<string, string>, done: set<string>, k: string)
    requires k in m && k !in done
    ensures (set j | j in m && j in done + {k} :: AddHeader(j, m[j]))
         == (set j | j in m && j in done :: AddHeader(j, m[j])) + {AddHeader(k, m[k])}
    ensures AddHeader(k, m[k]) !in (set j | j in m && j in done :: AddHeader(j, m[j]))
  {
  }

  /** The loop `for k, v := range Response.Headers { w.Header().Add(k, v) }`, guarded by a nil check. */
  method AddHeaders(headers: Option<map<string, string>>) returns (events: seq<Event>)
    ensures |events| == HeaderCount(headers)
    ensures AddsHeaders(events, headers)
  {
    events := [];
    if headers.Some? {
      var m := headers.value;
      var remaining := m.Keys;
      ghost var done: set<string> := {};
      while remaining != {}
        invariant remaining <= m.Keys && done == m.Keys - remaining
        invariant |events| + |remaining| == |m|
        invariant multiset(events) == multiset(set j | j in m && j in done :: AddHeader(j, m[j]))
        decreases remaining
      {
        var k :| k in remaining;
        HeaderEntriesStep(m, done, k);
        events := events + [AddHeader(k, m[k])];
        remaining := remaining - {k};
        done := done + {k};
      }
      assert (set j | j in m && j in done :: AddHeader(j, m[j])) == HeaderEntries(headers);
    }
  }

  /** Every event of a header log is an `AddHeader`. */
  lemma AddsHeadersOnlyAddsHeaders(events: seq<Event>, headers: Option<map<string, string>>)
    requires AddsHeaders(events, headers)
    ensures forall i :: 0 <= i < |events| ==> events[i].AddHeader?
  {
    forall i | 0 <= i < |events|
      ensures events[i].AddHeader?
    {
      assert events[i] in multiset(events);
    }
  }

  /**
   * A code that `WriteHeader` sends as an informational response, leaving
   * the final status unset: 100-199 except 101 Switching Protocols, as
   * net/http does from Go 1.19 on. A Go client skips such responses.
   */
  predicate Informational(code: int)
  {
    100 <= code <= 199 && code != 101
  }

  /** net/http's `bodyAllowedForStatus`: no body for 1xx, 204 and 304. */
  predicate BodyAllowed(status: int)
  {
    !(100 <= status <= 199) && status != 204 && status != 304
  }

  /** The final status a configured code leads to: 200 for 0 or an informational code. */
  function FinalStatus(code: int): int
  {
    if code != 0 && !Informational(code) then code else 200
  }

  /**
   * The status a client receives (how net/http reads the log): that of the
   * first `WriteHeader` that is not informational, or 200 if a `Write`
   * comes first or nothing is written. Header additions do not decide it.
   */
  function ObservedStatus(events: seq<Event>): int
  {
    if events == [] then 200
    else match events[0]
      case WriteHeader(code) => if Informational(code) then ObservedStatus(events[1..]) else code
      case Write(_) => 200
      case AddHeader(_, _) => ObservedStatus(events[1..])
  }

  /**
   * The body a client receives after the log `events`, once the final status
   * is `status` (`None` while it is unset): a `Write` fixes the status at 200
   * if it is still unset, and its data is sent only when that status allows
   * a body (otherwise `Write` returns `ErrBodyNotAllowed`). A `WriteHeader`
   * after the status is fixed is ignored.
   */
  function SentBody(events: seq<Event>, status: Option<int>): Bytes
  {
    if events == [] then []
    else match events[0]
      case AddHeader(_, _) => SentBody(events[1..], status)
      case WriteHeader(code) =>
        SentBody(events[1..], if status.Some? || Informational(code) then status else Some(code))
      case Write(data) =>
        var s := if status.Some? then status.value else 200;
        (if BodyAllowed(s) then data else []) + SentBody(events[1..], Some(s))
  }

  /** The body a client receives (for a request other than HEAD): every write the final status allows, in order. */
  function ObservedBody(events: seq<Event>): Bytes
  {
    SentBody(events, None)
  }

  /** Leading header additions change neither the status nor the body a client receives. */
  lemma {:induction false} HeadersAreTransparent(hs: seq<Event>, rest: seq<Event>, status: Option<int>)
    requires forall i :: 0 <= i < |hs| ==> hs[i].AddHeader?
    ensures ObservedStatus(hs + rest) == ObservedStatus(rest)
    ensures SentBody(hs + rest, status) == SentBody(rest, status)
  {
    if hs == [] {
      assert hs + rest == rest;
    } else {
      assert (hs + rest)[0] == hs[0] && hs[0].AddHeader?;
      assert (hs + rest)[1..] == hs[1..] + rest;
      HeadersAreTransparent(hs[1..], rest, status);
    }
  }

  /**
   * A response that sets `code` (0 for none) and then writes `data` gives a
   * client the final status of `code`, and `data` exactly when that status
   * allows a body.
   */
  lemma StatusThenWrite(code: int, data: Bytes)
    ensures ObservedStatus(StatusEvents(code) + [Write(data)]) == FinalStatus(code)
    ensures ObservedBody(StatusEvents(code) + [Write(data)]) ==
      if BodyAllowed(FinalStatus(code)) then data else []
  {
    var w := [Write(data)];
    var s := FinalStatus(code);
    var body := if BodyAllowed(s) then data else [];
    if code != 0 {
      var st: Option<int> := if Informational(code) then None else Some(code);
      assert (StatusEvents(code) + w)[1..] == w;
      assert SentBody(w, st) == body + SentBody([], Some(s));
    } else {
      assert StatusEvents(code) + w == w;
      assert SentBody(w, None) == body + SentBody([], Some(s));
    }
  }
}
