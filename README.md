# golangmockserver: the matching and dispatch engine, in Dafny

golangmockserver is a Go test helper. It wraps an `httptest.Server` and answers
each request from a list of configured rules. This project models the part
that decides things: which rule a request selects and what the handler then
writes. The repository holds two versions of that engine, and both are
modelled side by side over shared abstractions.

- **Current engine** (`MockServer`, `MockServerRequest`). `handleRequest`
  scans the rules in registration order. The first rule that passes every
  check is selected. The checks are: exact URI, exact method, body, every
  header pattern, every query pattern, and the `MaxMatchCount` budget. The
  handler increments the selected rule object's `invokeCount` in place, then
  writes its response: the headers are added, the status is set when it is
  not 0, and `toBytes(Body)` is written. When no rule qualifies, the handler
  writes 404.
- **Legacy engine** (`MockHttpServer`, `MockHttpServerRequest`). It uses the
  same first-fit scan, with three differences: an unset rule body matches
  only an empty request body; there are no query checks, counters or
  limits; and the status is set before the headers are added.

How the model represents the system:

- **Rules.** A current-engine rule is a class whose only mutable field is
  `invokeCount`. The server holds the caller's very objects. When one
  object sits at several positions, every position sees the increment.
  Legacy rules are plain datatypes.
- **Response writer.** The writer is a log of calls: `AddHeader`,
  `WriteHeader` and `Write`.
  - Go iterates a map in an unspecified order, so the header additions are
    specified as a multiset, not as a sequence.
  - `ObservedStatus` and `ObservedBody` say what a client receives from a
    log, for a request other than HEAD, under net/http's rules as of Go 1.19 (before 1.19, an informational
    `WriteHeader` was final). An informational code (1xx other than 101)
    is sent ahead of the final status and does not fix it. The first other
    `WriteHeader`, or else the first `Write`, fixes the final status (200 for
    a `Write`). A status of 1xx, 204 or 304 carries no body: `Write` refuses
    its data.
- **Regular expressions and JSON.** Both libraries are passed in as
  uninterpreted functions (`Env`). `toBytes` converts a Go string by UTF-8
  encoding (module `Utf8`), and the model proves that encoding round-trips
  and is injective.
- **Route registration.** `NewMockServer` and `NewMockHttpServer` register
  the distinct URIs in order of first occurrence.
- **Scenarios.** The module `Scenarios` replays the tests of both engines
  (MockServer_test.go and MockHttpServer_test.go) against the model.

Facts about the code that the model keeps:

- `MatchString` reports a match anywhere in the value, so the model assumes
  no anchoring of the patterns.
- A `json.Marshal` error is discarded, and whatever bytes the encoder
  returned are written.
- A bad pattern is not reported as an error: `regexp.MustCompile` panics
  (see "Left out").
- In the repository's test `TestMockHttpServer_RequestBodyMatching`
  (MockHttpServer_test.go:52-80), the rules are [no body, 500; body "hello
  world", 201] and the request carries "hello world". The legacy engine
  answers 201. Given the same rules, the current engine answers 500: the
  unset body of the first rule takes the request.
  `Scenarios.BodyMatchingScenario` proves both outcomes.
- The budget check is `MaxMatchCount > 0 && invokeCount >= MaxMatchCount`,
  so a negative limit never blocks either.
- `MockServerRequest` (MockServerRequest.go:4-21) declares no
  `MaxMatchCount` field, although `handleRequest` (MockServer.go:127) and
  the tests use one. The model gives the rule that field, because the
  handler reads it.

## Model

| member | source | states |
|---|---|---|
| Utf8.Encode | MockServer.go:70-71 | `[]byte(s)` takes one to four bytes per character of `s` |
| Http.Lookup | MockServer.go:84 | `Header.Get(k)` and `FormValue(k)` give the value stored for `k`, and "" when `k` is absent |
| Http.ToBytes | MockServer.go:68-78 | `toBytes`: a string gives its UTF-8 bytes, a byte slice comes back unchanged, and anything else, nil included, goes through the JSON encoder |
| Utf8.DecodeEncode | MockServer.go:70-71 | the decoder, a left inverse of the encoding (not a validating UTF-8 decoder), gives back any string from its bytes |
| Utf8.EncodeInjective | MockServer.go:70-71 | two strings convert to the same bytes exactly when they are equal |
| Utf8.EncodeAscii | MockServer.go:70-71 | a string of ASCII characters converts to one byte per character, with the same codes |
| Http.ToBytesText | MockServer.go:68-78 | `toBytes` of a string gives bytes from which the left-inverse decoder gives back that string |
| Http.ToBytesTextInjective | MockHttpServer.go:62-72 | two string bodies give the same bytes exactly when they are the same string |
| Patterns.MatchAll | MockServer.go:80-92 | the early-exit loop over the pattern map returns true exactly when the map is nil or every pattern matches the value for its key, "" when absent |
| Patterns.AbsentValueIsEmpty | MockServer.go:84 | a key the request lacks is checked against "" |
| Routes.Distinct | MockServer.go:24-40 | the registered URIs are exactly the rule URIs, with no duplicates |
| Routes.DistinctKeepsFirstOccurrenceOrder | MockServer.go:24-40 | the registered URIs are in the order of their first occurrence among the rules |
| Routes.RegisterUris | MockServer.go:24-40 | the nested loop with the `alreadyRegistered` flag computes `Distinct` of the URIs |
| Rendering.AddHeaders | MockServer.go:138-142 | one `AddHeader(k, v)` per header entry and no other call, in any order; none for a nil map |
| Rendering.AddsHeadersOnlyAddsHeaders | MockServer.go:138-142 | a header log holds only `AddHeader` calls |
| Rendering.HeadersAreTransparent | MockServer.go:138-146 | header additions before the status or body change neither the status nor the body a client receives |
| Rendering.StatusThenWrite | MockServer.go:144-148 | setting a code (if not 0) and then writing data gives a client the final status of the code (200 for 0 or an informational code), and the data exactly when that status allows a body |
| MockServerRequests.MockServerRequest.constructor | MockServerRequest.go:4-21 | a new rule holds the given configuration, and its counter is 0 |
| MockServerRequests.MockServerRequest.InvokeCount | MockServerRequest.go:24-26 | returns the counter and reads nothing else |
| MockServer.FirstMatchFrom | MockServer.go:114-153 | the selection is a qualifying rule at or after the start, and every rule before it fails a check; none is selected only when every rule fails |
| MockServer.FirstMatch | MockServer.go:114-153 | the selected rule qualifies and every earlier rule fails a check; none is selected only when every rule fails |
| MockServer.FirstMatchIsFirst | MockServer.go:114-152 | rule `i` is selected exactly when it qualifies and no earlier rule does |
| MockServer.LaterRulesNotConsulted | MockServer.go:114-152 | rules after the selected one are never looked at: changing them does not change the selection |
| MockServer.UnknownPathNotFound | MockServer.go:155 | a request whose path no rule has selects nothing, so it is answered 404 |
| MockServer.UnconstrainedRuleTakesAll | MockServer.go:115-117 | a rule without body, header or query constraints and without a limit takes exactly the requests with its URI and method, whatever their body |
| MockServer.SetBodyMatchesItsBytes | MockServer.go:117 | a set rule body passes the body check exactly when the request body equals `toBytes(Body)`, so a qualifying request carries those bytes; for a string body, only those from which the left-inverse decoder gives back that string |
| MockServer.BudgetGatesRule | MockServer.go:127-129 | a rule whose positive limit is reached never qualifies; a limit of 0 or less makes the counter irrelevant |
| MockServer.DispatchKeepsBudget | MockServer.go:127-131 | a dispatch keeps every counter within its positive limit, and keeps positions holding the same object in agreement |
| MockServer.DoHeadersMatch | MockServer.go:80-92 | true exactly when the header map is nil or every pattern matches `Header.Get(k)`, "" when absent |
| MockServer.DoQueryParametersMatch | MockServer.go:95-107 | true exactly when the query map is nil or every pattern matches `FormValue(k)`, "" when absent |
| MockServer.CheckRule | MockServer.go:115-129 | the sequence of checks in the loop body admits a rule exactly when it qualifies with its current counter |
| MockServer.WriteResponse | MockServer.go:133-150 | a nil response gives one empty `Write`; otherwise all headers are added, then `WriteHeader(code)` when the code is not 0, then one `Write(toBytes(Body))` |
| MockServer.ObservedResponse | MockServer.go:133-150 | for a request other than HEAD, a client receives the final status of the configured code (200 when it is 0 or informational, or the response is nil), and the body `toBytes(Body)` when that status allows a body; nothing for a nil response |
| MockServer.SpecialStatusCodes | MockServer.go:144-148 | for a request other than HEAD, a 204 or 304 response is received with that status and no body; an informational code is received as 200 with the body `toBytes(Body)` |
| MockServer.NilResponseIsNotZeroResponse | MockServer.go:133-148 | a nil response sends an empty body, while a response with no body sends the JSON encoding of nil (`null`); both send 200 |
| MockServer.MockServer.constructor | MockServer.go:17-45 | the server keeps the caller's rule objects, and registers `Distinct` of their URIs |
| MockServer.MockServer.Requests | MockServer.go:64-66 | returns the very rule objects the server was built from |
| MockServer.MockServer.HandleRequest | MockServer.go:109-156 | if `FirstMatch` selects nothing: `WriteHeader(404)` only, and no counter changes. Otherwise: the selected response is rendered, the selected object's counter goes up by exactly 1, and every other counter stays. Positive limits stay respected |
| MockHttpServer.FirstMatchFrom | MockHttpServer.go:94-124 | the selection is a qualifying rule at or after the start, and every rule before it fails a check; none is selected only when every rule from the start fails |
| MockHttpServer.FirstMatch | MockHttpServer.go:94-124 | the selected rule qualifies and every earlier rule fails a check; none is selected only when every rule fails |
| MockHttpServer.FirstMatchIsFirst | MockHttpServer.go:94-124 | rule `i` is selected exactly when it qualifies and no earlier rule does |
| MockHttpServer.UnsetBodyNeedsEmptyRequest | MockHttpServer.go:97 | a rule with no body takes a request only if the request body is empty |
| MockHttpServer.UnknownPathNotFound | MockHttpServer.go:126 | a request whose path no rule has selects nothing, so it is answered 404 |
| MockHttpServer.DoHeadersMatch | MockHttpServer.go:74-86 | true exactly when the header map is nil or every pattern matches `Header.Get(k)`, "" when absent |
| MockHttpServer.CheckRule | MockHttpServer.go:95-102 | the checks in the loop body admit a rule exactly when it qualifies |
| MockHttpServer.WriteResponse | MockHttpServer.go:104-119 | a nil response gives one empty `Write`; otherwise `WriteHeader(code)` when the code is not 0, then every header added, then one `Write(toBytes(Body))` |
| MockHttpServer.ObservedResponse | MockHttpServer.go:104-119 | for a request other than HEAD, a client receives the final status of the configured code (200 when it is 0 or informational, or the response is nil), and the body `toBytes(Body)` when that status allows a body; nothing for a nil response |
| MockHttpServer.MockHttpServer.constructor | MockHttpServer.go:20-48 | the server keeps the rules, and registers `Distinct` of their URIs |
| MockHttpServer.MockHttpServer.HandleRequest | MockHttpServer.go:89-127 | `WriteHeader(404)` only, when `FirstMatch` selects nothing; otherwise the selected rule's response is rendered. No rule changes |
| Variants.LegacyCandidateIsCurrentCandidate | MockHttpServer.go:95-97 | a rule that qualifies in the legacy engine qualifies in the current one. The current engine takes more only through an unset body and a non-empty request body |
| Variants.CurrentSelectsSameOrEarlier | MockServer.go:114-117 | on corresponding rule lists, the current engine selects the legacy engine's rule or an earlier one |
| Variants.EnginesAgreeOnEmptyBody | MockHttpServer.go:97 | for a request with an empty body, the two engines select the same rule |
| Variants.SameObservedResponse | MockHttpServer.go:104-119 | rendering the same response, the two engines give a client the same status and body (the body as for a request other than HEAD) |
| Variants.SameCallsInAnotherOrder | MockHttpServer.go:108-116 | rendering the same response, the two engines make the same multiset of calls. With a status and at least one header, the order differs |
| Scenarios.HelloWorldIsItsText | MockHttpServer_test.go:65 | the byte constant used by the scenarios is `[]byte("hello world")` |
| Scenarios.ToBytesScenario | MockServer_test.go:234-270 | `[]byte("abcd")` is returned unchanged, "abcd" converts to the same bytes, and a struct becomes its JSON encoding |
| Scenarios.Send | MockServer.go:109-156 | a request that rule `i` takes gets rule `i`'s status, and only rule `i`'s counter moves |
| Scenarios.SendUnmatched | MockServer.go:155 | a request no rule takes gets 404, and no counter moves |
| Scenarios.BasicCallScenario | MockServer_test.go:15-37 | a GET to an unconstrained rule is answered 200 and counted once |
| Scenarios.PutWithAnyBodyScenario | MockServer_test.go:39-61 | a PUT carrying a body reaches a rule with no body constraint: 200, counted once |
| Scenarios.NotFoundUriScenario | MockServer_test.go:63-79 | a request to another path is answered 404, and the rule is not counted |
| Scenarios.RequestBodyMatchingScenario | MockServer_test.go:81-102 | a body rule takes a request carrying its bytes: 201 |
| Scenarios.HeaderMatchScenario | MockServer_test.go:104-134 | `basic .*` on Authorization: 404 without the header, 200 with a matching value |
| Scenarios.MaximumMatchScenario | MockServer_test.go:137-175 | a rule limited to one match, followed by an unlimited one: three GETs get 500, 200, 200, and the counters end at 1 and 2 |
| Scenarios.QueryParametersScenario | MockServer_test.go:179-208 | query pattern `1` on page: 404 without the parameter, 200 with `page=1` |
| Scenarios.ResponseHeadersScenario | MockServer_test.go:210-232 | a response header map {foo: bar} is added exactly once, and the status is 200 |
| Scenarios.LegacyBasicCallScenario | MockHttpServer_test.go:12-31 | a GET to an unconstrained legacy rule with no response is answered 200 |
| Scenarios.LegacyNotFoundUriScenario | MockHttpServer_test.go:34-50 | a request to another path is answered 404 by the legacy engine |
| Scenarios.LegacyHeaderMatchScenario | MockHttpServer_test.go:84-115 | legacy `basic .*` on Authorization: 404 without the header, 200 with a matching value |
| Scenarios.LegacyResponseHeadersScenario | MockHttpServer_test.go:117-139 | a legacy response with header map {foo: bar} and no status adds that header once, and the status is 200 |
| Scenarios.LegacyBodyMatchingScenario | MockHttpServer_test.go:52-80 | legacy rules [no body, 500; body "hello world", 201] answer a "hello world" GET with 201 |
| Scenarios.BodyMatchingScenario | MockHttpServer_test.go:52-80 | on those rules the legacy engine selects the second rule and the current engine the first |

## Left out

- HTTP transport: `httptest.NewServer`, `Close`, `BaseURL`/`BaseUrl` and `http.ServeMux` routing (subtree patterns, redirects) are not modelled. The handler receives an abstract request (path, method, buffered body, header values, query values).
- `MockServer.MockServer.constructor`, `MockHttpServer.MockHttpServer.constructor`: `http.ServeMux.HandleFunc` panics when it registers an empty pattern (and, from Go 1.22, a malformed one) (MockServer.go:37, MockHttpServer.go:40). The model registers any URI, so these registration panics are not modelled.
- The regular-expression engine is an uninterpreted pair of functions: whether a pattern compiles, and whether it matches somewhere in a value.
- `MockServer.MockServer.HandleRequest`, `MockHttpServer.MockHttpServer.HandleRequest`: these require that every pattern compiles. Go's `regexp.MustCompile` instead panics, lazily, at the first rule and request that reach a bad pattern; that panic path is not modelled.
- The JSON encoder is an uninterpreted total function from a Go value to bytes. Its error result is discarded by the source and is not modelled.
- `Header.Get` canonicalises the header key. The model looks keys up verbatim in the request's header and query maps. (`FormValue` would also read form fields from the body, but `ioutil.ReadAll` at MockServer.go:111 has drained the body by then, so only the query string counts.)
- `reflect.DeepEqual` tells a nil slice from an empty one. Body comparison is modelled as plain byte-sequence equality.
- A failed `ioutil.ReadAll` of the request body is ignored by the source. It is not modelled: the body is given as bytes.
- Concurrency: net/http may run `handleRequest` on several requests at once, and `invokeCount++` is not synchronised. Only sequential dispatch is modelled.
- MockServerRequests.MockServerRequest: `invokeCount` is an unbounded natural number. The 64-bit wrap-around of Go's `int` after 2^63 dispatches is not modelled.
- MockServerRequests.MockServerRequest: the configuration fields are `const`. Go lets the caller change them after construction; nothing in the core does.
- That `invokeCount` is unexported cannot be stated in Dafny: any code may assign the field. In the model, only `HandleRequest` does.
- `WriteHeader` panics for a status code outside 100-999. Codes are passed through unchecked.
- A nil entry in the Go rule slice makes `NewMockServer` and `NewMockHttpServer` panic when they read its URI (MockServer.go:37, MockHttpServer.go:40). The model's rule sequences cannot hold nil, so that panic is not modelled.
- Rendering.ObservedBody, MockServer.ObservedResponse, MockHttpServer.ObservedResponse, MockServer.SpecialStatusCodes, Variants.SameObservedResponse: the request method is not an input, so they give the body as for a request other than HEAD. For a HEAD request net/http discards the data the handler writes, and the client receives no body.
- A header that the response adds explicitly, and the headers net/http adds itself (`Content-Type`, `Content-Length`), are not part of `ObservedStatus`/`ObservedBody`.
- net/http ignores headers that the legacy engine adds after a non-informational `WriteHeader`. The model records the order of the calls, and `ObservedStatus`/`ObservedBody` do not model the headers a client receives.
- Go `string` values are modelled as sequences of Unicode scalar values. A Go string holding invalid UTF-8 has no counterpart.
