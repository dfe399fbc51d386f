/**
 * The rule records of the legacy engine: plain values, never changed after
 * construction. They have no query parameters, no counter and no limit.
 */
module MockHttpServerRequests {
  import opened Wrappers
  import opened Http

  /**
   * `MockHttpServerResponse`. A `statusCode` of 0 leaves the status to
   * net/http, which sends 200; the zero value has a nil body and no headers.
   */
  datatype MockHttpServerResponse = MockHttpServerResponse(
    statusCode: int,
    body: Option<Body>,
    headers: Option<map<string, string>>)

  /** `MockHttpServerRequest`. Header values are regular expressions. */
  datatype MockHttpServerRequest = MockHttpServerRequest(
    uri: string,
    httpMethod: string,
    body: Option<Body>,
    headers: Option<map<string, string>>,
    response: Option<MockHttpServerResponse>)
}
