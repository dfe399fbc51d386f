/**
 * The rule record of the current engine. A rule is shared by pointer between
 * the caller and the server, and the server counts in it how often it was
 * dispatched, so it is an object whose one mutable field is that counter.
 */
module MockServerRequests {
  import opened Wrappers
  import opened Http

  /**
   * `MockServerResponse`. A `statusCode` of 0 leaves the status to net/http,
   * which sends 200; the zero value has a nil body and no headers.
   */
  datatype MockServerResponse = MockServerResponse(
    statusCode: int,
    body: Option<Body>,
    headers: Option<map<string, string>>)

  /** `&MockServerResponse{}`: every field at its zero value. */
  const ZeroResponse := MockServerResponse(0, None, None)

  /**
   * `MockServerRequest`. Header and query-parameter values are regular
   * expressions; `body`, `headers`, `queryParameters` and `response` are
   * optional; a `maxMatchCount` that is not positive sets no limit.
   */
  class MockServerRequest {
    const uri: string
    const httpMethod: string
    const body: Option<Body>
    const headers: Option<map<string, string>>
    const queryParameters: Option<map<string, string>>
    const response: Option<MockServerResponse>
    const maxMatchCount: int
    var invokeCount: nat

    /** A composite literal: the unexported counter starts at its zero value. */
    constructor (
      uri: string,
      httpMethod: string,
      body: Option<Body>,
      headers: Option<map<string, string>>,
      queryParameters: Option<map<string, string>>,
      response: Option<MockServerResponse>,
      maxMatchCount: int)
      ensures this.uri == uri && this.httpMethod == httpMethod && this.body == body
      ensures this.headers == headers && this.queryParameters == queryParameters
      ensures this.response == response && this.maxMatchCount == maxMatchCount
      ensures invokeCount == 0
    {
      this.uri := uri;
      this.httpMethod := httpMethod;
      this.body := body;
      this.headers := headers;
      this.queryParameters := queryParameters;
      this.response := response;
      this.maxMatchCount := maxMatchCount;
      invokeCount := 0;
    }

    /** `InvokeCount()`: how many times this rule was dispatched. */
    function InvokeCount(): (n: nat)
      reads this
      ensures n == invokeCount
    {
      invokeCount
    }
  }
}
