/**
 * The vocabulary both engines share: the opaque body values rules and
 * responses carry, the abstract request a handler sees, the log of calls a
 * handler makes on its `http.ResponseWriter`, and the two foreign libraries
 * it relies on (the regular-expression engine and the JSON encoder), which
 * are passed in as uninterpreted functions.
 */
module Http {
  import opened Wrappers
  import Utf8

  type byte = Utf8.byte
  type Bytes = Utf8.Bytes

  /** A Go value stored in an `interface{}` that is neither a `string` nor a `[]byte`. */
  type Data(==)

  /** A non-nil `interface{}` body, after the type switch of `toBytes`. Go's nil is `None`. */
  datatype Body = Text(text: string) | Raw(bytes: Bytes) | Structured(data: Data)

  /**
   * The `regexp` package. `regexp.MustCompile(p)` succeeds exactly when
   * `compiles(p)`; `MatchString(p, v)` of the compiled pattern is
   * `matchString(p, v)`, which reports a match anywhere in `v`.
   */
  datatype Regex = Regex(compiles: string -> bool, matchString: (string, string) -> bool)

  /** The foreign libraries. `marshal(None)` is `json.Marshal(nil)`; its error is discarded. */
  datatype Env = Env(regex: Regex, marshal: Option<Data> -> Bytes)

  /**
   * What a handler reads of an `*http.Request`: the URL path, the method, the
   * buffered body, the header values (`Header.Get`) and the query values
   * (`FormValue`).
   */
  datatype Request = Request(
    path: string,
    httpMethod: string,
    body: Bytes,
    header: map<string, string>,
    form: map<string, string>)

  /** One call on the `http.ResponseWriter`. */
  datatype Event =
    | AddHeader(key: string, value: string)  // w.Header().Add(key, value)
    | WriteHeader(code: int)                 // w.WriteHeader(code)
    | Write(data: Bytes)                     // w.Write(data)

  /** `Header.Get` and `FormValue`: the value for a key, or "" when it is absent. */
  function Lookup(values: map<string, string>, key: string): (v: string)
    ensures key in values ==> v == values[key]
    ensures key !in values ==> v == ""
  {
    if key in values then values[key] else ""
  }

  /**
   * `toBytes`: a string converts to its UTF-8 bytes, a byte slice is returned
   * as it is, and anything else, nil included, goes through the JSON encoder.
   */
  function ToBytes(body: Option<Body>, env: Env): (b: Bytes)
    ensures body.Some? && body.value.Text? ==> b == Utf8.Encode(body.value.text)
    ensures body.Some? && body.value.Text? ==> |body.value.text| <= |b| <= 4 * |body.value.text|
    ensures body.Some? && body.value.Raw? ==> b == body.value.bytes
    ensures body.Some? && body.value.Structured? ==> b == env.marshal(Some(body.value.data))
    ensures body.None? ==> b == env.marshal(None)
  {
    match body
    case Some(Text(s)) => Utf8.Encode(s)
    case Some(Raw(b)) => b
    case Some(Structured(d)) => env.marshal(Some(d))
    case None => env.marshal(None)
  }

  /** A text body converts to bytes that decode back to the same text. */
  lemma ToBytesText(s: string, env: Env)
    ensures Utf8.Decode(ToBytes(Some(Text(s)), env)) == Some(s)
  {
    Utf8.DecodeEncode(s);
  }

  /** Two text bodies convert to the same bytes exactly when they are the same text. */
  lemma ToBytesTextInjective(s: string, t: string, env: Env)
    ensures ToBytes(Some(Text(s)), env) == ToBytes(Some(Text(t)), env) <==> s == t
  {
    Utf8.EncodeInjective(s, t);
  }
}
