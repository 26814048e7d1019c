/** One HTTP answer as the scripts see it. The network itself is not modelled:
    each script takes the answers it would receive as an input. */
module Http {
  import opened PyJson

  /** What `response.json()` yields: a decoded value, or the ValueError of a body
      that is not JSON. */
  datatype Body = Parsed(json: Json) | Unparsable

  /** Status code, the `Retry-After` header when present, the body, and whether the
      `Content-Type` header names JSON. `requests` reads the body whatever that header
      says; `aiohttp`'s `json()` raises a ContentTypeError, which is not a ValueError,
      when it does not name JSON. */
  datatype Response = Response(status: int, retryAfter: Option<string>, body: Body, jsonType: bool)
}
