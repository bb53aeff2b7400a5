/**
 * The outside world the validator talks to, as values. Every network call
 * the validator makes is a field of `Network`: the XML-RPC client's
 * `system.listMethods` call, the plain HTTP fetch of a page, the RSD
 * parser and the Jetpack check. A discovery run returns its outcome
 * together with the trace of calls it made, in order.
 */
module Oracle {
  import opened Wrappers
  import opened Urls
  import opened Errors

  /** The parts of `HTTPURLResponse` the validator reads. */
  datatype HTTPResponse = HTTPResponse(url: Option<Url>, statusCode: int)

  /** The decoded XML-RPC response: an array of strings or anything else. */
  datatype ResponseObject = StringArray(strings: seq<string>) | OtherObject

  /** What `callMethod("system.listMethods", ...)` reports: its success or its failure callback. */
  datatype ListMethodsReply =
    | ListMethodsOk(response: ResponseObject, http: Option<HTTPResponse>)
    | ListMethodsFailed(error: NSError, http: Option<HTTPResponse>)

  /**
   * What a data task reports: an error, or the body. `Fetched(None)` stands
   * for a missing body or one that is not UTF-8.
   */
  datatype FetchReply = FetchFailed(error: NSError) | Fetched(text: Option<string>)

  /** What `checkSiteHasJetpack` reports: its failure callback or its answer. */
  datatype JetpackReply = JetpackCheckFailed | JetpackChecked(hasJetpack: bool)

  /**
   * The network, one answer per request. `parseRSD` stands for
   * `WordPressRSDParser` and `parsedEndpoint()`, `None` when either fails or
   * no endpoint is found; `jetpackService` says whether the anonymous
   * Jetpack service can be created for a user agent.
   */
  datatype Network = Network(
    listMethods: Url -> ListMethodsReply,
    fetch: Url -> FetchReply,
    parseRSD: string -> Option<string>,
    jetpackService: string -> bool,
    checkSiteHasJetpack: Url -> JetpackReply)

  /** One network call made during discovery. */
  datatype Stage =
    | ListMethods(url: Url)
    | FetchHTML(url: Url)
    | FetchRSD(url: Url)
    | CheckJetpack(url: Url)

  /** Which completion handler is called, and with what. */
  datatype Outcome = Succeeded(url: Url) | Failed(error: NSError)

  /** A run: the outcome and the calls made to reach it. */
  datatype Run = Run(outcome: Outcome, trace: seq<Stage>)

  /** `httpResponse?.url`. */
  function ResponseURL(http: Option<HTTPResponse>): Option<Url>
  {
    if http.Some? then http.value.url else None
  }

  /** `httpResponse?.statusCode`. */
  function StatusCode(http: Option<HTTPResponse>): Option<int>
  {
    if http.Some? then Some(http.value.statusCode) else None
  }

  /** Every call in the trace is a `system.listMethods` probe. */
  predicate OnlyProbes(trace: seq<Stage>)
  {
    forall i :: 0 <= i < |trace| ==> trace[i].ListMethods?
  }
}
